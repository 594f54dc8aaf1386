/**
 * The fox population manager of `framework/population_manager.py`: a list
 * of family groups, each with a member list and a running `size` count.
 *
 * Foxes are Python objects compared by identity; here every fox carries a
 * unique `id` and membership, removal and lookup compare ids.
 */
module FoxPopulation {
  import opened Common
  import opened Enums
  import opened Seqs

  /** The fox attributes the manager and the hunter read. */
  datatype Fox = Fox(id: nat, sex: Sex, age: int, den: Coords, pos: Coords, isPregnant: bool)

  datatype FoxGroup = FoxGroup(groupId: int, size: int, foxes: seq<Fox>)

  /** A fox of age 0 standing at its den. */
  function NewFox(id: nat, sex: Sex, den: Coords): (f: Fox)
    ensures f.id == id && f.sex == sex && f.age == 0 && f.den == den && f.pos == den && !f.isPregnant
  {
    Fox(id, sex, 0, den, den, false)
  }

  /** The identities of a list of foxes, in order. */
  function IdsOf(foxes: seq<Fox>): (r: seq<nat>)
    ensures |r| == |foxes| && forall i :: 0 <= i < |foxes| ==> r[i] == foxes[i].id
  {
    seq(|foxes|, i requires 0 <= i < |foxes| => foxes[i].id)
  }

  /** `fox in group.foxes`, by identity. */
  predicate HasFox(g: FoxGroup, id: nat) {
    id in IdsOf(g.foxes)
  }

  /** Position of the first fox with this identity. */
  function FirstIdIndex(foxes: seq<Fox>, id: nat): (i: nat)
    requires id in IdsOf(foxes)
    ensures i < |foxes| && foxes[i].id == id
    ensures forall k :: 0 <= k < i ==> foxes[k].id != id
  {
    var i := IndexOf(IdsOf(foxes), id);
    assert forall k :: 0 <= k < i ==> IdsOf(foxes)[..i][k] == foxes[k].id;
    i
  }

  /** `list.remove(fox)` on a list of foxes: the first fox with this identity is deleted. */
  function RemoveById(foxes: seq<Fox>, id: nat): (r: seq<Fox>)
    ensures id !in IdsOf(foxes) ==> r == foxes
    ensures id in IdsOf(foxes) ==>
              var i := FirstIdIndex(foxes, id);
              |r| == |foxes| - 1 && r == foxes[..i] + foxes[i + 1..]
  {
    if id in IdsOf(foxes) then
      var i := FirstIdIndex(foxes, id);
      foxes[..i] + foxes[i + 1..]
    else foxes
  }

  /** The count a group keeps agrees with its member list. */
  predicate Consistent(g: FoxGroup) {
    g.size == |g.foxes|
  }

  predicate AllConsistent(groups: seq<FoxGroup>) {
    forall i :: 0 <= i < |groups| ==> Consistent(groups[i])
  }

  /** The random outcomes one group creation consumes. */
  datatype GroupDraw = GroupDraw(sizeDraw: real, extraSexes: seq<Sex>)

  /** Members beyond the dominant pair: `range(int(size) - 2)`. */
  function ExtraMembers(sizeDraw: real): nat {
    MaxInt(0, Trunc(sizeDraw) - 2)
  }

  predicate ValidGroupDraw(d: GroupDraw) {
    |d.extraSexes| == ExtraMembers(d.sizeDraw)
  }

  /**
   * `FoxGroup(group_id, den_position, ...)`: a dominant male and a dominant female,
   * then the extra members, all at the den, with identities `firstId, firstId + 1, ...`.
   */
  function NewGroup(groupId: int, den: Coords, d: GroupDraw, firstId: nat): (g: FoxGroup)
    requires ValidGroupDraw(d)
    ensures g.groupId == groupId && g.size == Trunc(d.sizeDraw)
    ensures |g.foxes| == MaxInt(2, g.size)
    ensures g.foxes[0].sex == Male && g.foxes[1].sex == Female
    ensures forall i :: 0 <= i < |d.extraSexes| ==> 2 + i < |g.foxes| && g.foxes[2 + i].sex == d.extraSexes[i]
    ensures forall i :: 0 <= i < |g.foxes| ==>
              g.foxes[i].id == firstId + i && g.foxes[i].den == den && g.foxes[i].pos == den && g.foxes[i].age == 0 &&
              !g.foxes[i].isPregnant
    ensures 2 <= g.size ==> Consistent(g)
  {
    var sexes := [Male, Female] + d.extraSexes;
    assert forall i :: 0 <= i < |d.extraSexes| ==> sexes[2 + i] == d.extraSexes[i];
    FoxGroup(groupId, Trunc(d.sizeDraw), Newborns(firstId, den, sexes))
  }

  /** Newborn foxes at `den` with the given sexes, numbered on from `firstId`. */
  function Newborns(firstId: nat, den: Coords, sexes: seq<Sex>): (r: seq<Fox>)
    ensures |r| == |sexes|
    ensures forall i :: 0 <= i < |r| ==> r[i] == NewFox(firstId + i, sexes[i], den)
  {
    seq(|sexes|, i requires 0 <= i < |sexes| => NewFox(firstId + i, sexes[i], den))
  }

  /**
   * A group as `create_population` founds it from draw `d`: numbered `groupId`,
   * counting `int(size)` members and holding `max(2, int(size))`, a dominant male
   * and female first and then the drawn sexes, every member a newborn standing at the den and not pregnant,
   * identities in `[lo, hi)`.
   */
  predicate Founded(g: FoxGroup, groupId: int, den: Coords, d: GroupDraw, lo: nat, hi: nat) {
    && g.groupId == groupId
    && g.size == Trunc(d.sizeDraw)
    && |g.foxes| == MaxInt(2, g.size) == 2 + |d.extraSexes|
    && g.foxes[0].sex == Male && g.foxes[1].sex == Female
    && (forall j :: 0 <= j < |d.extraSexes| ==> g.foxes[2 + j].sex == d.extraSexes[j])
    && forall j :: 0 <= j < |g.foxes| ==>
         && g.foxes[j].den == den && g.foxes[j].pos == den && !g.foxes[j].isPregnant
         && g.foxes[j].age == 0 && lo <= g.foxes[j].id < hi
  }

  /** Groups for the dens `dens[k..]`, numbered by their den's index, identities from `nextId` on. */
  function CreateFrom(dens: seq<Coords>, draws: seq<GroupDraw>, k: nat, nextId: nat): (r: (seq<FoxGroup>, nat))
    requires |draws| == |dens| && k <= |dens|
    requires forall i :: 0 <= i < |draws| ==> ValidGroupDraw(draws[i])
    ensures |r.0| == |dens| - k && nextId <= r.1
    ensures forall i :: 0 <= i < |r.0| ==> Founded(r.0[i], k + i, dens[k + i], draws[k + i], nextId, r.1)
    ensures IdsOf(GetFoxes(r.0)) == Range(nextId, r.1)
    decreases |dens| - k
  {
    if k == |dens| then ([], nextId)
    else
      var g := NewGroup(k, dens[k], draws[k], nextId);
      var (rest, last) := CreateFrom(dens, draws, k + 1, nextId + |g.foxes|);
      NewGroupFounded(k, dens[k], draws[k], nextId, last);
      FoundedCons(g, rest, dens, draws, k, nextId, nextId + |g.foxes|, last);
      ConsecutiveIds(g, rest, nextId, last);
      ([g] + rest, last)
  }

  lemma NewGroupFounded(groupId: int, den: Coords, d: GroupDraw, lo: nat, hi: nat)
    requires ValidGroupDraw(d) && lo + |NewGroup(groupId, den, d, lo).foxes| <= hi
    ensures Founded(NewGroup(groupId, den, d, lo), groupId, den, d, lo, hi)
  {
  }

  /** A founded group in front of groups founded from a later identity on. */
  lemma FoundedCons(g: FoxGroup, rest: seq<FoxGroup>, dens: seq<Coords>, draws: seq<GroupDraw>, k: nat, lo: nat, mid: nat, hi: nat)
    requires |draws| == |dens| && k + |rest| < |dens| && lo <= mid
    requires Founded(g, k, dens[k], draws[k], lo, hi)
    requires forall i :: 0 <= i < |rest| ==> Founded(rest[i], k + 1 + i, dens[k + 1 + i], draws[k + 1 + i], mid, hi)
    ensures forall i :: 0 <= i < |rest| + 1 ==> Founded(([g] + rest)[i], k + i, dens[k + i], draws[k + i], lo, hi)
  {
    forall i | 1 <= i < |rest| + 1 ensures Founded(([g] + rest)[i], k + i, dens[k + i], draws[k + i], lo, hi) {
      assert ([g] + rest)[i] == rest[i - 1];
    }
  }

  /** A group numbered from `lo` in front of groups numbered on from there. */
  lemma ConsecutiveIds(g: FoxGroup, rest: seq<FoxGroup>, lo: nat, hi: nat)
    requires forall i :: 0 <= i < |g.foxes| ==> g.foxes[i].id == lo + i
    requires lo + |g.foxes| <= hi && IdsOf(GetFoxes(rest)) == Range(lo + |g.foxes|, hi)
    ensures IdsOf(GetFoxes([g] + rest)) == Range(lo, hi)
  {
    assert ([g] + rest)[1..] == rest;
    IdsOfAppend(g.foxes, GetFoxes(rest));
    assert IdsOf(g.foxes) == Range(lo, lo + |g.foxes|);
    RangeAppend(lo, lo + |g.foxes|, hi);
  }

  /**
   * `create_population`: one group per den appended after the existing groups,
   * in den order, each numbered by its den's index. Returns the next free identity.
   */
  function CreatePopulation(groups: seq<FoxGroup>, dens: seq<Coords>, draws: seq<GroupDraw>, nextId: nat): (r: (seq<FoxGroup>, nat))
    requires |draws| == |dens|
    requires forall i :: 0 <= i < |draws| ==> ValidGroupDraw(draws[i])
    ensures |r.0| == |groups| + |dens| && r.0[..|groups|] == groups && nextId <= r.1
    ensures forall i :: 0 <= i < |dens| ==> Founded(r.0[|groups| + i], i, dens[i], draws[i], nextId, r.1)
    ensures IdsOf(GetFoxes(r.0)) == IdsOf(GetFoxes(groups)) + Range(nextId, r.1)
    ensures AllConsistent(groups) && (forall i :: 0 <= i < |draws| ==> 2 <= Trunc(draws[i].sizeDraw)) ==>
              AllConsistent(r.0)
  {
    var (created, last) := CreateFrom(dens, draws, 0, nextId);
    assert forall i :: 0 <= i < |dens| ==> (groups + created)[|groups| + i] == created[i];
    RosterIdsAppend(groups, created);
    FoundedConsistent(groups, created, dens, draws, nextId, last);
    (groups + created, last)
  }

  /** Groups founded from draws of at least two members keep consistent counts consistent. */
  lemma FoundedConsistent(groups: seq<FoxGroup>, created: seq<FoxGroup>, dens: seq<Coords>, draws: seq<GroupDraw>, lo: nat, hi: nat)
    requires |created| == |dens| == |draws|
    requires forall i :: 0 <= i < |created| ==> Founded(created[i], i, dens[i], draws[i], lo, hi)
    ensures AllConsistent(groups) && (forall i :: 0 <= i < |draws| ==> 2 <= Trunc(draws[i].sizeDraw)) ==>
              AllConsistent(groups + created)
  {
    if AllConsistent(groups) && (forall i :: 0 <= i < |draws| ==> 2 <= Trunc(draws[i].sizeDraw)) {
      forall i | 0 <= i < |groups| + |created| ensures Consistent((groups + created)[i]) {
        if i >= |groups| {
          assert (groups + created)[i] == created[i - |groups|];
        }
      }
    }
  }

  /** The identities of two group lists' roster, one list after the other. */
  lemma RosterIdsAppend(a: seq<FoxGroup>, b: seq<FoxGroup>)
    ensures IdsOf(GetFoxes(a + b)) == IdsOf(GetFoxes(a)) + IdsOf(GetFoxes(b))
  {
    GetFoxesAppend(a, b);
    IdsOfAppend(GetFoxes(a), GetFoxes(b));
  }

  /** No two foxes of the population share an identity, as no two Python objects are the same object. */
  predicate UniqueIds(groups: seq<FoxGroup>) {
    NoDup(IdsOf(GetFoxes(groups)))
  }

  /** Every identity in use is below `n`, so identities from `n` on are fresh. */
  predicate IdsBelow(groups: seq<FoxGroup>, n: nat) {
    forall k :: k in IdsOf(GetFoxes(groups)) ==> k < n
  }

  /**
   * Creating the groups from fresh identities keeps identities unique, and the
   * returned next identity is fresh again.
   */
  lemma CreatePopulationIds(groups: seq<FoxGroup>, dens: seq<Coords>, draws: seq<GroupDraw>, nextId: nat)
    requires |draws| == |dens|
    requires forall i :: 0 <= i < |draws| ==> ValidGroupDraw(draws[i])
    requires UniqueIds(groups) && IdsBelow(groups, nextId)
    ensures var r := CreatePopulation(groups, dens, draws, nextId);
            UniqueIds(r.0) && IdsBelow(r.0, r.1) && nextId <= r.1
  {
    var r := CreatePopulation(groups, dens, draws, nextId);
    var old_ids := IdsOf(GetFoxes(groups));
    var new_ids := Range(nextId, r.1);
    NoDupConcat(old_ids, new_ids);
  }

  /** `get_foxes`: the members of all groups, group after group. */
  function GetFoxes(groups: seq<FoxGroup>): (r: seq<Fox>)
    ensures |r| == Members(groups)
  {
    if |groups| == 0 then [] else groups[0].foxes + GetFoxes(groups[1..])
  }

  /** Total length of the member lists. */
  function Members(groups: seq<FoxGroup>): nat {
    if |groups| == 0 then 0 else |groups[0].foxes| + Members(groups[1..])
  }

  /** A fox is in the flattened roster iff it is a member of some group. */
  lemma {:induction false} GetFoxesMembership(groups: seq<FoxGroup>, f: Fox)
    ensures f in GetFoxes(groups) <==> exists i :: 0 <= i < |groups| && f in groups[i].foxes
  {
    if |groups| > 0 {
      GetFoxesMembership(groups[1..], f);
      assert forall i :: 1 <= i < |groups| ==> groups[i] == groups[1..][i - 1];
      if f in GetFoxes(groups[1..]) {
        var i :| 0 <= i < |groups[1..]| && f in groups[1..][i].foxes;
        assert f in groups[i + 1].foxes;
      }
    }
  }

  /** Flattening distributes over concatenation of group lists. */
  lemma {:induction false} GetFoxesAppend(a: seq<FoxGroup>, b: seq<FoxGroup>)
    ensures GetFoxes(a + b) == GetFoxes(a) + GetFoxes(b)
  {
    if |a| == 0 {
      assert a + b == b;
    } else {
      assert (a + b)[1..] == a[1..] + b;
      GetFoxesAppend(a[1..], b);
    }
  }

  /** Index of the first group holding the fox, if any. */
  function FirstGroupWith(groups: seq<FoxGroup>, id: nat): (r: Option<nat>)
    ensures r.None? <==> forall i :: 0 <= i < |groups| ==> !HasFox(groups[i], id)
    ensures r.Some? ==> r.value < |groups| && HasFox(groups[r.value], id)
    ensures r.Some? ==> forall i :: 0 <= i < r.value ==> !HasFox(groups[i], id)
  {
    if |groups| == 0 then None
    else if HasFox(groups[0], id) then Some(0)
    else
      var r := FirstGroupWith(groups[1..], id);
      assert forall i :: 1 <= i < |groups| ==> groups[i] == groups[1..][i - 1];
      if r.None? then None else Some(r.value + 1)
  }

  /**
   * `remove_fox`: the fox leaves the first group that holds it, whose count drops
   * by one; a group whose count reaches 0 is dissolved. Other groups are untouched,
   * and a fox in no group changes nothing.
   */
  function RemoveFox(groups: seq<FoxGroup>, fox: Fox): (r: seq<FoxGroup>)
    ensures FirstGroupWith(groups, fox.id).None? ==> r == groups
    ensures FirstGroupWith(groups, fox.id).Some? ==>
              var g := FirstGroupWith(groups, fox.id).value;
              var shrunk := groups[g].(size := groups[g].size - 1, foxes := RemoveById(groups[g].foxes, fox.id));
              && (shrunk.size == 0 ==> r == groups[..g] + groups[g + 1..])
              && (shrunk.size != 0 ==> r == groups[g := shrunk])
    ensures AllConsistent(groups) ==> AllConsistent(r)
  {
    match FirstGroupWith(groups, fox.id)
    case None => groups
    case Some(g) =>
      var shrunk := groups[g].(size := groups[g].size - 1, foxes := RemoveById(groups[g].foxes, fox.id));
      if shrunk.size == 0 then
        DeleteAt(groups, g);
        groups[..g] + groups[g + 1..]
      else
        groups[g := shrunk]
  }

  /**
   * With consistent counts, removing a fox from the population removes exactly
   * its first occurrence from the flattened roster.
   */
  lemma RemoveFoxRoster(groups: seq<FoxGroup>, fox: Fox)
    requires AllConsistent(groups)
    ensures GetFoxes(RemoveFox(groups, fox)) == RemoveById(GetFoxes(groups), fox.id)
  {
    var first := FirstGroupWith(groups, fox.id);
    if first.None? {
      assert RemoveFox(groups, fox) == groups;
      AbsentRoster(groups, fox.id);
    } else {
      var g := first.value;
      var shrunk := groups[g].(size := groups[g].size - 1, foxes := RemoveById(groups[g].foxes, fox.id));
      if groups[g].size == 1 {
        assert RemoveFox(groups, fox) == groups[..g] + groups[g + 1..];
        DissolvedRoster(groups, g, fox.id);
      } else {
        assert RemoveFox(groups, fox) == groups[g := shrunk];
        ShrunkRoster(groups, g, fox.id);
      }
    }
  }

  /** A fox in no group is not in the roster. */
  lemma AbsentRoster(groups: seq<FoxGroup>, id: nat)
    requires FirstGroupWith(groups, id).None?
    ensures RemoveById(GetFoxes(groups), id) == GetFoxes(groups)
  {
    RosterIds(groups, id);
  }

  /** A group of one disappears from the roster together with its only fox. */
  lemma DissolvedRoster(groups: seq<FoxGroup>, g: nat, id: nat)
    requires FirstGroupWith(groups, id) == Some(g) && Consistent(groups[g]) && groups[g].size == 1
    ensures GetFoxes(groups[..g] + groups[g + 1..]) == RemoveById(GetFoxes(groups), id)
  {
    RemoveInGroupRoster(groups, g, id);
    GetFoxesAppend(groups[..g], groups[g + 1..]);
    assert RemoveById(groups[g].foxes, id) == [];
  }

  /** A larger group stays, one fox shorter. */
  lemma ShrunkRoster(groups: seq<FoxGroup>, g: nat, id: nat)
    requires FirstGroupWith(groups, id) == Some(g)
    ensures var shrunk := groups[g].(size := groups[g].size - 1, foxes := RemoveById(groups[g].foxes, id));
            GetFoxes(groups[g := shrunk]) == RemoveById(GetFoxes(groups), id)
  {
    var shrunk := groups[g].(size := groups[g].size - 1, foxes := RemoveById(groups[g].foxes, id));
    RemoveInGroupRoster(groups, g, id);
    RosterAround(groups[g := shrunk], g, shrunk);
    assert groups[g := shrunk][..g] == groups[..g];
    assert groups[g := shrunk][g + 1..] == groups[g + 1..];
  }

  /** Removal from the roster happens inside the first group holding the fox. */
  lemma RemoveInGroupRoster(groups: seq<FoxGroup>, g: nat, id: nat)
    requires FirstGroupWith(groups, id) == Some(g)
    ensures RemoveById(GetFoxes(groups), id) ==
              GetFoxes(groups[..g]) + RemoveById(groups[g].foxes, id) + GetFoxes(groups[g + 1..])
  {
    RosterAround(groups, g, groups[g]);
    RosterIds(groups[..g], id);
    RemoveByIdSplit(GetFoxes(groups[..g]), groups[g].foxes, GetFoxes(groups[g + 1..]), id);
  }

  /** The roster splits around any one group. */
  lemma RosterAround(groups: seq<FoxGroup>, g: nat, x: FoxGroup)
    requires g < |groups| && groups[g] == x
    ensures GetFoxes(groups) == GetFoxes(groups[..g]) + x.foxes + GetFoxes(groups[g + 1..])
  {
    SplitAt(groups, g);
    RosterOfPieces(groups[..g], x, groups[g + 1..]);
  }

  /** The roster of `pre + [x] + post`, piece by piece. */
  lemma RosterOfPieces(pre: seq<FoxGroup>, x: FoxGroup, post: seq<FoxGroup>)
    ensures GetFoxes(pre + ([x] + post)) == GetFoxes(pre) + x.foxes + GetFoxes(post)
  {
    GetFoxesAppend(pre, [x] + post);
    assert ([x] + post)[1..] == post;
  }

  /** The identities in the roster are those in the groups. */
  lemma {:induction false} RosterIds(groups: seq<FoxGroup>, id: nat)
    ensures id in IdsOf(GetFoxes(groups)) <==> exists i :: 0 <= i < |groups| && HasFox(groups[i], id)
  {
    if |groups| > 0 {
      RosterIds(groups[1..], id);
      IdsOfAppend(groups[0].foxes, GetFoxes(groups[1..]));
      assert forall i :: 1 <= i < |groups| ==> groups[i] == groups[1..][i - 1];
      if id in IdsOf(GetFoxes(groups[1..])) {
        var i :| 0 <= i < |groups[1..]| && HasFox(groups[1..][i], id);
        assert HasFox(groups[i + 1], id);
      }
    }
  }

  lemma IdsOfAppend(a: seq<Fox>, b: seq<Fox>)
    ensures IdsOf(a + b) == IdsOf(a) + IdsOf(b)
  {
  }

  /** The first fox with an identity lies in the first part that holds one. */
  lemma FirstIdIndexSplit(a: seq<Fox>, b: seq<Fox>, c: seq<Fox>, id: nat)
    requires id !in IdsOf(a) && id in IdsOf(b)
    ensures id in IdsOf(a + b + c)
    ensures FirstIdIndex(a + b + c, id) == |a| + FirstIdIndex(b, id)
  {
    var s := a + b + c;
    var i := FirstIdIndex(b, id);
    assert s[|a| + i] == b[i];
    assert IdsOf(s)[|a| + i] == id;
    forall j | 0 <= j < |a| + i ensures s[j].id != id {
      if j < |a| {
        assert s[j] == a[j] && IdsOf(a)[j] == a[j].id;
      } else {
        assert s[j] == b[j - |a|];
      }
    }
  }

  /** Removing from a concatenation removes from the first part holding the identity. */
  lemma RemoveByIdSplit(a: seq<Fox>, b: seq<Fox>, c: seq<Fox>, id: nat)
    requires id !in IdsOf(a) && id in IdsOf(b)
    ensures RemoveById(a + b + c, id) == a + RemoveById(b, id) + c
  {
    FirstIdIndexSplit(a, b, c, id);
    var s := a + b + c;
    var i := FirstIdIndex(b, id);
    SliceAround(a, b, c, i);
    assert RemoveById(s, id) == s[..|a| + i] + s[|a| + i + 1..];
    assert RemoveById(b, id) == b[..i] + b[i + 1..];
  }

  /** Cutting one element out of the middle part of a concatenation. */
  lemma SliceAround<T>(a: seq<T>, b: seq<T>, c: seq<T>, i: nat)
    requires i < |b|
    ensures (a + b + c)[..|a| + i] + (a + b + c)[|a| + i + 1..] == a + (b[..i] + b[i + 1..]) + c
  {
    var s := a + b + c;
    assert s[..|a| + i] == a + b[..i];
    assert s[|a| + i + 1..] == b[i + 1..] + c;
  }

  /** The random outcomes `add_foxes` consumes: the litter draw and one sex per cub. */
  function CubCount(litterDraw: real): nat {
    MaxInt(0, Trunc(litterDraw))
  }

  /**
   * `add_foxes`: `int(n)` cubs of age 0 at the parent's den join the first group
   * holding the parent, whose count grows by as many. A parent in no group changes nothing.
   */
  function AddFoxes(groups: seq<FoxGroup>, parent: Fox, litterDraw: real, sexes: seq<Sex>, firstId: nat): (r: seq<FoxGroup>)
    requires |sexes| == CubCount(litterDraw)
    ensures |r| == |groups|
    ensures FirstGroupWith(groups, parent.id).None? ==> r == groups
    ensures FirstGroupWith(groups, parent.id).Some? ==>
              var g := FirstGroupWith(groups, parent.id).value;
              && (forall i :: 0 <= i < |groups| && i != g ==> r[i] == groups[i])
              && r[g].groupId == groups[g].groupId
              && r[g].size == groups[g].size + CubCount(litterDraw)
              && |r[g].foxes| == |groups[g].foxes| + CubCount(litterDraw)
              && r[g].foxes[..|groups[g].foxes|] == groups[g].foxes
              && forall j :: |groups[g].foxes| <= j < |r[g].foxes| ==>
                   r[g].foxes[j].age == 0 && r[g].foxes[j].den == parent.den &&
                   r[g].foxes[j].id == firstId + j - |groups[g].foxes| &&
                   r[g].foxes[j].sex == sexes[j - |groups[g].foxes|] &&
                   r[g].foxes[j] == NewFox(firstId + j - |groups[g].foxes|, sexes[j - |groups[g].foxes|], parent.den)
    ensures AllConsistent(groups) ==> AllConsistent(r)
  {
    match FirstGroupWith(groups, parent.id)
    case None => groups
    case Some(g) =>
      var cubs := seq(|sexes|, i requires 0 <= i < |sexes| => NewFox(firstId + i, sexes[i], parent.den));
      var grown := groups[g].(size := groups[g].size + |cubs|, foxes := groups[g].foxes + cubs);
      groups[g := grown]
  }

  /** The roster's identities split around any one group. */
  lemma RosterIdsAround(groups: seq<FoxGroup>, g: nat)
    requires g < |groups|
    ensures IdsOf(GetFoxes(groups)) ==
              IdsOf(GetFoxes(groups[..g])) + IdsOf(groups[g].foxes) + IdsOf(GetFoxes(groups[g + 1..]))
  {
    RosterAround(groups, g, groups[g]);
    IdsOfAppend(GetFoxes(groups[..g]) + groups[g].foxes, GetFoxes(groups[g + 1..]));
    IdsOfAppend(GetFoxes(groups[..g]), groups[g].foxes);
  }

  /**
   * Cubs numbered from an identity above every identity in use keep identities
   * unique, and the identities after the litter are fresh again.
   */
  lemma AddFoxesIds(groups: seq<FoxGroup>, parent: Fox, litterDraw: real, sexes: seq<Sex>, firstId: nat)
    requires |sexes| == CubCount(litterDraw)
    requires UniqueIds(groups) && IdsBelow(groups, firstId)
    ensures var r := AddFoxes(groups, parent, litterDraw, sexes, firstId);
            UniqueIds(r) && IdsBelow(r, firstId + CubCount(litterDraw))
  {
    var r := AddFoxes(groups, parent, litterDraw, sexes, firstId);
    var n := CubCount(litterDraw);
    if FirstGroupWith(groups, parent.id).Some? {
      var g := FirstGroupWith(groups, parent.id).value;
      var before := groups[g].foxes;
      var cubs := r[g].foxes[|before|..];
      assert r[g].foxes == before + cubs;
      assert IdsOf(cubs) == Range(firstId, firstId + n);
      LitterRoster(groups, r, g, cubs);
      var p, q := IdsOf(GetFoxes(groups[..g])), IdsOf(GetFoxes(groups[g + 1..]));
      FreshInsert(p + IdsOf(before), IdsOf(cubs), q, firstId, firstId + n);
    }
  }

  /** The roster after a litter joins group `g`: the cubs follow that group's old members. */
  lemma LitterRoster(groups: seq<FoxGroup>, r: seq<FoxGroup>, g: nat, cubs: seq<Fox>)
    requires g < |groups| == |r| && r[g].foxes == groups[g].foxes + cubs
    requires forall i :: 0 <= i < |groups| && i != g ==> r[i] == groups[i]
    ensures var p, f, q := IdsOf(GetFoxes(groups[..g])), IdsOf(groups[g].foxes), IdsOf(GetFoxes(groups[g + 1..]));
            && IdsOf(GetFoxes(groups)) == (p + f) + q
            && IdsOf(GetFoxes(r)) == (p + f) + IdsOf(cubs) + q
  {
    assert r[..g] == groups[..g] && r[g + 1..] == groups[g + 1..];
    RosterIdsAround(groups, g);
    RosterIdsAround(r, g);
    IdsOfAppend(groups[g].foxes, cubs);
  }

  /** Fresh numbers from `lo` up to `hi` inserted among numbers below `lo`. */
  lemma FreshInsert(a: seq<nat>, c: seq<nat>, b: seq<nat>, lo: nat, hi: nat)
    requires lo <= hi && NoDup(a + b) && (forall k :: k in a + b ==> k < lo) && c == Range(lo, hi)
    ensures NoDup(a + c + b) && forall k :: k in a + c + b ==> k < hi
  {
    NoDupInsert(a, c, b);
    forall k | k in a + c + b ensures k < hi {
      if k !in c {
        assert k in a + b;
      }
    }
  }

  /** Identities after `list.remove` at the first fox with this identity. */
  lemma IdsOfDelete(s: seq<Fox>, i: nat)
    requires i < |s|
    ensures IdsOf(s[..i] + s[i + 1..]) == IdsOf(s)[..i] + IdsOf(s)[i + 1..]
  {
    IdsOfAppend(s[..i], s[i + 1..]);
  }

  /**
   * Removing a fox keeps identities unique and brings in no identity, so
   * identities that were fresh stay fresh.
   */
  lemma RemoveFoxIds(groups: seq<FoxGroup>, fox: Fox)
    requires UniqueIds(groups)
    ensures UniqueIds(RemoveFox(groups, fox))
    ensures forall k :: k in IdsOf(GetFoxes(RemoveFox(groups, fox))) ==> k in IdsOf(GetFoxes(groups))
  {
    if FirstGroupWith(groups, fox.id).Some? {
      var g := FirstGroupWith(groups, fox.id).value;
      var p, f, q := IdsOf(GetFoxes(groups[..g])), IdsOf(groups[g].foxes), IdsOf(GetFoxes(groups[g + 1..]));
      RosterIdsAround(groups, g);
      MiddleNoDup(p, f, q);
      KeptIds(groups[g].foxes, fox.id);
      var kept := IdsOf(RemoveById(groups[g].foxes, fox.id));
      if groups[g].size - 1 == 0 {
        DissolvedIds(groups, g);
        MiddleIds(p, f, [], q);
      } else {
        var shrunk := groups[g].(size := groups[g].size - 1, foxes := RemoveById(groups[g].foxes, fox.id));
        assert RemoveFox(groups, fox) == groups[g := shrunk];
        ShrunkIds(groups, g, shrunk);
        MiddleIds(p, f, kept, q);
      }
    }
  }

  /** Dropping group `g` leaves the identities before and after it. */
  lemma DissolvedIds(groups: seq<FoxGroup>, g: nat)
    requires g < |groups|
    ensures var p, f, q := IdsOf(GetFoxes(groups[..g])), IdsOf(groups[g].foxes), IdsOf(GetFoxes(groups[g + 1..]));
            && IdsOf(GetFoxes(groups)) == p + f + q
            && IdsOf(GetFoxes(groups[..g] + groups[g + 1..])) == p + [] + q
  {
    RosterIdsAround(groups, g);
    RosterIdsAppend(groups[..g], groups[g + 1..]);
    assert IdsOf(GetFoxes(groups[..g])) + [] == IdsOf(GetFoxes(groups[..g]));
  }

  /** Replacing group `g` replaces its identities in the middle of the roster's. */
  lemma ShrunkIds(groups: seq<FoxGroup>, g: nat, shrunk: FoxGroup)
    requires g < |groups|
    ensures var p, f, q := IdsOf(GetFoxes(groups[..g])), IdsOf(groups[g].foxes), IdsOf(GetFoxes(groups[g + 1..]));
            && IdsOf(GetFoxes(groups)) == p + f + q
            && IdsOf(GetFoxes(groups[g := shrunk])) == p + IdsOf(shrunk.foxes) + q
  {
    var r := groups[g := shrunk];
    RosterIdsAround(groups, g);
    assert r[..g] == groups[..g] && r[g + 1..] == groups[g + 1..] && r[g] == shrunk;
    RosterIdsAround(r, g);
  }

  lemma MiddleNoDup<T>(p: seq<T>, f: seq<T>, q: seq<T>)
    requires NoDup(p + f + q)
    ensures NoDup(f)
  {
    NoDupConcat(p + f, q);
    NoDupConcat(p, f);
  }

  /** Swapping the middle of a duplicate-free sequence for a duplicate-free part of it. */
  lemma MiddleIds(p: seq<nat>, f: seq<nat>, kept: seq<nat>, q: seq<nat>)
    requires NoDup(p + f + q) && NoDup(kept) && forall k :: k in kept ==> k in f
    ensures NoDup(p + kept + q) && forall k :: k in p + kept + q ==> k in p + f + q
  {
    NoDupMiddle(p, f, kept, q);
  }

  /** The identities left in a member list after a removal are distinct ones it had. */
  lemma KeptIds(foxes: seq<Fox>, id: nat)
    requires NoDup(IdsOf(foxes))
    ensures NoDup(IdsOf(RemoveById(foxes, id)))
    ensures forall k :: k in IdsOf(RemoveById(foxes, id)) ==> k in IdsOf(foxes)
  {
    if id in IdsOf(foxes) {
      var i := FirstIdIndex(foxes, id);
      IdsOfDelete(foxes, i);
      DeleteAtNoDup(IdsOf(foxes), i);
    }
  }
}

