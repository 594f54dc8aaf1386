/**
 * The hunter of `agents/hunter.py`: the cells it may stand on (not water, a
 * fox den within three cells in each axis), its yearly schedule of 60
 * hunting days, and one hunting excursion that shoots foxes around it and
 * removes them from the fox population.
 */
module Hunting {
  import opened Common
  import opened Enums
  import opened Seqs
  import opened Grids
  import opened FoxPopulation

  /** Cells searched in every direction around a position. */
  const HunterRange: int := 3

  /** Hunting days drawn per year. */
  const HuntingAmount: nat := 60

  /** Last day of the year a shooting season can extend to. */
  const LastDay: int := 365

  /** `d` lies in the square of side `2 * HunterRange + 1` centred on `c`. */
  predicate InRange(c: Coords, d: Coords) {
    -HunterRange <= d.0 - c.0 <= HunterRange && -HunterRange <= d.1 - c.1 <= HunterRange
  }

  /** Some cell of the objects grid near `c` holds a fox den. */
  ghost predicate DenNear(objects: seq<seq<ObjectType>>, c: Coords)
    requires Rect(objects)
  {
    exists d :: Within(objects, d) && InRange(c, d) && At(objects, d) == FoxDen
  }

  /** `look_for_den`: scans the square around `(x, y)`, skipping cells off the grid. */
  method LookForDen(objects: seq<seq<ObjectType>>, x: int, y: int) returns (found: bool)
    requires Rect(objects)
    ensures found <==> DenNear(objects, (x, y))
  {
    var i := -HunterRange;
    while i <= HunterRange
      invariant -HunterRange <= i <= HunterRange + 1
      invariant forall d :: Within(objects, d) && InRange((x, y), d) && d.0 - x < i ==> At(objects, d) != FoxDen
    {
      var j := -HunterRange;
      while j <= HunterRange
        invariant -HunterRange <= j <= HunterRange + 1
        invariant forall d :: Within(objects, d) && InRange((x, y), d) && (d.0 - x < i || (d.0 - x == i && d.1 - y < j)) ==>
                    At(objects, d) != FoxDen
      {
        if 0 <= x + i < |objects| && 0 <= y + j < |objects[0]| && objects[x + i][y + j] == FoxDen {
          assert At(objects, (x + i, y + j)) == FoxDen;
          return true;
        }
        j := j + 1;
      }
      i := i + 1;
    }
    return false;
  }

  /** A cell the hunter may stand on. */
  ghost predicate GoodPosition(grid: seq<seq<FieldType>>, objects: seq<seq<ObjectType>>, c: Coords)
    requires Rect(grid) && Rect(objects)
  {
    Within(grid, c) && At(grid, c) != Water && DenNear(objects, c)
  }

  /** Row-major order on cells. */
  predicate Before(a: Coords, b: Coords) {
    a.0 < b.0 || (a.0 == b.0 && a.1 < b.1)
  }

  /** Strictly increasing in row-major order, hence also free of repeats. */
  predicate RowMajor(s: seq<Coords>) {
    forall i, j :: 0 <= i < j < |s| ==> Before(s[i], s[j])
  }

  /**
   * `find_available_positions`: every non-water cell with a den in range,
   * each once, in the order the two loops visit them.
   */
  method FindAvailablePositions(grid: seq<seq<FieldType>>, objects: seq<seq<ObjectType>>) returns (r: seq<Coords>)
    requires Rect(grid) && Rect(objects)
    ensures forall c :: c in r <==> GoodPosition(grid, objects, c)
    ensures RowMajor(r)
  {
    r := [];
    var x := 0;
    while x < |grid|
      invariant 0 <= x <= |grid|
      invariant forall c :: c in r <==> GoodPosition(grid, objects, c) && c.0 < x
      invariant RowMajor(r)
      invariant forall k :: 0 <= k < |r| ==> r[k].0 < x
    {
      var y := 0;
      while y < |grid[0]|
        invariant 0 <= y <= |grid[0]|
        invariant forall c :: c in r <==> GoodPosition(grid, objects, c) && (c.0 < x || (c.0 == x && c.1 < y))
        invariant RowMajor(r)
        invariant forall k :: 0 <= k < |r| ==> Before(r[k], (x, y))
      {
        if grid[x][y] != Water {
          var found := LookForDen(objects, x, y);
          if found {
            r := r + [(x, y)];
          }
        }
        y := y + 1;
      }
      x := x + 1;
    }
  }

  /** The state of a hunter; `rows` and `cols` are the shape of the terrain grid. */
  datatype Hunter = Hunter(
    position: Coords,
    availablePositions: seq<Coords>,
    shootingDays: seq<int>,
    shootingStart: int,
    shootingEnd: int,
    rows: int,
    cols: int)

  /**
   * `Hunter(...)`: computes the available positions and stands on one of them,
   * with no hunting days yet; `random.choice` raises on an empty list. The
   * choice is given as any natural number, taken modulo the number of positions.
   */
  method NewHunter(grid: seq<seq<FieldType>>, objects: seq<seq<ObjectType>>, shootingStart: int, shootingEnd: int, pick: nat)
    returns (r: Result<Hunter>)
    requires Rect(grid) && Rect(objects)
    ensures r.Err? ==> r.error == EmptyChoice && forall c :: !GoodPosition(grid, objects, c)
    ensures r.Ok? ==> && r.value.availablePositions != []
                      && r.value.position in r.value.availablePositions
                      && r.value.shootingDays == []
                      && r.value.shootingStart == shootingStart && r.value.shootingEnd == shootingEnd
                      && (forall c :: c in r.value.availablePositions <==> GoodPosition(grid, objects, c))
                      && r.value.rows == |grid| && (|grid| > 0 ==> r.value.cols == |grid[0]|)
  {
    var available := FindAvailablePositions(grid, objects);
    if |available| == 0 {
      return Err(EmptyChoice);
    }
    var cols := if |grid| > 0 then |grid[0]| else 0;
    return Ok(Hunter(available[pick % |available|], available, [], shootingStart, shootingEnd, |grid|, cols));
  }

  /** The legal days: `1..end`, then `start..365`. */
  function LegalDays(start: int, end: int): (r: seq<int>)
    ensures |r| == MaxInt(0, end) + MaxInt(0, LastDay + 1 - start)
    ensures forall d :: d in r <==> (1 <= d <= end || start <= d <= LastDay)
    ensures end < start ==> NoDup(r)
    ensures forall i :: 0 <= i < MaxInt(0, end) ==> r[i] == i + 1
    ensures forall i :: MaxInt(0, end) <= i < |r| ==> r[i] == start + (i - MaxInt(0, end))
  {
    var early := seq(MaxInt(0, end), i requires 0 <= i => i + 1);
    var late := seq(MaxInt(0, LastDay + 1 - start), i requires 0 <= i => start + i);
    forall d | 1 <= d <= end ensures d in early {
      assert early[d - 1] == d;
    }
    forall d | start <= d <= LastDay ensures d in late {
      assert late[d - start] == d;
    }
    early + late
  }

  /** `k` distinct indices below `n`: what `random.sample` of `k` out of `n` items picks. */
  predicate ValidSample(picks: seq<nat>, n: nat, k: nat) {
    |picks| == k && NoDup(picks) && forall i :: 0 <= i < |picks| ==> picks[i] < n
  }

  /** The items at the picked indices. */
  function Picked<T>(items: seq<T>, picks: seq<nat>): (r: seq<T>)
    requires forall i :: 0 <= i < |picks| ==> picks[i] < |items|
    ensures |r| == |picks| && forall i :: 0 <= i < |picks| ==> r[i] == items[picks[i]]
  {
    seq(|picks|, i requires 0 <= i < |picks| => items[picks[i]])
  }

  /**
   * `generate_shooting_array`: 60 distinct picks out of the legal days, sorted.
   * `random.sample` raises when there are fewer than 60 legal days.
   */
  function ShootingSchedule(start: int, end: int, picks: seq<nat>): (r: Result<seq<int>>)
    requires |LegalDays(start, end)| >= HuntingAmount ==> ValidSample(picks, |LegalDays(start, end)|, HuntingAmount)
    ensures r.Err? <==> |LegalDays(start, end)| < HuntingAmount
    ensures r.Err? ==> r.error == SampleLargerThanPopulation
    ensures r.Ok? ==> |r.value| == HuntingAmount && Sorted(r.value)
    ensures r.Ok? ==> multiset(r.value) == multiset(Picked(LegalDays(start, end), picks))
    ensures r.Ok? ==> forall i :: 0 <= i < |r.value| ==>
              (1 <= r.value[i] <= end || start <= r.value[i] <= LastDay)
  {
    var legal := LegalDays(start, end);
    if |legal| < HuntingAmount then Err(SampleLargerThanPopulation)
    else
      var chosen := Picked(legal, picks);
      var sorted := Sort(chosen);
      assert forall i :: 0 <= i < |sorted| ==> sorted[i] in legal by {
        forall i | 0 <= i < |sorted| ensures sorted[i] in legal {
          assert sorted[i] in multiset(chosen);
        }
      }
      Ok(sorted)
  }

  /** With a season that does not wrap onto itself, the schedule has no repeated day. */
  lemma ScheduleDistinct(start: int, end: int, picks: seq<nat>)
    requires end < start
    requires |LegalDays(start, end)| >= HuntingAmount ==> ValidSample(picks, |LegalDays(start, end)|, HuntingAmount)
    ensures ShootingSchedule(start, end, picks).Ok? ==> NoDup(ShootingSchedule(start, end, picks).value)
  {
    var r := ShootingSchedule(start, end, picks);
    if r.Ok? {
      var legal := LegalDays(start, end);
      var chosen := Picked(legal, picks);
      assert NoDup(chosen) by {
        forall i, j | 0 <= i < j < |chosen| ensures chosen[i] != chosen[j] {
          assert picks[i] != picks[j];
        }
      }
      NoDupMultiset(chosen, r.value);
    }
  }

  /** Distinct elements stay distinct in any permutation. */
  lemma NoDupMultiset(a: seq<int>, b: seq<int>)
    requires NoDup(a) && multiset(a) == multiset(b)
    ensures NoDup(b)
  {
    forall i, j | 0 <= i < j < |b| ensures b[i] != b[j] {
      if b[i] == b[j] {
        var x := b[i];
        assert b == b[..i] + [x] + b[i + 1..j] + [x] + b[j + 1..];
        assert multiset(b)[x] >= 2;
        MultiplicityOne(a, x);
        assert false;
      }
    }
  }

  /** Every element of a duplicate-free sequence occurs once. */
  lemma {:induction false} MultiplicityOne(a: seq<int>, x: int)
    requires NoDup(a)
    ensures multiset(a)[x] <= 1
  {
    if |a| > 0 {
      assert a == [a[0]] + a[1..];
      assert NoDup(a[1..]) by {
        forall i, j | 0 <= i < j < |a| - 1 ensures a[1..][i] != a[1..][j] {
          assert a[1..][i] == a[i + 1] && a[1..][j] == a[j + 1];
        }
      }
      MultiplicityOne(a[1..], x);
      if a[0] == x {
        assert x !in a[1..];
      }
    }
  }

  /** Python's `round` on a float: to the nearest integer, ties to the even one. */
  function RoundHalfEven(x: real): (n: int)
    ensures n as real - 0.5 <= x <= n as real + 0.5
    ensures (x == n as real - 0.5 || x == n as real + 0.5) ==> n % 2 == 0
  {
    var f := x.Floor;
    var frac := x - f as real;
    if frac < 0.5 then f
    else if frac > 0.5 then f + 1
    else if f % 2 == 0 then f
    else f + 1
  }

  /** The cell box an excursion searches, cut off at the grid's edges. */
  predicate InBox(h: Hunter, f: Fox) {
    && MaxInt(h.position.0 - HunterRange, 0) <= f.pos.0 <= MinInt(h.position.0 + HunterRange, h.rows - 1)
    && MaxInt(h.position.1 - HunterRange, 0) <= f.pos.1 <= MinInt(h.position.1 + HunterRange, h.cols - 1)
  }

  function IsMother(h: Hunter): Fox -> bool {
    (f: Fox) => InBox(h, f) && f.isPregnant
  }

  function IsNearby(h: Hunter): Fox -> bool {
    (f: Fox) => InBox(h, f) && !f.isPregnant
  }

  /** Pregnant foxes in the box, in roster order. */
  function Mothers(h: Hunter, foxes: seq<Fox>): seq<Fox> {
    Filter(foxes, IsMother(h))
  }

  /** Other foxes in the box, in roster order. */
  function Nearby(h: Hunter, foxes: seq<Fox>): seq<Fox> {
    Filter(foxes, IsNearby(h))
  }

  /** Every fox in the box is either a mother or nearby, never both. */
  lemma BoxPartition(h: Hunter, foxes: seq<Fox>, f: Fox)
    requires f in foxes
    ensures InBox(h, f) && f.isPregnant <==> f in Mothers(h, foxes)
    ensures InBox(h, f) && !f.isPregnant <==> f in Nearby(h, foxes)
  {
    var i :| 0 <= i < |foxes| && foxes[i] == f;
    if f in Mothers(h, foxes) {
      var k :| 0 <= k < |Mothers(h, foxes)| && Mothers(h, foxes)[k] == f;
    }
    if f in Nearby(h, foxes) {
      var k :| 0 <= k < |Nearby(h, foxes)| && Nearby(h, foxes)[k] == f;
    }
  }

  /**
   * The random outcomes one excursion consumes: the schedule picks (used on day 1),
   * the shooting-rate value, the roll and culling-rate value of the mother cull,
   * the mother picked, the nearby foxes picked and the cell moved to.
   */
  datatype HuntDraws = HuntDraws(
    schedulePicks: seq<nat>,
    shootingValue: real,
    cullRoll: real,
    cullRate: real,
    motherPick: nat,
    victimPicks: seq<nat>,
    relocation: nat)

  /**
   * Whether a mother is shot: the culling rate is a percentage, so the roll in
   * `[0, 1)` is compared with a hundredth of it.
   */
  predicate MotherCull(roll: real, rate: real) {
    roll < rate / 100.0
  }

  /** `random.random() < culling_rate` as the code compares them. */
  predicate MotherCullAsWritten(roll: real, rate: real) {
    roll < rate
  }

  /**
   * The draws that make the model compare the roll with the culling rate as it
   * stands, as the code does: the rate scaled by a hundred, nothing else changed.
   */
  function AsWrittenDraws(d: HuntDraws): (r: HuntDraws)
    ensures forall roll :: MotherCull(roll, r.cullRate) <==> MotherCullAsWritten(roll, d.cullRate)
    ensures r.(cullRate := d.cullRate) == d
  {
    d.(cullRate := 100.0 * d.cullRate)
  }

  /** The mother shot, if any. */
  function MotherVictims(h: Hunter, foxes: seq<Fox>, d: HuntDraws): (r: seq<Fox>)
    requires |Mothers(h, foxes)| > 0 ==> d.motherPick < |Mothers(h, foxes)|
    ensures |r| <= 1
    ensures |r| == 1 <==> MotherCull(d.cullRoll, d.cullRate) && |Mothers(h, foxes)| > 0
    ensures forall i :: 0 <= i < |r| ==> r[i] in Mothers(h, foxes)
  {
    var mothers := Mothers(h, foxes);
    if MotherCull(d.cullRoll, d.cullRate) && |mothers| > 0 then [mothers[d.motherPick]] else []
  }

  /** Foxes killed: the rounded shooting rate. */
  function Kills(d: HuntDraws): int {
    RoundHalfEven(d.shootingValue)
  }

  /** How many nearby foxes are shot once the mother is accounted for. */
  function Quota(h: Hunter, foxes: seq<Fox>, d: HuntDraws): (q: nat)
    requires |Mothers(h, foxes)| > 0 ==> d.motherPick < |Mothers(h, foxes)|
    ensures q <= |Nearby(h, foxes)|
    ensures q <= MaxInt(0, Kills(d) - |MotherVictims(h, foxes, d)|)
    ensures q == MinInt(MaxInt(0, Kills(d) - |MotherVictims(h, foxes, d)|), |Nearby(h, foxes)|)
  {
    var remaining := Kills(d) - |MotherVictims(h, foxes, d)|;
    var nearby := Nearby(h, foxes);
    if remaining > 0 && |nearby| > 0 then MinInt(remaining, |nearby|) else 0
  }

  /** The picks an excursion needs are valid draws. */
  predicate ValidPicks(h: Hunter, foxes: seq<Fox>, d: HuntDraws) {
    && (|Mothers(h, foxes)| > 0 ==> d.motherPick < |Mothers(h, foxes)|)
    && ValidSample(d.victimPicks, |Nearby(h, foxes)|, Quota(h, foxes, d))
  }

  /**
   * The foxes shot in one excursion: the mother first, then the sampled nearby
   * foxes. All are in the box; at most the kill count are shot when it is
   * positive; a duplicate-free roster gives duplicate-free victims.
   */
  function Victims(h: Hunter, foxes: seq<Fox>, d: HuntDraws): (r: seq<Fox>)
    requires ValidPicks(h, foxes, d)
    ensures |r| == |MotherVictims(h, foxes, d)| + Quota(h, foxes, d)
    ensures r[..|MotherVictims(h, foxes, d)|] == MotherVictims(h, foxes, d)
    ensures forall i :: 0 <= i < |r| ==> r[i] in foxes && InBox(h, r[i])
    ensures forall i :: |MotherVictims(h, foxes, d)| <= i < |r| ==> r[i] in Nearby(h, foxes)
    ensures 1 <= Kills(d) ==> |r| <= Kills(d)
    ensures NoDup(foxes) ==> NoDup(r)
  {
    var mothers := MotherVictims(h, foxes, d);
    var others := Picked(Nearby(h, foxes), d.victimPicks);
    var r := mothers + others;
    assert forall i :: 0 <= i < |r| ==> r[i] in foxes && InBox(h, r[i]) by {
      forall i | 0 <= i < |r| ensures r[i] in foxes && InBox(h, r[i]) {
        if i < |mothers| {
          var k :| 0 <= k < |Mothers(h, foxes)| && Mothers(h, foxes)[k] == r[i];
        } else {
          assert r[i] == Nearby(h, foxes)[d.victimPicks[i - |mothers|]];
        }
      }
    }
    VictimsDistinct(h, foxes, d, mothers, others);
    r
  }

  lemma VictimsDistinct(h: Hunter, foxes: seq<Fox>, d: HuntDraws, mothers: seq<Fox>, others: seq<Fox>)
    requires ValidPicks(h, foxes, d)
    requires mothers == MotherVictims(h, foxes, d) && others == Picked(Nearby(h, foxes), d.victimPicks)
    ensures NoDup(foxes) ==> NoDup(mothers + others)
  {
    if NoDup(foxes) {
      var nearby := Nearby(h, foxes);
      FilterNoDup(foxes, IsNearby(h));
      var r := mothers + others;
      forall i, j | 0 <= i < j < |r| ensures r[i] != r[j] {
        if i < |mothers| {
          assert r[i].isPregnant;
          assert r[j] == nearby[d.victimPicks[j - |mothers|]];
          assert !r[j].isPregnant;
        } else {
          assert d.victimPicks[i - |mothers|] != d.victimPicks[j - |mothers|];
        }
      }
    }
  }

  /** The victims leave the population one after the other. */
  function RemoveAll(groups: seq<FoxGroup>, victims: seq<Fox>): (r: seq<FoxGroup>)
    ensures AllConsistent(groups) ==> AllConsistent(r)
    ensures |r| <= |groups|
    decreases |victims|
  {
    if |victims| == 0 then groups else RemoveAll(RemoveFox(groups, victims[0]), victims[1..])
  }

  /** Shooting never gives two foxes one identity, and leaves no identity that was not there. */
  lemma {:induction false} RemoveAllIds(groups: seq<FoxGroup>, victims: seq<Fox>)
    requires UniqueIds(groups)
    ensures UniqueIds(RemoveAll(groups, victims))
    ensures forall k :: k in IdsOf(GetFoxes(RemoveAll(groups, victims))) ==> k in IdsOf(GetFoxes(groups))
    decreases |victims|
  {
    if |victims| > 0 {
      RemoveFoxIds(groups, victims[0]);
      RemoveAllIds(RemoveFox(groups, victims[0]), victims[1..]);
    }
  }

  /** `list.remove` applied for every victim in turn. */
  function RemoveAllById(foxes: seq<Fox>, victims: seq<Fox>): (r: seq<Fox>)
    ensures |foxes| - |victims| <= |r| <= |foxes|
  {
    if |victims| == 0 then foxes else RemoveAllById(RemoveById(foxes, victims[0].id), victims[1..])
  }

  /** With consistent counts, the roster after the removals is the roster with each victim removed once. */
  lemma {:induction false} RemoveAllRoster(groups: seq<FoxGroup>, victims: seq<Fox>)
    requires AllConsistent(groups)
    ensures GetFoxes(RemoveAll(groups, victims)) == RemoveAllById(GetFoxes(groups), victims)
    decreases |victims|
  {
    if |victims| > 0 {
      RemoveFoxRoster(groups, victims[0]);
      RemoveAllRoster(RemoveFox(groups, victims[0]), victims[1..]);
    }
  }

  /** Every hunter constructed has somewhere to stand. */
  predicate Placed(h: Hunter) {
    h.availablePositions != []
  }

  /** The schedule in force on `day`: regenerated on the first day of the year. */
  function ScheduleFor(h: Hunter, day: int, picks: seq<nat>): Result<seq<int>>
    requires day == 1 && |LegalDays(h.shootingStart, h.shootingEnd)| >= HuntingAmount ==>
               ValidSample(picks, |LegalDays(h.shootingStart, h.shootingEnd)|, HuntingAmount)
  {
    if day == 1 then ShootingSchedule(h.shootingStart, h.shootingEnd, picks) else Ok(h.shootingDays)
  }

  /** What an excursion leaves behind. */
  datatype HuntOutcome = HuntOutcome(hunter: Hunter, groups: seq<FoxGroup>, victims: seq<Fox>)

  /** The draws an excursion can be given on `day`. */
  predicate ValidDraws(h: Hunter, day: int, foxes: seq<Fox>, d: HuntDraws) {
    && (day == 1 && |LegalDays(h.shootingStart, h.shootingEnd)| >= HuntingAmount ==>
          ValidSample(d.schedulePicks, |LegalDays(h.shootingStart, h.shootingEnd)|, HuntingAmount))
    && ValidPicks(h, foxes, d)
    && d.relocation < |h.availablePositions|
  }

  /**
   * `hunt`: on the first day of the year a new schedule is drawn. A day not in
   * the schedule changes nothing else; a scheduled day is struck off. When the
   * rounded shooting rate is 0 the excursion ends there; otherwise the victims
   * are removed from the population and the hunter moves to an available cell.
   */
  function Hunt(h: Hunter, day: int, foxes: seq<Fox>, groups: seq<FoxGroup>, d: HuntDraws): (r: Result<HuntOutcome>)
    requires Placed(h) && ValidDraws(h, day, foxes, d)
    ensures r.Err? <==> ScheduleFor(h, day, d.schedulePicks).Err?
    ensures r.Err? ==> r.error == SampleLargerThanPopulation
    ensures r.Ok? ==> Placed(r.value.hunter) && r.value.hunter.availablePositions == h.availablePositions
    ensures r.Ok? && day !in ScheduleFor(h, day, d.schedulePicks).value ==>
              r.value == HuntOutcome(h.(shootingDays := ScheduleFor(h, day, d.schedulePicks).value), groups, [])
    ensures r.Ok? && day in ScheduleFor(h, day, d.schedulePicks).value ==>
              r.value.hunter.shootingDays == RemoveFirst(ScheduleFor(h, day, d.schedulePicks).value, day)
    ensures r.Ok? && day in ScheduleFor(h, day, d.schedulePicks).value && Kills(d) == 0 ==>
              && r.value.groups == groups && r.value.victims == []
              && r.value.hunter == h.(shootingDays := RemoveFirst(ScheduleFor(h, day, d.schedulePicks).value, day))
    ensures r.Ok? && day in ScheduleFor(h, day, d.schedulePicks).value && Kills(d) != 0 ==>
              && r.value.victims == Victims(h, foxes, d)
              && r.value.groups == RemoveAll(groups, r.value.victims)
              && r.value.hunter == h.(shootingDays := RemoveFirst(ScheduleFor(h, day, d.schedulePicks).value, day),
                                      position := h.availablePositions[d.relocation])
    ensures r.Ok? ==> (AllConsistent(groups) ==> AllConsistent(r.value.groups))
  {
    match ScheduleFor(h, day, d.schedulePicks)
    case Err(e) => Err(e)
    case Ok(schedule) =>
      if day !in schedule then Ok(HuntOutcome(h.(shootingDays := schedule), groups, []))
      else
        var remaining := RemoveFirst(schedule, day);
        if Kills(d) == 0 then Ok(HuntOutcome(h.(shootingDays := remaining), groups, []))
        else
          var victims := Victims(h, foxes, d);
          Ok(HuntOutcome(
            h.(shootingDays := remaining, position := h.availablePositions[d.relocation]),
            RemoveAll(groups, victims),
            victims))
  }

  /**
   * The excursion as the code writes it: with a culling rate of at least 1 and a
   * mother in the box, every excursion that shoots at all shoots a mother first.
   */
  lemma HuntAsWrittenAlwaysShootsMother(h: Hunter, day: int, foxes: seq<Fox>, groups: seq<FoxGroup>, d: HuntDraws)
    requires Placed(h) && ValidDraws(h, day, foxes, AsWrittenDraws(d))
    requires 0.0 <= d.cullRoll < 1.0 && 1.0 <= d.cullRate && |Mothers(h, foxes)| > 0
    requires ScheduleFor(h, day, d.schedulePicks).Ok? && day in ScheduleFor(h, day, d.schedulePicks).value
    requires Kills(d) != 0
    ensures var v := Hunt(h, day, foxes, groups, AsWrittenDraws(d)).value.victims;
            |v| > 0 && v[0].isPregnant
  {
    var w := AsWrittenDraws(d);
    assert MotherCullAsWritten(d.cullRoll, d.cullRate);
    var m := MotherVictims(h, foxes, w);
    assert |m| == 1 && m[0] in Mothers(h, foxes);
    assert Victims(h, foxes, w)[..1] == m;
  }

  /**
   * The excursion with the culling rate read as a percentage: a mother is shot
   * exactly when the roll falls below a hundredth of the rate and a mother is in
   * the box; otherwise no pregnant fox is shot.
   */
  lemma HuntShootsMotherIffCull(h: Hunter, day: int, foxes: seq<Fox>, groups: seq<FoxGroup>, d: HuntDraws)
    requires Placed(h) && ValidDraws(h, day, foxes, d)
    requires ScheduleFor(h, day, d.schedulePicks).Ok? && day in ScheduleFor(h, day, d.schedulePicks).value
    requires Kills(d) != 0
    ensures var v := Hunt(h, day, foxes, groups, d).value.victims;
            (exists i :: 0 <= i < |v| && v[i].isPregnant) <==> d.cullRoll < d.cullRate / 100.0 && |Mothers(h, foxes)| > 0
    ensures var v := Hunt(h, day, foxes, groups, d).value.victims;
            d.cullRoll < d.cullRate / 100.0 && |Mothers(h, foxes)| > 0 ==> v[0].isPregnant
  {
    var v := Victims(h, foxes, d);
    var m := MotherVictims(h, foxes, d);
    if d.cullRoll < d.cullRate / 100.0 && |Mothers(h, foxes)| > 0 {
      assert |m| == 1 && m[0] in Mothers(h, foxes);
      assert v[..1] == m;
      assert v[0].isPregnant;
    } else {
      assert |m| == 0;
      forall i | 0 <= i < |v| ensures !v[i].isPregnant {
        assert v[i] in Nearby(h, foxes);
      }
    }
  }

  /** Excursions never give two foxes one identity, and bring no identity back. */
  lemma HuntKeepsIdsUnique(h: Hunter, day: int, foxes: seq<Fox>, groups: seq<FoxGroup>, d: HuntDraws)
    requires Placed(h) && ValidDraws(h, day, foxes, d) && UniqueIds(groups)
    ensures var r := Hunt(h, day, foxes, groups, d);
            r.Ok? ==> UniqueIds(r.value.groups) && forall k :: k in IdsOf(GetFoxes(r.value.groups)) ==> k in IdsOf(GetFoxes(groups))
  {
    RemoveAllIds(groups, Victims(h, foxes, d));
  }

  /** Excursions keep the schedule in increasing order. */
  lemma HuntKeepsScheduleSorted(h: Hunter, day: int, foxes: seq<Fox>, groups: seq<FoxGroup>, d: HuntDraws)
    requires Placed(h) && ValidDraws(h, day, foxes, d) && Sorted(h.shootingDays)
    ensures Hunt(h, day, foxes, groups, d).Ok? ==> Sorted(Hunt(h, day, foxes, groups, d).value.hunter.shootingDays)
  {
    var s := ScheduleFor(h, day, d.schedulePicks);
    if s.Ok? {
      RemoveFirstSorted(s.value, day);
    }
  }
}
