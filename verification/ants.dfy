/**
 * One ant of `simulation/ant.py`: outbound it follows pheromone (or explores)
 * towards its destination, remembering the cells it visited; on arrival it
 * turns round and retraces the remembered cells newest first.
 *
 * Random choices are parameters (`StepChoices`); the per-step deposit
 * `5 / sqrt(age)` is an opaque real passed in with them.
 */
module Ants {
  import opened Common
  import opened Grids
  import opened Seqs
  import opened Nodes
  import opened Visited

  /** Probability of exploring instead of following the strongest scent. */
  const ExplorationChance: real := 0.2

  /** Below this strongest neighbour scent the ant explores. */
  const ScentThreshold: real := 40.0

  /** Random directions `explore` tries before it gives up and returns any direction. */
  const ExploreLimit: nat := 20

  datatype Ant = Ant(
    isReturning: bool,
    source: Coords,
    pos: Coords,
    destination: Coords,
    age: nat,
    readyToDie: bool,
    visited: seq<Coords>,       // oldest first
    maxMemory: MemorySize,
    previousField: Option<Coords>,
    destinationBonus: real,
    snapshot: seq<Coords>,      // `visited_fields_copy`, taken on arrival
    bonus: real)

  /** The random outcomes one step may consume. */
  datatype StepChoices = StepChoices(
    roll: real,                    // `random.random()` against the exploration chance
    firstDraws: seq<Direction>,    // the `random.choice` calls of a first `explore`
    retryDraws: seq<Direction>,    // those of the `explore` that avoids stepping back
    deposit: real)                 // `pheromone_deposited()` for this step

  /** Draws of the ranges the random functions produce: 20 tries and one fallback per `explore`. */
  predicate ValidChoices(c: StepChoices) {
    0.0 <= c.roll < 1.0 && |c.firstDraws| == ExploreLimit + 1 && |c.retryDraws| == ExploreLimit + 1
  }

  /** The memory is a duplicate-free sequence within the memory size, and so is the snapshot. */
  predicate WellFormed(a: Ant) {
    NoDup(a.visited) && |a.visited| <= a.maxMemory &&
    NoDup(a.snapshot) && |a.snapshot| <= a.maxMemory
  }

  /** The ant and every cell it remembers lie on the node grid. */
  ghost predicate Placed(a: Ant, nodes: NodeGrid) {
    Rect(nodes) && Within(nodes, a.pos) &&
    (forall q :: q in a.visited ==> Within(nodes, q)) &&
    (forall q :: q in a.snapshot ==> Within(nodes, q))
  }

  /** `Ant(position, destination, destination_bonus, max_memory)`. */
  function NewAnt(position: Coords, destination: Coords, destinationBonus: real, maxMemory: MemorySize): (a: Ant)
    ensures !a.isReturning && a.age == 0 && !a.readyToDie && a.bonus == 0.0
    ensures a.pos == position && a.source == position && a.destination == destination
    ensures a.visited == [position] && a.previousField == None
    ensures a.destinationBonus == destinationBonus && a.maxMemory == maxMemory
    ensures WellFormed(a)
  {
    Ant(false, position, position, destination, 0, false, [position], maxMemory, None,
        destinationBonus, [], 0.0)
  }

  /** A direction `explore` accepts: it leads to a connected neighbour that is not the previous cell. */
  predicate Acceptable(n: Neighborhood, pos: Coords, prev: Option<Coords>, d: Direction) {
    Some(Shift(pos, d)) != prev && n.Has(d)
  }

  /**
   * The bounded retry loop of `explore` from try `k` on: the first acceptable
   * one of the first `ExploreLimit` draws, or else the fallback draw.
   */
  function ExploreFrom(n: Neighborhood, pos: Coords, prev: Option<Coords>, draws: seq<Direction>, k: nat): (d: Direction)
    requires |draws| == ExploreLimit + 1 && k <= ExploreLimit
    ensures exists i :: k <= i <= ExploreLimit && d == draws[i] &&
              (i < ExploreLimit ==> Acceptable(n, pos, prev, draws[i])) &&
              (forall j :: k <= j < i ==> !Acceptable(n, pos, prev, draws[j]))
    decreases ExploreLimit - k
  {
    if k == ExploreLimit then
      draws[ExploreLimit]
    else if Acceptable(n, pos, prev, draws[k]) then
      draws[k]
    else
      var d := ExploreFrom(n, pos, prev, draws, k + 1);
      ghost var i :| k + 1 <= i <= ExploreLimit && d == draws[i] &&
              (i < ExploreLimit ==> Acceptable(n, pos, prev, draws[i])) &&
              (forall j :: k + 1 <= j < i ==> !Acceptable(n, pos, prev, draws[j]));
      assert forall j :: k <= j < i ==> !Acceptable(n, pos, prev, draws[j]);
      d
  }

  /** `explore`: a random direction that is connected and does not lead back, if one turns up in 20 tries. */
  function Explore(a: Ant, nodes: NodeGrid, draws: seq<Direction>): (d: Direction)
    requires Rect(nodes) && Within(nodes, a.pos) && |draws| == ExploreLimit + 1
    ensures d in draws
    ensures (exists i :: 0 <= i < ExploreLimit && Acceptable(At(nodes, a.pos).hasNeighbor, a.pos, a.previousField, draws[i]))
              ==> Acceptable(At(nodes, a.pos).hasNeighbor, a.pos, a.previousField, d)
  {
    ExploreFrom(At(nodes, a.pos).hasNeighbor, a.pos, a.previousField, draws, 0)
  }

  /** Scent of the neighbour in direction `d`, or 0 when it is not connected or off the grid. */
  function NeighborScent(nodes: NodeGrid, pos: Coords, d: Direction): real
    requires Rect(nodes) && Within(nodes, pos)
  {
    if !At(nodes, pos).hasNeighbor.Has(d) then 0.0
    else if Within(nodes, Shift(pos, d)) then At(nodes, Shift(pos, d)).pheromone
    else 0.0
  }

  /** `pheromone_values`, one entry per direction in flag order. */
  function Scents(nodes: NodeGrid, pos: Coords): (v: seq<real>)
    requires Rect(nodes) && Within(nodes, pos)
    ensures |v| == 4
    ensures forall i :: 0 <= i < 4 ==> v[i] == NeighborScent(nodes, pos, DirectionAt(i))
  {
    [NeighborScent(nodes, pos, Up), NeighborScent(nodes, pos, Right),
     NeighborScent(nodes, pos, Down), NeighborScent(nodes, pos, Left)]
  }

  /** `np.argmax` over the first `n` entries: the first position of a largest value. */
  function ArgMaxPrefix(v: seq<real>, n: nat): (i: nat)
    requires 0 < n <= |v|
    ensures i < n
    ensures forall j :: 0 <= j < n ==> v[j] <= v[i]
    ensures forall j :: 0 <= j < i ==> v[j] < v[i]
  {
    if n == 1 then 0
    else
      var i := ArgMaxPrefix(v, n - 1);
      if v[i] < v[n - 1] then n - 1 else i
  }

  function ArgMax(v: seq<real>): (i: nat)
    requires 0 < |v|
    ensures i < |v|
    ensures forall j :: 0 <= j < |v| ==> v[j] <= v[i]
    ensures forall j :: 0 <= j < i ==> v[j] < v[i]
  {
    ArgMaxPrefix(v, |v|)
  }

  /** The ant explores when the roll says so or when no neighbour smells strongly enough. */
  predicate Explores(a: Ant, nodes: NodeGrid, c: StepChoices)
    requires Rect(nodes) && Within(nodes, a.pos)
  {
    var v := Scents(nodes, a.pos);
    c.roll < ExplorationChance || v[ArgMax(v)] < ScentThreshold
  }

  /** `choose_step_direction`: explore, or head for the first strongest-smelling neighbour. */
  function ChooseStepDirection(a: Ant, nodes: NodeGrid, c: StepChoices): (d: Direction)
    requires Rect(nodes) && Within(nodes, a.pos) && ValidChoices(c)
    ensures Explores(a, nodes, c) ==> d == Explore(a, nodes, c.firstDraws)
    ensures !Explores(a, nodes, c) ==>
              ScentThreshold <= NeighborScent(nodes, a.pos, d) &&
              forall e: Direction :: NeighborScent(nodes, a.pos, e) <= NeighborScent(nodes, a.pos, d)
    ensures !Explores(a, nodes, c) ==>
              forall e: Direction :: e.Index() < d.Index() ==> NeighborScent(nodes, a.pos, e) < NeighborScent(nodes, a.pos, d)
  {
    var v := Scents(nodes, a.pos);
    if Explores(a, nodes, c) then Explore(a, nodes, c.firstDraws)
    else
      var d := DirectionAt(ArgMax(v));
      assert forall e: Direction :: v[e.Index()] == NeighborScent(nodes, a.pos, e) by {
        assert DirectionAt(0) == Up && DirectionAt(1) == Right;
        assert DirectionAt(2) == Down && DirectionAt(3) == Left;
      }
      d
  }

  /** The direction of an outbound step: a chosen direction leading back to the previous cell is re-drawn once. */
  function Heading(a: Ant, nodes: NodeGrid, c: StepChoices): Direction
    requires Rect(nodes) && Within(nodes, a.pos) && ValidChoices(c)
  {
    var d := ChooseStepDirection(a, nodes, c);
    if Some(Shift(a.pos, d)) == a.previousField then Explore(a, nodes, c.retryDraws) else d
  }

  /** An outbound step moves iff the target is on the grid and the current node is connected towards it. */
  predicate Moves(a: Ant, nodes: NodeGrid, c: StepChoices)
    requires Rect(nodes) && Within(nodes, a.pos) && ValidChoices(c)
  {
    var d := Heading(a, nodes, c);
    Within(nodes, Shift(a.pos, d)) && At(nodes, a.pos).hasNeighbor.Has(d)
  }

  /** Moving to another node of the same layout keeps an ant that was on the grid on it. */
  lemma PlacedOnSameLayout(a: Ant, nodes: NodeGrid, nodes': NodeGrid)
    requires Placed(a, nodes) && SameLayout(nodes, nodes')
    ensures Placed(a, nodes')
  {
  }

  /** The ant after an accepted outbound move onto `target`, turning round if it is the destination. */
  function Advance(a: Ant, target: Coords): (b: Ant)
    ensures b.age == a.age + 1 && b.pos == target && b.previousField == Some(a.pos)
    ensures b.visited == AddToVisited(a.visited, target, a.maxMemory)
    ensures b.readyToDie == a.readyToDie && b.maxMemory == a.maxMemory
    ensures target != a.destination ==>
              b == a.(age := b.age, pos := target, previousField := b.previousField, visited := b.visited)
    ensures target == a.destination ==>
              && b.isReturning
              && b.source == a.destination && b.destination == a.source
              && b.bonus == a.destinationBonus
              && b.snapshot == b.visited
              && b == a.(age := b.age, pos := target, previousField := b.previousField, visited := b.visited,
                         source := a.destination, destination := a.source, isReturning := true,
                         bonus := a.destinationBonus, snapshot := b.visited)
    ensures WellFormed(a) ==> WellFormed(b)
    ensures forall q :: q in b.visited ==> q in a.visited || q == target
    ensures forall q :: q in b.snapshot ==> q in a.snapshot || q in a.visited || q == target
  {
    var visited' := AddToVisited(a.visited, target, a.maxMemory);
    assert forall q :: q in visited' ==> q in a.visited || q == target by {
      forall q | q in visited' ensures q in a.visited || q == target {
        VisitedElementsBound(a.visited, target, a.maxMemory, q);
      }
    }
    var moved := a.(age := a.age + 1, previousField := Some(a.pos), pos := target, visited := visited');
    if target == a.destination then
      moved.(source := a.destination, destination := a.source, isReturning := true,
             bonus := a.destinationBonus, snapshot := visited')
    else
      moved
  }

  /** The outbound branch of `step`. */
  function OutboundStep(a: Ant, nodes: NodeGrid, c: StepChoices): (r: (Ant, NodeGrid))
    requires !a.isReturning && Placed(a, nodes) && ValidChoices(c)
    ensures SameLayout(nodes, r.1) && TotalSpare(r.1) == TotalSpare(nodes)
    ensures !Moves(a, nodes, c) ==> r == (a.(age := a.age + 1), nodes)
    ensures Moves(a, nodes, c) ==>
              var target := Shift(a.pos, Heading(a, nodes, c));
              && r.0 == Advance(a, target)
              && Within(nodes, target)
              && r.1 == Transfer(nodes, a.pos, target, c.deposit)
              && At(r.1, a.pos).spareCapacity == At(nodes, a.pos).spareCapacity + 1
              && At(r.1, target).spareCapacity == At(nodes, target).spareCapacity - 1
              && At(r.1, a.pos).pheromone == Deposit(At(nodes, a.pos), c.deposit).pheromone
    ensures ScentCapped(nodes) ==> ScentCapped(r.1)
    ensures Placed(r.0, r.1)
    ensures WellFormed(a) ==> WellFormed(r.0)
  {
    var d := Heading(a, nodes, c);
    var target := Shift(a.pos, d);
    if Within(nodes, target) && At(nodes, a.pos).hasNeighbor.Has(d) then
      var b := Advance(a, target);
      var nodes' := Transfer(nodes, a.pos, target, c.deposit);
      assert Placed(b, nodes);
      PlacedOnSameLayout(b, nodes, nodes');
      (b, nodes')
    else
      (a.(age := a.age + 1), nodes)
  }

  /** Whatever the memory holds, an addition only brings in the added cell. */
  lemma VisitedElementsBound(v: seq<Coords>, p: Coords, maxMemory: MemorySize, q: Coords)
    ensures q in AddToVisited(v, p, maxMemory) ==> q in v || q == p
  {
    var r := AddToVisited(v, p, maxMemory);
    assert r == r[..|r| - 1] + [p];
    if q in r && q != p {
      assert q in r[..|r| - 1];
      if p in v {
        assert multiset(RemoveFirst(v, p)) <= multiset(v);
        assert q in multiset(RemoveFirst(v, p));
      } else if |v| >= maxMemory {
        assert q in v[1..];
      }
    }
  }

  /** The memory the returning branch walks: reloaded from the reversed snapshot when standing on the destination. */
  function ReturnMemory(a: Ant): (b: Ant)
    ensures a.pos == a.destination ==>
              b == a.(source := a.destination, destination := a.source,
                      snapshot := Reverse(a.snapshot), visited := Reverse(a.snapshot))
    ensures a.pos != a.destination ==> b == a
    ensures forall q :: q in b.visited ==> q in a.visited || q in a.snapshot
    ensures forall q :: q in b.snapshot ==> q in a.snapshot
    ensures WellFormed(a) ==> WellFormed(b)
  {
    ReverseKeepsElements(a.snapshot);
    if a.pos == a.destination then
      a.(source := a.destination, destination := a.source,
         snapshot := Reverse(a.snapshot), visited := Reverse(a.snapshot))
    else a
  }

  /** One returning move: the newest remembered cell is forgotten and becomes the position. */
  function Retrace(b: Ant): (r: Ant)
    requires |b.visited| > 0
    ensures r.pos == b.visited[|b.visited| - 1]
    ensures r.visited + [r.pos] == b.visited
    ensures r == b.(age := b.age + 1, visited := r.visited, pos := r.pos)
    ensures WellFormed(b) ==> WellFormed(r)
  {
    var last := |b.visited| - 1;
    assert b.visited == b.visited[..last] + [b.visited[last]];
    assert WellFormed(b) ==> NoDup(b.visited[..last]) by {
      if WellFormed(b) {
        forall i, j | 0 <= i < j < last ensures b.visited[..last][i] != b.visited[..last][j] {
          assert b.visited[i] != b.visited[j];
        }
      }
    }
    b.(age := b.age + 1, visited := b.visited[..last], pos := b.visited[last])
  }

  /**
   * `k` returning moves in a row walk the memory backwards: the ant stands on
   * the `k`-th newest remembered cell and remembers only the older ones.
   */
  function RetraceMany(b: Ant, k: nat): (r: Ant)
    requires k <= |b.visited|
    ensures r.visited == b.visited[..|b.visited| - k]
    ensures 0 < k ==> r.pos == b.visited[|b.visited| - k]
    ensures r.age == b.age + k
    ensures r == b.(age := r.age, visited := r.visited, pos := r.pos)
  {
    if k == 0 then b
    else
      var prev := RetraceMany(b, k - 1);
      assert prev.visited == b.visited[..|b.visited| - k] + [b.visited[|b.visited| - k]];
      Retrace(prev)
  }

  /** The returning branch of `step`. */
  function ReturningStep(a: Ant, nodes: NodeGrid, c: StepChoices): (r: (Ant, NodeGrid))
    requires a.isReturning && Placed(a, nodes)
    ensures SameLayout(nodes, r.1) && TotalSpare(r.1) == TotalSpare(nodes)
    ensures |ReturnMemory(a).visited| == 0 ==>
              var b := ReturnMemory(a);
              r == (b.(age := a.age + 1, source := b.destination, destination := b.source,
                       isReturning := false, bonus := 0.0, readyToDie := true), nodes)
    ensures |ReturnMemory(a).visited| > 0 ==>
              && r.0 == Retrace(ReturnMemory(a))
              && At(r.1, a.pos).pheromone == Deposit(At(nodes, a.pos), c.deposit + a.bonus).pheromone
    ensures ScentCapped(nodes) ==> ScentCapped(r.1)
    ensures Placed(r.0, r.1)
    ensures |ReturnMemory(a).visited| > 0 ==>
              Within(nodes, r.0.pos) && r.1 == Transfer(nodes, a.pos, r.0.pos, c.deposit + a.bonus)
    ensures WellFormed(a) ==> WellFormed(r.0)
  {
    var b := ReturnMemory(a);
    if |b.visited| == 0 then
      (b.(age := a.age + 1, source := b.destination, destination := b.source,
          isReturning := false, bonus := 0.0, readyToDie := true), nodes)
    else
      var moved := Retrace(b);
      assert moved.pos in b.visited;
      assert forall q :: q in moved.visited ==> q in b.visited;
      var nodes' := Transfer(nodes, a.pos, moved.pos, c.deposit + a.bonus);
      assert Placed(moved, nodes);
      PlacedOnSameLayout(moved, nodes, nodes');
      (moved, nodes')
  }

  /**
   * `step`: one tick of the ant. The age grows by one, the total spare capacity
   * of the nodes is unchanged, no node exceeds its pheromone ceiling, and the ant
   * and its memory stay on the grid.
   */
  function Step(a: Ant, nodes: NodeGrid, c: StepChoices): (r: (Ant, NodeGrid))
    requires Placed(a, nodes) && ValidChoices(c)
    ensures r.0.age == a.age + 1
    ensures SameLayout(nodes, r.1) && TotalSpare(r.1) == TotalSpare(nodes)
    ensures ScentCapped(nodes) ==> ScentCapped(r.1)
    ensures Placed(r.0, r.1)
    ensures WellFormed(a) ==> WellFormed(r.0)
    ensures !a.isReturning ==> r.0.readyToDie == a.readyToDie
    ensures r.0.readyToDie ==> a.readyToDie || (a.isReturning && !r.0.isReturning)
  {
    if a.isReturning then ReturningStep(a, nodes, c) else OutboundStep(a, nodes, c)
  }

  /**
   * A returning ant standing on its destination with a remembered path does not
   * die: it turns round, reloads its memory from the reversed path and takes the
   * first step back, so the snapshot's length is kept and the walk starts over.
   */
  lemma ArrivalRestartsWalk(a: Ant, nodes: NodeGrid, c: StepChoices)
    requires a.isReturning && Placed(a, nodes) && ValidChoices(c) && !a.readyToDie
    requires a.pos == a.destination && |a.snapshot| > 0
    ensures var b := Step(a, nodes, c).0;
            && !b.readyToDie && b.isReturning
            && b.source == a.destination && b.destination == a.source
            && |b.snapshot| == |a.snapshot|
            && |b.visited| == |a.snapshot| - 1
            && b.pos == a.snapshot[0]
  {
    var m := ReturnMemory(a);
    assert m.visited == Reverse(a.snapshot);
  }
}
