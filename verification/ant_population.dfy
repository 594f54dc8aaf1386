/**
 * The ant cohort of `simulation/population.py`: a countdown triggers a
 * refresh that keeps the returning ants whose remembered path is shorter
 * than 1.2 times the shortest one and tops the cohort up with fresh ants;
 * then every ant steps once and the ants ready to die are dropped.
 */
module AntPopulation {
  import opened Common
  import opened Grids
  import opened Seqs
  import opened Nodes
  import opened Visited
  import opened Ants

  /** The settings `Population` reads. */
  datatype Settings = Settings(
    populationSize: int,
    spawnInterval: int,
    antMaxMemory: MemorySize,
    destinationBonus: real,
    source: Coords,
    target: Coords)

  datatype Population = Population(
    spawnInterval: int,
    timeToSpawn: int,
    ants: seq<Ant>,
    lifeIteration: nat)

  /** `Population(sim_settings)`: no ants yet, a full countdown. */
  function NewPopulation(s: Settings): (p: Population)
    ensures p.ants == [] && p.lifeIteration == 0
    ensures p.spawnInterval == s.spawnInterval && p.timeToSpawn == s.spawnInterval
  {
    Population(s.spawnInterval, s.spawnInterval, [], 0)
  }

  /**
   * The shortest path length a refresh computes: starting from `bound`, the
   * snapshot length of every returning ant that is strictly shorter.
   */
  function MinPathLength(ants: seq<Ant>, bound: int): (m: int)
    ensures m <= bound
    ensures forall i :: 0 <= i < |ants| && ants[i].isReturning ==> m <= |ants[i].snapshot|
    ensures m == bound || exists i :: 0 <= i < |ants| && ants[i].isReturning && m == |ants[i].snapshot|
  {
    if |ants| == 0 then bound
    else
      var next := if ants[0].isReturning && |ants[0].snapshot| < bound then |ants[0].snapshot| else bound;
      var m := MinPathLength(ants[1..], next);
      assert forall i :: 1 <= i < |ants| ==> ants[i] == ants[1..][i - 1];
      if m == next then m
      else
        var i :| 0 <= i < |ants[1..]| && ants[1..][i].isReturning && m == |ants[1..][i].snapshot|;
        assert ants[i + 1] == ants[1..][i];
        m
  }

  /** `ant.is_returning and len(ant.visited_fields_copy) < 1.2 * m`, over the integers. */
  predicate ShortReturner(a: Ant, m: int) {
    a.isReturning && 5 * |a.snapshot| < 6 * m
  }

  /** The elitist filter: the ants kept at a refresh, in their original order. */
  function Survivors(ants: seq<Ant>, m: int): (r: seq<Ant>)
    ensures forall i :: 0 <= i < |r| ==> r[i] in ants && ShortReturner(r[i], m)
    ensures forall i :: 0 <= i < |ants| && ShortReturner(ants[i], m) ==> ants[i] in r
  {
    Filter(ants, (a: Ant) => ShortReturner(a, m))
  }

  /**
   * The cohort after a refresh: the survivors, followed by as many fresh ants at the
   * configured source, heading for the target, as are missing to the population size.
   */
  function RefreshedCohort(ants: seq<Ant>, s: Settings): (r: seq<Ant>)
    ensures var kept := Survivors(ants, MinPathLength(ants, s.antMaxMemory));
            && |r| == MaxInt(s.populationSize, |kept|)
            && r[..|kept|] == kept
            && forall i :: |kept| <= i < |r| ==>
                 r[i] == NewAnt(s.source, s.target, s.destinationBonus, s.antMaxMemory)
  {
    var kept := Survivors(ants, MinPathLength(ants, s.antMaxMemory));
    var newcomer := NewAnt(s.source, s.target, s.destinationBonus, s.antMaxMemory);
    kept + seq(MaxInt(0, s.populationSize - |kept|), _ => newcomer)
  }

  /** The survivors keep their relative order: filtering a split cohort filters each part. */
  lemma SurvivorsInOrder(ants: seq<Ant>, m: int, k: nat)
    requires k <= |ants|
    ensures Survivors(ants, m) == Survivors(ants[..k], m) + Survivors(ants[k..], m)
  {
    assert ants == ants[..k] + ants[k..];
    FilterAppend(ants[..k], ants[k..], (a: Ant) => ShortReturner(a, m));
  }

  /** The countdown has run out, or there is no ant left. */
  predicate RefreshDue(p: Population) {
    p.timeToSpawn - 1 <= 0 || |p.ants| == 0
  }

  /** The population before its ants step: refreshed when due, otherwise only counted down. */
  function Prepare(p: Population, s: Settings): (q: Population)
    ensures RefreshDue(p) ==>
              q.timeToSpawn == p.spawnInterval && q.lifeIteration == p.lifeIteration + 1 &&
              q.ants == RefreshedCohort(p.ants, s)
    ensures !RefreshDue(p) ==>
              q.timeToSpawn == p.timeToSpawn - 1 && q.lifeIteration == p.lifeIteration &&
              q.ants == p.ants
    ensures q.spawnInterval == p.spawnInterval
  {
    if RefreshDue(p) then
      p.(timeToSpawn := p.spawnInterval, lifeIteration := p.lifeIteration + 1,
         ants := RefreshedCohort(p.ants, s))
    else
      p.(timeToSpawn := p.timeToSpawn - 1)
  }

  /** Refreshing an empty cohort yields exactly the configured number of fresh ants. */
  lemma EmptyCohortRefill(p: Population, s: Settings)
    requires p.ants == [] && 0 <= s.populationSize
    ensures RefreshDue(p)
    ensures Cohort(p, s) == seq(s.populationSize, _ => NewAnt(s.source, s.target, s.destinationBonus, s.antMaxMemory))
  {
    var kept := Survivors(p.ants, MinPathLength(p.ants, s.antMaxMemory));
    assert |kept| == 0;
  }

  /** Every ant and its memory lie on the grid, and its memory is well formed. */
  ghost predicate AllPlaced(ants: seq<Ant>, nodes: NodeGrid) {
    forall i :: 0 <= i < |ants| ==> Placed(ants[i], nodes) && WellFormed(ants[i])
  }

  /**
   * The ants step one after the other, each seeing the nodes the previous ones
   * left. Every ant steps exactly once, in cohort order.
   */
  function StepAll(ants: seq<Ant>, nodes: NodeGrid, choices: seq<StepChoices>): (r: (seq<Ant>, NodeGrid))
    requires |choices| == |ants| && Rect(nodes) && AllPlaced(ants, nodes)
    requires forall i :: 0 <= i < |choices| ==> ValidChoices(choices[i])
    ensures |r.0| == |ants|
    ensures forall i :: 0 <= i < |ants| ==> r.0[i].age == ants[i].age + 1
    ensures SameLayout(nodes, r.1) && TotalSpare(r.1) == TotalSpare(nodes)
    ensures ScentCapped(nodes) ==> ScentCapped(r.1)
    ensures AllPlaced(r.0, r.1)
    ensures |ants| > 0 ==> r.0[0] == Ants.Step(ants[0], nodes, choices[0]).0
    ensures r.1 == NodesBefore(ants, nodes, choices, |ants|)
    decreases |ants|
  {
    if |ants| == 0 then ([], nodes)
    else
      var (first, nodes1) := Ants.Step(ants[0], nodes, choices[0]);
      AllPlacedTail(ants, nodes, nodes1);
      var (rest, nodes2) := StepAll(ants[1..], nodes1, choices[1..]);
      assert NodesBefore(ants, nodes, choices, |ants|) == NodesBefore(ants[1..], nodes1, choices[1..], |ants| - 1);
      SameLayoutTrans(nodes, nodes1, nodes2);
      PlacedOnSameLayout(first, nodes1, nodes2);
      AllPlacedCons(first, rest, nodes2);
      AgesCons(ants, first, rest);
      ([first] + rest, nodes2)
  }

  /**
   * The nodes once the first `i` ants have each taken their step, one after
   * the other; every later ant still stands on one of them.
   */
  function NodesBefore(ants: seq<Ant>, nodes: NodeGrid, choices: seq<StepChoices>, i: nat): (g: NodeGrid)
    requires |choices| == |ants| && Rect(nodes) && AllPlaced(ants, nodes)
    requires forall k :: 0 <= k < |choices| ==> ValidChoices(choices[k])
    requires i <= |ants|
    ensures SameLayout(nodes, g)
    ensures forall k :: i <= k < |ants| ==> Placed(ants[k], g)
    decreases i
  {
    if i == 0 then nodes
    else
      var nodes1 := Ants.Step(ants[0], nodes, choices[0]).1;
      AllPlacedTail(ants, nodes, nodes1);
      var g := NodesBefore(ants[1..], nodes1, choices[1..], i - 1);
      SameLayoutTrans(nodes, nodes1, g);
      assert forall k :: i <= k < |ants| ==> ants[k] == ants[1..][k - 1];
      g
  }

  /**
   * Ant `i` takes exactly its own step, on the nodes the ants before it left:
   * the cohort steps once each, in order.
   */
  lemma {:induction false} StepAllInOrder(ants: seq<Ant>, nodes: NodeGrid, choices: seq<StepChoices>, i: nat)
    requires |choices| == |ants| && Rect(nodes) && AllPlaced(ants, nodes)
    requires forall k :: 0 <= k < |choices| ==> ValidChoices(choices[k])
    requires i < |ants|
    ensures StepAll(ants, nodes, choices).0[i] == Ants.Step(ants[i], NodesBefore(ants, nodes, choices, i), choices[i]).0
    decreases i
  {
    if i > 0 {
      var nodes1 := Ants.Step(ants[0], nodes, choices[0]).1;
      AllPlacedTail(ants, nodes, nodes1);
      StepAllInOrder(ants[1..], nodes1, choices[1..], i - 1);
      StepAllCons(ants, nodes, choices, nodes1);
      assert NodesBefore(ants, nodes, choices, i) == NodesBefore(ants[1..], nodes1, choices[1..], i - 1);
      assert ants[1..][i - 1] == ants[i] && choices[1..][i - 1] == choices[i];
      assert StepAll(ants, nodes, choices).0[i] == StepAll(ants, nodes, choices).0[1..][i - 1];
    }
  }

  /** Stepping a cohort is stepping its first ant, then the others on the nodes it left. */
  lemma StepAllCons(ants: seq<Ant>, nodes: NodeGrid, choices: seq<StepChoices>, nodes1: NodeGrid)
    requires |choices| == |ants| && Rect(nodes) && AllPlaced(ants, nodes)
    requires forall k :: 0 <= k < |choices| ==> ValidChoices(choices[k])
    requires |ants| > 0 && nodes1 == Ants.Step(ants[0], nodes, choices[0]).1 && AllPlaced(ants[1..], nodes1)
    ensures StepAll(ants, nodes, choices).0[1..] == StepAll(ants[1..], nodes1, choices[1..]).0
  {
  }

  lemma AllPlacedTail(ants: seq<Ant>, nodes: NodeGrid, nodes': NodeGrid)
    requires |ants| > 0 && AllPlaced(ants, nodes) && SameLayout(nodes, nodes')
    ensures AllPlaced(ants[1..], nodes')
  {
    forall i | 0 <= i < |ants| - 1 ensures Placed(ants[1..][i], nodes') && WellFormed(ants[1..][i]) {
      assert ants[1..][i] == ants[i + 1];
      PlacedOnSameLayout(ants[i + 1], nodes, nodes');
    }
  }

  lemma AllPlacedCons(first: Ant, rest: seq<Ant>, nodes: NodeGrid)
    requires Placed(first, nodes) && WellFormed(first) && AllPlaced(rest, nodes)
    ensures AllPlaced([first] + rest, nodes)
  {
    forall i | 0 <= i < |rest| + 1 ensures Placed(([first] + rest)[i], nodes) && WellFormed(([first] + rest)[i]) {
      if i > 0 {
        assert ([first] + rest)[i] == rest[i - 1];
      }
    }
  }

  lemma AgesCons(ants: seq<Ant>, first: Ant, rest: seq<Ant>)
    requires |ants| > 0 && |rest| == |ants| - 1 && first.age == ants[0].age + 1
    requires forall i :: 0 <= i < |rest| ==> rest[i].age == ants[1..][i].age + 1
    ensures forall i :: 0 <= i < |ants| ==> ([first] + rest)[i].age == ants[i].age + 1
  {
    forall i | 1 <= i < |ants| ensures ([first] + rest)[i].age == ants[i].age + 1 {
      assert ([first] + rest)[i] == rest[i - 1] && ants[i] == ants[1..][i - 1];
    }
  }

  function IsAlive(a: Ant): bool { !a.readyToDie }

  /** `[ant for ant in self.ants if not ant.ready_to_die]`. */
  function Living(ants: seq<Ant>): (r: seq<Ant>)
    ensures forall i :: 0 <= i < |r| ==> r[i] in ants && !r[i].readyToDie
    ensures forall i :: 0 <= i < |ants| && !ants[i].readyToDie ==> ants[i] in r
  {
    Filter(ants, IsAlive)
  }

  /** The cohort the ants of a `step` are drawn from; one choice record is needed per ant in it. */
  function Cohort(p: Population, s: Settings): seq<Ant> {
    Prepare(p, s).ants
  }

  /**
   * `Population.step`: count down, refresh when due, step every ant once,
   * drop the ants ready to die.
   */
  function Step(p: Population, s: Settings, nodes: NodeGrid, choices: seq<StepChoices>): (r: (Population, NodeGrid))
    requires Rect(nodes) && Within(nodes, s.source)
    requires AllPlaced(p.ants, nodes)
    requires |choices| == |Cohort(p, s)|
    requires forall i :: 0 <= i < |choices| ==> ValidChoices(choices[i])
    ensures var q := Prepare(p, s);
            && r.0.timeToSpawn == q.timeToSpawn
            && r.0.lifeIteration == q.lifeIteration
            && r.0.spawnInterval == p.spawnInterval
            && r.0.ants == Living(StepAll(q.ants, nodes, choices).0)
            && r.1 == StepAll(q.ants, nodes, choices).1
    ensures forall i :: 0 <= i < |r.0.ants| ==> !r.0.ants[i].readyToDie
    ensures |r.0.ants| <= |Cohort(p, s)|
    ensures SameLayout(nodes, r.1) && TotalSpare(r.1) == TotalSpare(nodes)
    ensures AllPlaced(r.0.ants, r.1)
  {
    var q := Prepare(p, s);
    CohortPlaced(p, s, nodes);
    var (stepped, nodes') := StepAll(q.ants, nodes, choices);
    var alive := Living(stepped);
    LivingPlaced(stepped, nodes');
    (q.(ants := alive), nodes')
  }

  /** Dropping the ants ready to die keeps the rest on the grid. */
  lemma LivingPlaced(ants: seq<Ant>, nodes: NodeGrid)
    requires AllPlaced(ants, nodes)
    ensures AllPlaced(Living(ants), nodes) && |Living(ants)| <= |ants|
  {
    var alive := Living(ants);
    forall i | 0 <= i < |alive| ensures Placed(alive[i], nodes) && WellFormed(alive[i]) {
      var j :| 0 <= j < |ants| && ants[j] == alive[i];
    }
  }

  /** Fresh ants start at the configured source, so a refreshed cohort is on the grid too. */
  lemma CohortPlaced(p: Population, s: Settings, nodes: NodeGrid)
    requires Rect(nodes) && Within(nodes, s.source) && AllPlaced(p.ants, nodes)
    ensures AllPlaced(Cohort(p, s), nodes)
  {
    var q := Prepare(p, s);
    if RefreshDue(p) {
      var kept := Survivors(p.ants, MinPathLength(p.ants, s.antMaxMemory));
      forall i | 0 <= i < |q.ants| ensures Placed(q.ants[i], nodes) && WellFormed(q.ants[i]) {
        if i < |kept| {
          assert q.ants[i] == kept[i];
          var j :| 0 <= j < |p.ants| && p.ants[j] == kept[i];
        }
      }
    }
  }
}
