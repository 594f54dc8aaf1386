/**
 * The per-cell node of the ant layer (`simulation/node.py` as `simulation/ant.py`
 * uses it): which of the four neighbours can be entered, a capacity with its spare
 * part, and a scalar pheromone level capped at `maxSmell`.
 */
module Nodes {
  import opened Common
  import opened Grids

  /**
   * The four moves, in the order of the `has_neighbor` flags: top, right,
   * bottom, left. "Up" lowers the first coordinate, as in the flag
   * computation of `simulation/initialize.py`.
   */
  datatype Direction = Up | Right | Down | Left {
    /** Position of this direction's flag (`Direction.value`). */
    function Index(): nat {
      match this
      case Up => 0
      case Right => 1
      case Down => 2
      case Left => 3
    }

    function DFirst(): int {
      match this
      case Up => -1
      case Down => 1
      case _ => 0
    }

    function DSecond(): int {
      match this
      case Right => 1
      case Left => -1
      case _ => 0
    }
  }

  /** `list(Direction)`, in declaration order. */
  const AllDirections: seq<Direction> := [Up, Right, Down, Left]

  /** `Direction(i)`: the direction whose flag sits at position `i`. */
  function DirectionAt(i: nat): (d: Direction)
    requires i < 4
    ensures d.Index() == i
  {
    AllDirections[i]
  }

  /** The two cells share a side. */
  predicate Adjacent(a: Coords, b: Coords) {
    (a.0 == b.0 && (a.1 - b.1 == 1 || b.1 - a.1 == 1)) ||
    (a.1 == b.1 && (a.0 - b.0 == 1 || b.0 - a.0 == 1))
  }

  /** The cell one move away in direction `d`. */
  function Shift(c: Coords, d: Direction): (r: Coords)
    ensures Adjacent(c, r)
  {
    (c.0 + d.DFirst(), c.1 + d.DSecond())
  }

  /** Which neighbour cells can be entered, `has_neighbor`. */
  datatype Neighborhood = Neighborhood(top: bool, right: bool, bottom: bool, left: bool) {
    /** `has_neighbor[d.value]`. */
    function Has(d: Direction): bool {
      match d
      case Up => top
      case Right => right
      case Down => bottom
      case Left => left
    }
  }

  /** Occupants a node admits. */
  const NodeCapacity: int := 6

  datatype Node = Node(
    hasNeighbor: Neighborhood,
    pheromone: real,
    maxSmell: real,
    capacity: int,
    spareCapacity: int)

  /** `Node(neighborhood)`: flags in top, right, bottom, left order, full spare capacity, no scent. */
  function NewNode(top: bool, right: bool, bottom: bool, left: bool, maxSmell: real): (n: Node)
    ensures n.hasNeighbor.Has(Up) == top && n.hasNeighbor.Has(Right) == right
    ensures n.hasNeighbor.Has(Down) == bottom && n.hasNeighbor.Has(Left) == left
    ensures n.capacity == NodeCapacity && n.spareCapacity == n.capacity
    ensures n.pheromone == 0.0 && n.maxSmell == maxSmell
  {
    Node(Neighborhood(top, right, bottom, left), 0.0, maxSmell, NodeCapacity, NodeCapacity)
  }

  /** `deposit_pheromone`: adds `amount`, capped at the node's `maxSmell`; nothing else changes. */
  function Deposit(n: Node, amount: real): (r: Node)
    ensures r == n.(pheromone := r.pheromone)
    ensures r.pheromone <= n.maxSmell
    ensures n.pheromone + amount <= n.maxSmell ==> r.pheromone == n.pheromone + amount
    ensures n.maxSmell < n.pheromone + amount ==> r.pheromone == n.maxSmell
  {
    var raised := n.pheromone + amount;
    n.(pheromone := if n.maxSmell < raised then n.maxSmell else raised)
  }

  type NodeGrid = seq<seq<Node>>

  /** Sum of the spare capacities of one row. */
  function RowSpare(row: seq<Node>): int {
    if |row| == 0 then 0 else RowSpare(row[..|row| - 1]) + row[|row| - 1].spareCapacity
  }

  /** Sum of the spare capacities of all nodes. */
  function TotalSpare(g: NodeGrid): int {
    if |g| == 0 then 0 else TotalSpare(g[..|g| - 1]) + RowSpare(g[|g| - 1])
  }

  lemma {:induction false} RowSpareUpdate(row: seq<Node>, j: nat, n: Node)
    requires j < |row|
    ensures RowSpare(row[j := n]) == RowSpare(row) - row[j].spareCapacity + n.spareCapacity
  {
    var last := |row| - 1;
    if j == last {
      assert row[j := n][..last] == row[..last];
    } else {
      assert row[j := n][..last] == row[..last][j := n];
      RowSpareUpdate(row[..last], j, n);
    }
  }

  lemma {:induction false} TotalSpareUpdate(g: NodeGrid, i: nat, row: seq<Node>)
    requires i < |g|
    ensures TotalSpare(g[i := row]) == TotalSpare(g) - RowSpare(g[i]) + RowSpare(row)
  {
    var last := |g| - 1;
    if i == last {
      assert g[i := row][..last] == g[..last];
    } else {
      assert g[i := row][..last] == g[..last][i := row];
      TotalSpareUpdate(g[..last], i, row);
    }
  }

  /** Replacing one node changes the total spare capacity by that node's difference. */
  lemma TotalSparePut(g: NodeGrid, c: Coords, n: Node)
    requires Rect(g) && Within(g, c)
    ensures TotalSpare(Put(g, c, n)) == TotalSpare(g) - At(g, c).spareCapacity + n.spareCapacity
  {
    RowSpareUpdate(g[c.0], c.1, n);
    TotalSpareUpdate(g, c.0, g[c.0][c.1 := n]);
  }

  /** Both grids have the same shape and every node keeps its flags, ceiling and capacity. */
  ghost predicate SameLayout(g: NodeGrid, h: NodeGrid) {
    Rect(g) && Rect(h) && SameShape(g, h) &&
    forall c :: Within(g, c) ==>
      At(h, c).hasNeighbor == At(g, c).hasNeighbor &&
      At(h, c).maxSmell == At(g, c).maxSmell &&
      At(h, c).capacity == At(g, c).capacity
  }

  /** No node holds more pheromone than its ceiling. */
  ghost predicate ScentCapped(g: NodeGrid)
    requires Rect(g)
  {
    forall c :: Within(g, c) ==> At(g, c).pheromone <= At(g, c).maxSmell
  }

  /** Both layouts agree with a third one, so they agree with each other. */
  lemma SameLayoutTrans(g: NodeGrid, h: NodeGrid, k: NodeGrid)
    requires SameLayout(g, h) && SameLayout(h, k)
    ensures SameLayout(g, k)
  {
    forall c | Within(g, c) ensures Within(h, c) {
    }
  }

  /** Changes the spare capacity of the node at `c` by `delta`. */
  function AdjustSpare(g: NodeGrid, c: Coords, delta: int): (r: NodeGrid)
    requires Rect(g) && Within(g, c)
    ensures SameLayout(g, r)
    ensures TotalSpare(r) == TotalSpare(g) + delta
    ensures At(r, c) == At(g, c).(spareCapacity := At(g, c).spareCapacity + delta)
    ensures forall d :: Within(g, d) && d != c ==> At(r, d) == At(g, d)
    ensures ScentCapped(g) ==> ScentCapped(r)
  {
    var n := At(g, c).(spareCapacity := At(g, c).spareCapacity + delta);
    TotalSparePut(g, c, n);
    Put(g, c, n)
  }

  /** Deposits `amount` of pheromone on the node at `c`. */
  function DepositAt(g: NodeGrid, c: Coords, amount: real): (r: NodeGrid)
    requires Rect(g) && Within(g, c)
    ensures SameLayout(g, r)
    ensures TotalSpare(r) == TotalSpare(g)
    ensures At(r, c) == Deposit(At(g, c), amount)
    ensures forall d :: Within(g, d) && d != c ==> At(r, d) == At(g, d)
    ensures ScentCapped(g) ==> ScentCapped(r)
  {
    var n := Deposit(At(g, c), amount);
    TotalSparePut(g, c, n);
    Put(g, c, n)
  }

  /**
   * `transfer`: the node left gains one spare place, the node entered loses one
   * (with no check that one is free), and the node left receives `amount` of
   * pheromone. The total spare capacity is unchanged; all other nodes are unchanged.
   * When both cells are the same node, the two capacity changes cancel.
   */
  function Transfer(g: NodeGrid, from: Coords, to: Coords, amount: real): (r: NodeGrid)
    requires Rect(g) && Within(g, from) && Within(g, to)
    ensures SameLayout(g, r)
    ensures TotalSpare(r) == TotalSpare(g)
    ensures from != to ==> At(r, from).spareCapacity == At(g, from).spareCapacity + 1
    ensures from != to ==> At(r, to) == At(g, to).(spareCapacity := At(g, to).spareCapacity - 1)
    ensures from == to ==> At(r, from).spareCapacity == At(g, from).spareCapacity
    ensures At(r, from).pheromone == Deposit(At(g, from), amount).pheromone
    ensures forall c :: Within(g, c) && c != from && c != to ==> At(r, c) == At(g, c)
    ensures ScentCapped(g) ==> ScentCapped(r)
  {
    if from == to then
      DepositAt(g, from, amount)
    else
      var g1 := AdjustSpare(g, from, 1);
      var g2 := AdjustSpare(g1, to, -1);
      SameLayoutTrans(g, g1, g2);
      var r := DepositAt(g2, from, amount);
      SameLayoutTrans(g, g2, r);
      r
  }
}
