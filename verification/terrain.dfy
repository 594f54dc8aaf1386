/**
 * Terrain set-up from `simulation/initialize.py`: the colour-to-field mapping
 * of the map image and the per-cell neighbour flags of the ant layer's nodes.
 *
 * The image is taken after the transpose the code applies, so its first
 * index is the first grid coordinate.
 */
module Terrain {
  import opened Common
  import opened Enums
  import opened Grids
  import opened Nodes

  /** A pixel's red, green and blue channels. */
  datatype Rgb = Rgb(red: int, green: int, blue: int)

  const White: Rgb := Rgb(255, 255, 255)
  const Orange: Rgb := Rgb(255, 191, 0)
  const Black: Rgb := Rgb(0, 0, 0)

  /**
   * The field a pixel stands for: orange is a path, black a building, white and
   * every unknown colour grass.
   */
  function MapColor(p: Rgb): (f: FieldType)
    ensures f == Path <==> p == Orange
    ensures f == Buildings <==> p == Black
    ensures f == Grass <==> p != Orange && p != Black
  {
    if p == White then Grass
    else if p == Orange then Path
    else if p == Black then Buildings
    else Grass
  }

  /** `mapImageToFieldType`: the image mapped pixel by pixel. */
  method MapImage(image: seq<seq<Rgb>>) returns (grid: seq<seq<FieldType>>)
    requires Rect(image)
    ensures Rect(grid) && SameShape(image, grid)
    ensures forall c :: Within(image, c) ==> At(grid, c) == MapColor(At(image, c))
  {
    grid := [];
    var i := 0;
    while i < |image|
      invariant 0 <= i <= |image| && |grid| == i
      invariant forall k :: 0 <= k < i ==> |grid[k]| == |image[k]|
      invariant forall k, l :: 0 <= k < i && 0 <= l < |image[k]| ==> grid[k][l] == MapColor(image[k][l])
    {
      var row := [];
      var j := 0;
      while j < |image[i]|
        invariant 0 <= j <= |image[i]| && |row| == j
        invariant forall l :: 0 <= l < j ==> row[l] == MapColor(image[i][l])
      {
        row := row + [MapColor(image[i][j])];
        j := j + 1;
      }
      grid := grid + [row];
      i := i + 1;
    }
  }

  /** A map image only ever yields grass, paths and buildings. */
  lemma MapImageFields(image: seq<seq<Rgb>>, grid: seq<seq<FieldType>>, c: Coords)
    requires Rect(image) && Rect(grid) && SameShape(image, grid) && Within(image, c)
    requires forall d :: Within(image, d) ==> At(grid, d) == MapColor(At(image, d))
    ensures At(grid, c) != Forest && At(grid, c) != Water && At(grid, c) != Urban
  {
  }

  /** Fields the ants may walk on. */
  predicate Available(f: FieldType) {
    f == Grass || f == Forest || f == Path
  }

  /**
   * The neighbour flags of the cell at `c`: a side is open when the cell there
   * is on the grid and walkable.
   */
  function NeighborFlags(grid: seq<seq<FieldType>>, c: Coords): (n: Neighborhood)
    requires Rect(grid) && Within(grid, c)
    ensures forall d: Direction :: n.Has(d) <==> Within(grid, Shift(c, d)) && Available(At(grid, Shift(c, d)))
  {
    var rows := |grid|;
    var cols := |grid[0]|;
    Neighborhood(
      c.0 > 0 && Available(grid[c.0 - 1][c.1]),
      c.1 < cols - 1 && Available(grid[c.0][c.1 + 1]),
      c.0 < rows - 1 && Available(grid[c.0 + 1][c.1]),
      c.1 > 0 && Available(grid[c.0][c.1 - 1]))
  }

  /**
   * The node layer as `grid_and_objects` evidently means to build it: one node
   * per cell, holding that cell's neighbour flags.
   */
  function GridNodes(grid: seq<seq<FieldType>>, maxSmell: real): (nodes: NodeGrid)
    requires Rect(grid)
    ensures Rect(nodes) && SameShape(grid, nodes)
    ensures forall c :: Within(grid, c) ==>
              At(nodes, c) == NewNode(NeighborFlags(grid, c).top, NeighborFlags(grid, c).right,
                                      NeighborFlags(grid, c).bottom, NeighborFlags(grid, c).left, maxSmell)
  {
    seq(|grid|, i requires 0 <= i < |grid| =>
      seq(|grid[i]|, j requires 0 <= j < |grid[i]| =>
        var n := NeighborFlags(grid, (i, j));
        NewNode(n.top, n.right, n.bottom, n.left, maxSmell)))
  }

  /**
   * The node list `grid_and_objects` builds as written: it walks every cell and
   * works out the four neighbour flags, but neither the column nor the list is
   * ever appended to, so no cell of a non-empty grid gets a node.
   */
  method GridNodesAsWritten(grid: seq<seq<FieldType>>) returns (nodes: NodeGrid)
    requires Rect(grid)
    ensures nodes == []
    ensures forall c :: Within(grid, c) ==> !Within(nodes, c)
    ensures |grid| > 0 ==> !SameShape(grid, nodes)
  {
    nodes := [];
    var y := 0;
    while y < |grid|
      invariant 0 <= y <= |grid|
    {
      var nodeColumn: seq<Node> := [];
      var x := 0;
      while x < |grid[y]|
        invariant 0 <= x <= |grid[y]|
      {
        var flags := NeighborFlags(grid, (y, x));
        var up, right, down, left := flags.top, flags.right, flags.bottom, flags.left;
        x := x + 1;
      }
      y := y + 1;
    }
  }

  /**
   * On the intended node layer an open side always leads onto the grid, onto a
   * walkable cell, and every node starts empty and scent-free.
   */
  lemma GridNodesSound(grid: seq<seq<FieldType>>, maxSmell: real, c: Coords, d: Direction)
    requires Rect(grid) && Within(grid, c)
    ensures var nodes := GridNodes(grid, maxSmell);
            && (At(nodes, c).hasNeighbor.Has(d) <==>
                  Within(nodes, Shift(c, d)) && Available(At(grid, Shift(c, d))))
            && At(nodes, c).spareCapacity == At(nodes, c).capacity == NodeCapacity
            && At(nodes, c).pheromone == 0.0
  {
    var n := NeighborFlags(grid, c);
    assert At(GridNodes(grid, maxSmell), c).hasNeighbor == n;
  }
}
