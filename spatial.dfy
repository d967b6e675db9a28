/**
 * The spatial index used to snap an address to a road node: a 100 x 100 grid over the
 * search bounds, filled once, and queried with the 3 x 3 block of cells around a point.
 * Cell `x * 100 + y` holds the nodes whose latitude row is `x` and longitude column is
 * `y`. Filing clamps the row and column from above only; the query clamps both ways.
 */
module Spatial {
  import opened Wrappers
  import opened Geo
  import opened OrderedMaps
  import opened RoadGraph

  const GridSize: int := 100
  const CellCount: int := 10000

  /** The snapping cut-off in metres: a nearest node farther than this is rejected. */
  const MaxSnapDistance: real := 20000.0

  function IntMin(a: int, b: int): int { if a <= b then a else b }
  function IntMax(a: int, b: int): int { if a >= b then a else b }

  /** The grid's layout: the south-west corner and the size of a cell in degrees. */
  datatype Layout = Layout(minLat: real, minLon: real, latCellSize: real, lonCellSize: real)
  {
    predicate Usable() { latCellSize != 0.0 && lonCellSize != 0.0 }

    /** The row a latitude falls in, clamped from above only, as the filing loop does. */
    function RawRow(lat: real): int
      requires Usable()
    {
      IntMin(GridSize - 1, ((lat - minLat) / latCellSize).Floor)
    }

    function RawColumn(lon: real): int
      requires Usable()
    {
      IntMin(GridSize - 1, ((lon - minLon) / lonCellSize).Floor)
    }

    /**
     * The array index a node is filed under. It is never above 9999; it is negative (and
     * the node is dropped) when the row is negative, or the row is 0 and the column is
     * negative; a negative column in a later row lands in the previous row.
     */
    function FilingIndex(pos: Coord): (idx: int)
      requires Usable()
      ensures idx < CellCount
    {
      RawRow(pos.lat) * 100 + RawColumn(pos.lon)
    }

    /** The row and column a query point is looked up in, clamped both ways. */
    function QueryRow(lat: real): (x: int)
      requires Usable()
      ensures 0 <= x < GridSize
    {
      IntMin(GridSize - 1, IntMax(0, ((lat - minLat) / latCellSize).Floor))
    }

    function QueryColumn(lon: real): (y: int)
      requires Usable()
      ensures 0 <= y < GridSize
    {
      IntMin(GridSize - 1, IntMax(0, ((lon - minLon) / lonCellSize).Floor))
    }
  }

  /** `Array.from(nodes.values())`, keeping only what the index uses. */
  function NodeList(g: Graph): (r: seq<PathPoint>)
    requires g.Valid()
    ensures |r| == |g.keys|
    ensures forall i :: 0 <= i < |r| ==> r[i] == PathPoint(g.keys[i], g.table[g.keys[i]].pos)
  {
    seq(|g.keys|, i requires 0 <= i < |g.keys| => PathPoint(g.keys[i], g.table[g.keys[i]].pos))
  }

  /** The nodes filed under index `c`, in list order. */
  function Filed(nodes: seq<PathPoint>, layout: Layout, c: int): (r: seq<PathPoint>)
    requires layout.Usable()
    ensures forall n | n in r :: n in nodes && layout.FilingIndex(n.pos) == c
  {
    if nodes == [] then []
    else
      var n := nodes[|nodes| - 1];
      Filed(nodes[..|nodes| - 1], layout, c) + (if layout.FilingIndex(n.pos) == c then [n] else [])
  }

  /** Filing one more node adds it to the end of its own cell and changes no other. */
  lemma FiledNext(nodes: seq<PathPoint>, layout: Layout, k: nat)
    requires layout.Usable() && k < |nodes|
    ensures forall c :: (Filed(nodes[..k + 1], layout, c) ==
      Filed(nodes[..k], layout, c) + (if layout.FilingIndex(nodes[k].pos) == c then [nodes[k]] else []))
  {
    assert nodes[..k + 1][..k] == nodes[..k];
  }

  /** The grid's contents after filing every node. */
  ghost function Cells(nodes: seq<PathPoint>, layout: Layout): (cells: seq<seq<PathPoint>>)
    requires layout.Usable()
    ensures |cells| == CellCount
  {
    seq(CellCount, c requires 0 <= c < CellCount => Filed(nodes, layout, c))
  }

  /** A filed node is in exactly one cell, the one its index names; a negative index drops it. */
  lemma {:induction false} FiledOnce(nodes: seq<PathPoint>, layout: Layout, n: PathPoint, c: int)
    requires layout.Usable() && n in nodes
    ensures n in Filed(nodes, layout, c) <==> layout.FilingIndex(n.pos) == c
  {
    var init := nodes[..|nodes| - 1];
    if n in init {
      FiledOnce(init, layout, n, c);
    }
  }

  /** The cell at row `x`, column `y`, or nothing outside the grid. */
  function CellAt(cells: seq<seq<PathPoint>>, x: int, y: int): seq<PathPoint>
    requires |cells| == CellCount
  {
    if 0 <= x < GridSize && 0 <= y < GridSize then cells[x * 100 + y] else []
  }

  /** Columns y - 1 .. y + j - 1 of row x + i. */
  function RowPart(cells: seq<seq<PathPoint>>, x: int, y: int, i: int, j: int): seq<PathPoint>
    requires |cells| == CellCount && -1 <= j <= 2
    decreases j + 1
  {
    if j == -1 then [] else RowPart(cells, x, y, i, j - 1) + CellAt(cells, x + i, y + j - 1)
  }

  lemma RowPartStep(cells: seq<seq<PathPoint>>, x: int, y: int, i: int, j: int)
    requires |cells| == CellCount && -1 <= j < 2
    ensures RowPart(cells, x, y, i, j + 1) == RowPart(cells, x, y, i, j) + CellAt(cells, x + i, y + j)
  {
  }

  /** Rows x - 1 .. x + i - 1 of the block, row by row. */
  function BlockPart(cells: seq<seq<PathPoint>>, x: int, y: int, i: int): seq<PathPoint>
    requires |cells| == CellCount && -1 <= i <= 2
    decreases i + 1
  {
    if i == -1 then [] else BlockPart(cells, x, y, i - 1) + RowPart(cells, x, y, i - 1, 2)
  }

  /** The 3 x 3 block around row `x`, column `y`, in the query's order. */
  function Block(cells: seq<seq<PathPoint>>, x: int, y: int): seq<PathPoint>
    requires |cells| == CellCount
  {
    BlockPart(cells, x, y, 2)
  }

  /** What a query at `pos` returns, as a function of the nodes and the layout. */
  ghost function NearbyNodes(nodes: seq<PathPoint>, layout: Layout, pos: Coord): seq<PathPoint> {
    if nodes == [] then []
    else if !layout.Usable() then nodes
    else
      var block := Block(Cells(nodes, layout), layout.QueryRow(pos.lat), layout.QueryColumn(pos.lon));
      if |block| > 0 then block else nodes
  }

  /** `buildSpatialIndex(nodes, bounds)` and its `getNearbyNodes` closure. */
  class SpatialIndex {
    const nodesArray: seq<PathPoint>
    const layout: Layout
    const grid: array<seq<PathPoint>>

    ghost predicate Valid()
      reads this, grid
    {
      && grid.Length == CellCount
      && (nodesArray != [] && layout.Usable() ==> grid[..] == Cells(nodesArray, layout))
    }

    constructor (nodes: Graph, bounds: Box)
      requires nodes.Valid()
      ensures Valid()
      ensures nodesArray == NodeList(nodes)
      ensures layout == Layout(bounds.south, bounds.west,
        (bounds.north - bounds.south) / 100.0, (bounds.east - bounds.west) / 100.0)
    {
      var cells := new seq<PathPoint>[CellCount](_ => []);
      var list := NodeList(nodes);
      var minLat, minLon := bounds.south, bounds.west;
      var latRange, lonRange := bounds.north - minLat, bounds.east - minLon;
      var shape := Layout(minLat, minLon, latRange / 100.0, lonRange / 100.0);
      if list != [] && shape.Usable() {
        FileNodes(cells, list, shape);
      }
      nodesArray, layout, grid := list, shape, cells;
    }

    /** `getNearbyNodes(coords)`. */
    method GetNearbyNodes(pos: Coord) returns (candidates: seq<PathPoint>)
      requires Valid()
      ensures candidates == NearbyNodes(nodesArray, layout, pos)
    {
      if nodesArray == [] {
        return [];
      }
      if !layout.Usable() {
        return nodesArray;
      }
      var x := layout.QueryRow(pos.lat);
      var y := layout.QueryColumn(pos.lon);
      candidates := ScanBlock(grid, x, y);
      if |candidates| == 0 {
        candidates := nodesArray;
      }
    }
  }

  /** The filing loop: each node is appended to the cell its index names, if there is one. */
  method FileNodes(cells: array<seq<PathPoint>>, list: seq<PathPoint>, shape: Layout)
    requires shape.Usable() && cells.Length == CellCount
    requires forall c :: 0 <= c < CellCount ==> cells[c] == []
    modifies cells
    ensures cells[..] == Cells(list, shape)
  {
    for k := 0 to |list|
      invariant forall c :: 0 <= c < CellCount ==> cells[c] == Filed(list[..k], shape, c)
    {
      var node := list[k];
      var x := IntMin(GridSize - 1, ((node.pos.lat - shape.minLat) / shape.latCellSize).Floor);
      var y := IntMin(GridSize - 1, ((node.pos.lon - shape.minLon) / shape.lonCellSize).Floor);
      var gridIndex := x * 100 + y;
      FiledNext(list, shape, k);
      if 0 <= gridIndex < CellCount {
        cells[gridIndex] := cells[gridIndex] + [node];
      }
    }
    assert list[..|list|] == list;
  }

  /** The query's loop over the 3 x 3 block, row by row. */
  method ScanBlock(grid: array<seq<PathPoint>>, x: int, y: int) returns (candidates: seq<PathPoint>)
    requires grid.Length == CellCount
    ensures candidates == Block(grid[..], x, y)
  {
    candidates := [];
    for i := -1 to 2
      invariant candidates == BlockPart(grid[..], x, y, i)
    {
      var row := ScanRow(grid, x, y, i);
      candidates := candidates + row;
    }
  }

  /** The inner loop: the three cells of row `x + i`, skipping positions outside the grid. */
  method ScanRow(grid: array<seq<PathPoint>>, x: int, y: int, i: int) returns (row: seq<PathPoint>)
    requires grid.Length == CellCount
    ensures row == RowPart(grid[..], x, y, i, 2)
  {
    row := [];
    for j := -1 to 2
      invariant row == RowPart(grid[..], x, y, i, j)
    {
      var newX, newY := x + i, y + j;
      RowPartStep(grid[..], x, y, i, j);
      if 0 <= newX < GridSize && 0 <= newY < GridSize {
        assert grid[newX * 100 + newY] == CellAt(grid[..], newX, newY);
        row := row + grid[newX * 100 + newY];
      }
    }
  }

  // ---------------------------------------------------------------------------
  // What a query returns

  /** No nodes: every query returns nothing. */
  lemma QueryWithoutNodes(layout: Layout, pos: Coord)
    ensures NearbyNodes([], layout, pos) == []
  {
  }

  /** A zero-height or zero-width grid: every query returns every node. */
  lemma QueryOnDegenerateGrid(nodes: seq<PathPoint>, layout: Layout, pos: Coord)
    requires !layout.Usable()
    ensures NearbyNodes(nodes, layout, pos) == nodes
  {
  }

  /** A query on a graph with nodes always returns some node. */
  lemma QueryNonEmpty(nodes: seq<PathPoint>, layout: Layout, pos: Coord)
    requires nodes != []
    ensures NearbyNodes(nodes, layout, pos) != []
  {
  }

  /** Every cell holds only nodes from `nodes`. */
  ghost predicate CellsFrom(cells: seq<seq<PathPoint>>, nodes: seq<PathPoint>) {
    forall c, n | 0 <= c < |cells| && n in cells[c] :: n in nodes
  }

  lemma CellsFromNodes(nodes: seq<PathPoint>, layout: Layout)
    requires layout.Usable()
    ensures CellsFrom(Cells(nodes, layout), nodes)
  {
  }

  lemma {:induction false} RowPartFrom(cells: seq<seq<PathPoint>>, nodes: seq<PathPoint>, x: int, y: int, i: int, j: int)
    requires |cells| == CellCount && CellsFrom(cells, nodes) && -1 <= j <= 2
    ensures forall n | n in RowPart(cells, x, y, i, j) :: n in nodes
  {
    if j > -1 {
      RowPartFrom(cells, nodes, x, y, i, j - 1);
    }
  }

  lemma {:induction false} BlockPartFrom(cells: seq<seq<PathPoint>>, nodes: seq<PathPoint>, x: int, y: int, i: int)
    requires |cells| == CellCount && CellsFrom(cells, nodes) && -1 <= i <= 2
    ensures forall n | n in BlockPart(cells, x, y, i) :: n in nodes
  {
    if i > -1 {
      BlockPartFrom(cells, nodes, x, y, i - 1);
      RowPartFrom(cells, nodes, x, y, i - 1, 2);
    }
  }

  /** Every node a query returns is one of the indexed nodes. */
  lemma QueryReturnsIndexedNodes(nodes: seq<PathPoint>, layout: Layout, pos: Coord)
    ensures forall n | n in NearbyNodes(nodes, layout, pos) :: n in nodes
  {
    if nodes != [] && layout.Usable() {
      var cells := Cells(nodes, layout);
      CellsFromNodes(nodes, layout);
      BlockPartFrom(cells, nodes, layout.QueryRow(pos.lat), layout.QueryColumn(pos.lon), 2);
    }
  }

  /** The cells of a two-node list: each node in its own cell, in list order. */
  lemma FiledTwo(layout: Layout, n: PathPoint, m: PathPoint, c: int)
    requires layout.Usable()
    ensures Filed([n, m], layout, c) ==
      (if layout.FilingIndex(n.pos) == c then [n] else []) + (if layout.FilingIndex(m.pos) == c then [m] else [])
  {
    assert [n, m][..1] == [n];
    assert [n][..0] == [];
    assert Filed([n], layout, c) == if layout.FilingIndex(n.pos) == c then [n] else [];
  }

  /** The grid of two nodes filed under `cn` and `cm`, two different indices. */
  lemma CellsOfTwo(layout: Layout, n: PathPoint, m: PathPoint, cn: int, cm: int)
    requires layout.Usable() && layout.FilingIndex(n.pos) == cn && layout.FilingIndex(m.pos) == cm && cn != cm
    ensures forall c | 0 <= c < CellCount ::
      Cells([n, m], layout)[c] == if c == cn then [n] else if c == cm then [m] else []
  {
    forall c | 0 <= c < CellCount
      ensures Cells([n, m], layout)[c] == if c == cn then [n] else if c == cm then [m] else []
    {
      FiledTwo(layout, n, m, c);
    }
  }

  /**
   * A node one row south of the grid is filed under a negative index, so in no cell. A
   * query at its own position, next to a node just inside the grid, returns only that
   * other node.
   */
  lemma SouthOfGridIsDropped()
    ensures var layout := Layout(0.0, 0.0, 1.0, 1.0);
      layout.FilingIndex(Coord(-0.5, 5.5)) == -95
    ensures var layout := Layout(0.0, 0.0, 1.0, 1.0);
      var n := PathPoint(1, Coord(-0.5, 5.5));
      forall c | 0 <= c < CellCount :: n !in Cells([n], layout)[c]
    ensures var layout := Layout(0.0, 0.0, 1.0, 1.0);
      var n := PathPoint(1, Coord(-0.5, 5.5));
      var m := PathPoint(2, Coord(0.5, 5.5));
      NearbyNodes([n, m], layout, n.pos) == [m]
  {
    var layout := Layout(0.0, 0.0, 1.0, 1.0);
    var n := PathPoint(1, Coord(-0.5, 5.5));
    var m := PathPoint(2, Coord(0.5, 5.5));
    assert layout.FilingIndex(n.pos) == -95;
    forall c | 0 <= c < CellCount ensures n !in Cells([n], layout)[c] {
      FiledOnce([n], layout, n, c);
    }
    assert layout.FilingIndex(m.pos) == 5;
    assert layout.QueryRow(n.pos.lat) == 0 && layout.QueryColumn(n.pos.lon) == 5;
    CellsOfTwo(layout, n, m, -95, 5);
    SouthBlock(Cells([n, m], layout), n, m);
  }

  lemma SouthBlock(cells: seq<seq<PathPoint>>, n: PathPoint, m: PathPoint)
    requires |cells| == CellCount
    requires forall c | 0 <= c < CellCount :: cells[c] == if c == -95 then [n] else if c == 5 then [m] else []
    ensures Block(cells, 0, 5) == [m]
  {
    assert RowPart(cells, 0, 5, -1, 2) == [];
    assert RowPart(cells, 0, 5, 0, 2) == [m] by {
      assert cells[4] == [] && cells[5] == [m] && cells[6] == [];
    }
    assert RowPart(cells, 0, 5, 1, 2) == [] by {
      assert cells[104] == [] && cells[105] == [] && cells[106] == [];
    }
  }

  /**
   * A node west of the grid in row 1 is filed in row 0, column 99, at the far side of the
   * grid: a query at its own position (row 1, column 0) does not look in that cell, and
   * next to a node filed in row 1, column 0 it returns only that other node.
   */
  lemma WestOfGridIsMisfiled()
    ensures var layout := Layout(0.0, 0.0, 1.0, 1.0);
      && layout.FilingIndex(Coord(1.5, -0.5)) == 99
      && layout.QueryRow(1.5) == 1 && layout.QueryColumn(-0.5) == 0
    ensures var layout := Layout(0.0, 0.0, 1.0, 1.0);
      var n := PathPoint(1, Coord(1.5, -0.5));
      var m := PathPoint(2, Coord(1.5, 0.5));
      NearbyNodes([n, m], layout, n.pos) == [m]
  {
    var layout := Layout(0.0, 0.0, 1.0, 1.0);
    var n := PathPoint(1, Coord(1.5, -0.5));
    var m := PathPoint(2, Coord(1.5, 0.5));
    assert layout.FilingIndex(n.pos) == 99 && layout.FilingIndex(m.pos) == 100;
    assert layout.QueryRow(n.pos.lat) == 1 && layout.QueryColumn(n.pos.lon) == 0;
    CellsOfTwo(layout, n, m, 99, 100);
    WestBlock(Cells([n, m], layout), n, m);
  }

  lemma WestBlock(cells: seq<seq<PathPoint>>, n: PathPoint, m: PathPoint)
    requires |cells| == CellCount
    requires forall c | 0 <= c < CellCount :: cells[c] == if c == 99 then [n] else if c == 100 then [m] else []
    ensures Block(cells, 1, 0) == [m]
  {
    assert RowPart(cells, 1, 0, -1, 2) == [] by {
      assert cells[0] == [] && cells[1] == [];
    }
    assert RowPart(cells, 1, 0, 0, 2) == [m] by {
      assert cells[100] == [m] && cells[101] == [];
    }
    assert RowPart(cells, 1, 0, 1, 2) == [] by {
      assert cells[200] == [] && cells[201] == [];
    }
  }

  // ---------------------------------------------------------------------------
  // Snapping

  /**
   * The candidate `findNearestNode` picks: `Some(n)` exactly when some candidate is within
   * 20 km (exactly 20 km counts), `n` then being the first candidate at the least distance.
   */
  ghost predicate IsNearest(pos: Coord, cands: seq<PathPoint>, dist: Distance, nearest: Option<PathPoint>) {
    && (nearest.None? <==> forall j | 0 <= j < |cands| :: dist(pos, cands[j].pos) > MaxSnapDistance)
    && (nearest.Some? ==> exists k | 0 <= k < |cands| ::
          && nearest.value == cands[k]
          && dist(pos, cands[k].pos) <= MaxSnapDistance
          && (forall j | 0 <= j < |cands| :: dist(pos, cands[k].pos) <= dist(pos, cands[j].pos))
          && (forall j | 0 <= j < k :: dist(pos, cands[j].pos) > dist(pos, cands[k].pos)))
  }

  /**
   * The scan for the least distance, with the 20 km cut-off. Starting from the first
   * candidate is the same as starting from `Infinity`: the first distance is always smaller.
   */
  method NearestAmong(pos: Coord, nodesToSearch: seq<PathPoint>, dist: Distance) returns (nearest: Option<PathPoint>)
    ensures IsNearest(pos, nodesToSearch, dist, nearest)
  {
    if |nodesToSearch| == 0 {
      return None;
    }
    var minDistance: real := dist(pos, nodesToSearch[0].pos);
    var best := 0;
    for i := 1 to |nodesToSearch|
      invariant 0 <= best < i
      invariant minDistance == dist(pos, nodesToSearch[best].pos)
      invariant forall j | 0 <= j < i :: minDistance <= dist(pos, nodesToSearch[j].pos)
      invariant forall j | 0 <= j < best :: dist(pos, nodesToSearch[j].pos) > minDistance
    {
      var d := dist(pos, nodesToSearch[i].pos);
      if d < minDistance {
        minDistance := d;
        best := i;
      }
    }
    if minDistance > MaxSnapDistance {
      return None;
    }
    return Some(nodesToSearch[best]);
  }

  /** `findNearestNode`: the nearest of the nodes the index returns around `pos`. */
  method FindNearestNode(pos: Coord, index: SpatialIndex, dist: Distance) returns (nearest: Option<PathPoint>)
    requires index.Valid()
    ensures IsNearest(pos, NearbyNodes(index.nodesArray, index.layout, pos), dist, nearest)
    ensures nearest.Some? ==> nearest.value in index.nodesArray
  {
    var nodesToSearch := index.GetNearbyNodes(pos);
    QueryReturnsIndexedNodes(index.nodesArray, index.layout, pos);
    nearest := NearestAmong(pos, nodesToSearch, dist);
  }

  /** When some candidate lies within 20 km, a node is found, and it is no farther than that one. */
  lemma NearestFound(pos: Coord, cands: seq<PathPoint>, dist: Distance, nearest: Option<PathPoint>, k: nat)
    requires IsNearest(pos, cands, dist, nearest)
    requires k < |cands| && dist(pos, cands[k].pos) <= MaxSnapDistance
    ensures nearest.Some? && dist(pos, nearest.value.pos) <= dist(pos, cands[k].pos)
  {
  }
}
