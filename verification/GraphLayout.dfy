/**
 Geometric packing of the project graph (`layoutWithDagre`).

 dagre is foreign code: here it is an arbitrary function giving every node of a
 cluster a centre.  Whatever it answers, boxes of different components keep apart.
 */
module GraphLayout {
  import opened Components
  import opened Optional
  import opened Selection

  const GRID_GAP_X := 40.0
  const GRID_GAP_Y := 40.0
  const COMPONENT_GAP := 120.0

  datatype Position = Position(x: real, y: real)

  datatype NodeSize = NodeSize(width: real, height: real)

  /** The centres dagre computes for the nodes and edges it is handed. */
  type Dagre = (seq<string>, seq<Edge>, NodeSize) -> (string -> Position)

  predicate Positive(size: NodeSize) {
    size.width > 0.0 && size.height > 0.0
  }

  // ------------------------------------------------------------------
  // One cluster
  // ------------------------------------------------------------------

  /** The positions are dagre's centres, all moved by the same (dx, dy). */
  ghost predicate Translated(ids: seq<string>, centre: string -> Position, positions: map<string, Position>, dx: real,
                             dy: real) {
    forall id <- ids :: id in positions && positions[id] == Position(centre(id).x + dx, centre(id).y + dy)
  }

  /** The bounding box of the cluster is [0, width] by [0, ...), and it is tight. */
  ghost predicate Normalised(ids: seq<string>, size: NodeSize, positions: map<string, Position>, width: real) {
    && positions.Keys == (set id | id in ids)
    && (forall id <- ids :: 0.0 <= positions[id].x && positions[id].x + size.width <= width && 0.0 <= positions[id].y)
    && (exists id <- ids :: positions[id].x == 0.0)
    && (exists id <- ids :: positions[id].y == 0.0)
    && (exists id <- ids :: positions[id].x + size.width == width)
  }

  /** The bounding box of a nonempty cluster, with a node at its left, its top and its right edge. */
  datatype Box = Box(minX: real, minY: real, maxX: real, leftmost: string, topmost: string, rightmost: string)

  ghost predicate Bounds(ids: seq<string>, size: NodeSize, raw: map<string, Position>, box: Box) {
    && raw.Keys == (set id | id in ids)
    && (forall id <- ids :: box.minX <= raw[id].x && box.minY <= raw[id].y && raw[id].x + size.width <= box.maxX)
    && box.leftmost in ids && raw[box.leftmost].x == box.minX
    && box.topmost in ids && raw[box.topmost].y == box.minY
    && box.rightmost in ids && raw[box.rightmost].x + size.width == box.maxX
  }

  /** The running bounds widened by one more node. */
  function Widen(box: Box, id: string, p: Position, size: NodeSize): (wider: Box) {
    var b := if p.x < box.minX then box.(minX := p.x, leftmost := id) else box;
    var c := if p.y < b.minY then b.(minY := p.y, topmost := id) else b;
    if c.maxX < p.x + size.width then c.(maxX := p.x + size.width, rightmost := id) else c
  }

  lemma WidenBounds(ids: seq<string>, size: NodeSize, raw: map<string, Position>, box: Box, id: string, p: Position)
    requires Bounds(ids, size, raw, box) && (id in raw ==> raw[id] == p)
    ensures Bounds(ids + [id], size, raw[id := p], Widen(box, id, p, size))
  {
  }

  function TopLeft(centre: Position, size: NodeSize): Position {
    Position(centre.x - size.width / 2.0, centre.y - size.height / 2.0)
  }

  /** The first loop of `layoutComponent`: top-left corners and the bounding box. */
  method Measure(ids: seq<string>, centre: string -> Position, size: NodeSize)
    returns (raw: map<string, Position>, box: Box)
    requires ids != []
    ensures Bounds(ids, size, raw, box)
    ensures Translated(ids, centre, raw, -(size.width / 2.0), -(size.height / 2.0))
  {
    var p := TopLeft(centre(ids[0]), size);
    raw := map[ids[0] := p];
    box := Box(p.x, p.y, p.x + size.width, ids[0], ids[0], ids[0]);
    for k := 1 to |ids|
      invariant Bounds(ids[..k], size, raw, box)
      invariant Translated(ids[..k], centre, raw, -(size.width / 2.0), -(size.height / 2.0))
    {
      p := TopLeft(centre(ids[k]), size);
      assert ids[..k + 1] == ids[..k] + [ids[k]];
      WidenBounds(ids[..k], size, raw, box, ids[k], p);
      raw := raw[ids[k] := p];
      box := Widen(box, ids[k], p, size);
    }
    assert ids[..|ids|] == ids;
  }

  method LayoutComponent(ids: seq<string>, centre: string -> Position, size: NodeSize)
    returns (positions: map<string, Position>, width: real, ghost dx: real, ghost dy: real)
    requires ids != []
    ensures Normalised(ids, size, positions, width)
    ensures Translated(ids, centre, positions, dx, dy)
  {
    var raw, box := Measure(ids, centre, size);
    var minX, minY, maxX := box.minX, box.minY, box.maxX;
    positions := map[];
    for k := 0 to |ids|
      invariant positions.Keys == (set id | id in ids[..k])
      invariant forall id <- ids[..k] :: positions[id] == Position(raw[id].x - minX, raw[id].y - minY)
    {
      assert ids[..k + 1] == ids[..k] + [ids[k]];
      positions := positions[ids[k] := Position(raw[ids[k]].x - minX, raw[ids[k]].y - minY)];
    }
    assert ids[..|ids|] == ids;
    width := maxX - minX;
    dx, dy := -(size.width / 2.0) - minX, -(size.height / 2.0) - minY;
    assert positions[box.leftmost].x == 0.0 && positions[box.topmost].y == 0.0;
    assert positions[box.rightmost].x + size.width == width;
  }

  // ------------------------------------------------------------------
  // The grid of isolated nodes
  // ------------------------------------------------------------------

  /** The square root rounded up: the least c with n <= c * c. */
  function CeilSqrt(n: nat): (c: nat)
    ensures n <= c * c
    ensures c > 0 ==> (c - 1) * (c - 1) < n
  {
    if n == 0 then 0
    else
      var c := CeilSqrt(n - 1);
      if n <= c * c then c else c + 1
  }

  function Cell(col: nat, row: nat, size: NodeSize): (p: Position) {
    Position(col as real * (size.width + GRID_GAP_X), row as real * (size.height + GRID_GAP_Y))
  }

  lemma ScaleMonotone(a: nat, b: nat, step: real)
    requires a <= b && step >= 0.0
    ensures a as real * step <= b as real * step
  {
  }

  /** Different cells of the grid are a whole gap apart in x or in y. */
  ghost predicate GridApart(size: NodeSize, p: Position, q: Position) {
    || p.x + size.width + GRID_GAP_X <= q.x
    || q.x + size.width + GRID_GAP_X <= p.x
    || p.y + size.height + GRID_GAP_Y <= q.y
    || q.y + size.height + GRID_GAP_Y <= p.y
  }

  /** A later cell starts at least one extent and one gap after an earlier one. */
  lemma CellStarts(a: nat, b: nat, extent: real, gap: real)
    requires a < b && extent + gap >= 0.0
    ensures a as real * (extent + gap) + extent + gap <= b as real * (extent + gap)
  {
    var step := extent + gap;
    ScaleMonotone(a + 1, b, step);
    assert (a + 1) as real * step == a as real * step + step;
  }

  lemma CellsApart(col: nat, row: nat, col': nat, row': nat, size: NodeSize)
    requires (col, row) != (col', row') && Positive(size)
    ensures GridApart(size, Cell(col, row, size), Cell(col', row', size))
  {
    if col < col' {
      CellStarts(col, col', size.width, GRID_GAP_X);
    } else if col' < col {
      CellStarts(col', col, size.width, GRID_GAP_X);
    } else if row < row' {
      CellStarts(row, row', size.height, GRID_GAP_Y);
    } else {
      CellStarts(row', row, size.height, GRID_GAP_Y);
    }
  }

  /** The grid is at most as many rows high as it is columns wide, never one long column. */
  lemma GridIsCompact(index: nat, count: nat, columns: nat)
    requires index < count && columns == CeilSqrt(count)
    ensures columns > 0 && index % columns < columns && index / columns < columns
  {
    QuotientBelow(index, columns);
  }

  lemma QuotientBelow(index: nat, columns: nat)
    requires columns > 0 && index < columns * columns
    ensures index / columns < columns
  {
    var row := index / columns;
    assert index == columns * row + index % columns;
    if row >= columns {
      RowsTooMany(columns, row);
    }
  }

  lemma RowsTooMany(columns: nat, row: nat)
    requires row >= columns
    ensures columns * row >= columns * columns
  {
  }

  /** The cell of the node with index `k`. */
  function CellAt(k: nat, columns: nat, size: NodeSize): (p: Position)
    requires columns > 0
  {
    Cell(k % columns, k / columns, size)
  }

  lemma CellsAtApart(i: nat, j: nat, columns: nat, size: NodeSize)
    requires columns > 0 && i != j && Positive(size)
    ensures GridApart(size, CellAt(i, columns, size), CellAt(j, columns, size))
  {
    CellsApart(i % columns, i / columns, j % columns, j / columns, size);
  }

  lemma CellAtEnds(k: nat, columns: nat, size: NodeSize)
    requires Positive(size) && columns > 0 && k % columns < columns && k / columns < columns
    ensures InSquare(CellAt(k, columns, size), size, columns)
    ensures EndsBefore(CellAt(k, columns, size), size, GridEnd(columns, size))
  {
    var col, row := k % columns, k / columns;
    CellEnds(col, row, columns, size);
  }

  /** Where the first cluster may start after a grid of that many columns. */
  function GridEnd(columns: nat, size: NodeSize): real {
    columns as real * (size.width + GRID_GAP_X) - GRID_GAP_X + COMPONENT_GAP
  }

  /** The cells of a grid of `count` nodes: pairwise a grid gap apart, inside the square, before `end`. */
  ghost predicate GoodCells(cells: seq<Position>, columns: nat, size: NodeSize, end: real) {
    && (forall i, j | 0 <= i < j < |cells| :: GridApart(size, cells[i], cells[j]))
    && (forall k | 0 <= k < |cells| :: InSquare(cells[k], size, columns) && EndsBefore(cells[k], size, end))
  }

  function Cells(count: nat, columns: nat, size: NodeSize): (cells: seq<Position>)
    requires columns > 0
  {
    seq(count, k requires 0 <= k => CellAt(k, columns, size))
  }

  lemma CellsAreGood(count: nat, size: NodeSize)
    requires count > 0 && Positive(size)
    ensures CeilSqrt(count) > 0
    ensures GoodCells(Cells(count, CeilSqrt(count), size), CeilSqrt(count), size, GridEnd(CeilSqrt(count), size))
  {
    var columns := CeilSqrt(count);
    GridIsCompact(0, count, columns);
    var cells := Cells(count, columns, size);
    forall i, j | 0 <= i < j < |cells|
      ensures GridApart(size, cells[i], cells[j])
    {
      CellsAtApart(i, j, columns, size);
    }
    forall k | 0 <= k < |cells|
      ensures InSquare(cells[k], size, columns) && EndsBefore(cells[k], size, GridEnd(columns, size))
    {
      GridIsCompact(k, count, columns);
      CellAtEnds(k, columns, size);
    }
  }

  /** No two boxes of the grid overlap; they are a full grid gap apart. */
  ghost predicate GridSafe(ids: seq<string>, size: NodeSize, positions: map<string, Position>) {
    && positions.Keys == (set id | id in ids)
    && forall a, b | a in ids && b in ids && a != b :: GridApart(size, positions[a], positions[b])
  }

  ghost predicate PlacedAt(ids: seq<string>, cells: seq<Position>, positions: map<string, Position>) {
    && |ids| == |cells|
    && positions.Keys == (set id | id in ids)
    && forall k | 0 <= k < |ids| :: positions[ids[k]] == cells[k]
  }

  /** The isolated nodes fill the grid row by row, in their order. */
  ghost predicate OnCells(isolated: seq<string>, size: NodeSize, positions: map<string, Position>) {
    forall k | 0 <= k < |isolated| :: AtCell(isolated[k], k, CeilSqrt(|isolated|), size, positions)
  }

  ghost predicate AtCell(id: string, k: nat, columns: nat, size: NodeSize, positions: map<string, Position>) {
    columns > 0 && id in positions && positions[id] == CellAt(k, columns, size)
  }

  /**
   The grid as one sees it: the first node at the origin, every other one to the right of the one
   before it, or, when the row is full, at the left of the next row.
   */
  ghost predicate RowByRow(isolated: seq<string>, size: NodeSize, positions: map<string, Position>) {
    && (forall id <- isolated :: id in positions)
    && (isolated != [] ==> positions[isolated[0]] == Position(0.0, 0.0))
    && forall k | 0 < k < |isolated| ::
         NextPlace(positions[isolated[k - 1]], positions[isolated[k]], k, CeilSqrt(|isolated|), size)
  }

  predicate NextPlace(p: Position, q: Position, k: nat, columns: nat, size: NodeSize) {
    && columns > 0
    && q == if k % columns == 0 then Position(0.0, p.y + size.height + GRID_GAP_Y)
            else Position(p.x + size.width + GRID_GAP_X, p.y)
  }

  /** `x` is a component gap behind the rightmost box of the grid, or 0 when there is none. */
  ghost predicate StartsBehind(isolated: seq<string>, size: NodeSize, positions: map<string, Position>, x: real) {
    && (forall id <- isolated :: id in positions && positions[id].x + size.width + COMPONENT_GAP <= x)
    && if isolated == [] then x == 0.0
       else exists id <- isolated :: id in positions && positions[id].x + size.width + COMPONENT_GAP == x
  }

  lemma NextInRow(k: nat, columns: nat)
    requires k > 0 && columns > 0 && k % columns != 0
    ensures (k - 1) % columns == k % columns - 1 && (k - 1) / columns == k / columns
  {
    var row, col := k / columns, k % columns;
    assert k - 1 == columns * row + (col - 1);
    QuotientIs(k - 1, columns, row, col - 1);
  }

  lemma NextRow(k: nat, columns: nat)
    requires k > 0 && columns > 0 && k % columns == 0
    ensures k / columns > 0 && (k - 1) / columns == k / columns - 1
  {
    var row := k / columns;
    assert k == columns * row;
    assert k - 1 == columns * (row - 1) + (columns - 1);
    QuotientIs(k - 1, columns, row - 1, columns - 1);
  }

  lemma QuotientIs(n: nat, d: nat, q: int, r: nat)
    requires d > 0 && n == d * q + r && r < d
    ensures n / d == q && n % d == r
  {
    var q', r' := n / d, n % d;
    assert n == d * q' + r' && d * (q - q') == r' - r;
    if q > q' {
      TimesAtLeast(d, q - q');
    } else if q < q' {
      TimesAtLeast(d, q' - q);
    }
  }

  lemma TimesAtLeast(d: nat, n: nat)
    requires n >= 1
    ensures d * n >= d
  {
  }

  lemma CellsFollow(k: nat, columns: nat, size: NodeSize)
    requires k > 0 && columns > 0
    ensures NextPlace(CellAt(k - 1, columns, size), CellAt(k, columns, size), k, columns, size)
  {
    if k % columns == 0 {
      NextRow(k, columns);
      OneStep(k / columns, size.height + GRID_GAP_Y);
    } else {
      NextInRow(k, columns);
      OneStep(k % columns, size.width + GRID_GAP_X);
    }
  }

  lemma OneStep(n: nat, step: real)
    requires n > 0
    ensures n as real * step == (n - 1) as real * step + step && 0 as real * step == 0.0
  {
  }

  lemma OnCellsRowByRow(isolated: seq<string>, size: NodeSize, positions: map<string, Position>)
    requires OnCells(isolated, size, positions)
    ensures RowByRow(isolated, size, positions)
  {
    var columns := CeilSqrt(|isolated|);
    forall k | 0 < k < |isolated|
      ensures NextPlace(positions[isolated[k - 1]], positions[isolated[k]], k, columns, size)
    {
      assert AtCell(isolated[k - 1], k - 1, columns, size, positions);
      assert AtCell(isolated[k], k, columns, size, positions);
      CellsFollow(k, columns, size);
    }
    assert isolated != [] ==> AtCell(isolated[0], 0, columns, size, positions);
  }

  /** The last box of the first row ends a component gap before the cursor. */
  lemma FirstRowIsFull(isolated: seq<string>, size: NodeSize, positions: map<string, Position>)
    requires OnCells(isolated, size, positions) && isolated != []
    requires forall id <- isolated :: id in positions && EndsBefore(positions[id], size, GridCursor(|isolated|, size))
    ensures StartsBehind(isolated, size, positions, GridCursor(|isolated|, size))
  {
    var columns := CeilSqrt(|isolated|);
    RootIsSmaller(|isolated|);
    var last := columns - 1;
    assert AtCell(isolated[last], last, columns, size, positions);
    QuotientIs(last, columns, 0, last);
    OneStep(columns, size.width + GRID_GAP_X);
    assert isolated[last] in isolated;
  }

  lemma RootIsSmaller(n: nat)
    requires n > 0
    ensures 0 < CeilSqrt(n) <= n
  {
    RootBelow(n, CeilSqrt(n));
  }

  lemma RootBelow(n: nat, c: nat)
    requires n <= c * c && c > 0 && (c - 1) * (c - 1) < n
    ensures c <= n
  {
    SquareAtLeast(c - 1);
  }

  lemma SquareAtLeast(m: nat)
    ensures m * m >= m
  {
  }

  /** Where the first cluster starts. */
  function GridCursor(count: nat, size: NodeSize): real {
    if count == 0 then 0.0 else GridEnd(CeilSqrt(count), size)
  }

  method PlaceGrid(isolated: seq<string>, size: NodeSize) returns (positions: map<string, Position>, xCursor: real)
    requires Positive(size) && Distinct(isolated)
    ensures GridSafe(isolated, size, positions)
    ensures RowByRow(isolated, size, positions) && StartsBehind(isolated, size, positions, xCursor)
    ensures IsCompact(isolated, size, positions)
    ensures xCursor >= 0.0 && forall id <- isolated :: EndsBefore(positions[id], size, xCursor)
  {
    positions, xCursor := map[], 0.0;
    if |isolated| > 0 {
      var columns := if CeilSqrt(|isolated|) < 1 then 1 else CeilSqrt(|isolated|);
      CellsAreGood(|isolated|, size);
      positions := FillCells(isolated, columns, size);
      xCursor := GridEnd(columns, size);
      assert EndsBefore(positions[isolated[0]], size, xCursor);
      FirstRowIsFull(isolated, size, positions);
    }
    OnCellsRowByRow(isolated, size, positions);
  }

  /** The loop over the isolated nodes. */
  method FillCells(isolated: seq<string>, columns: nat, size: NodeSize) returns (positions: map<string, Position>)
    requires columns > 0 && Distinct(isolated)
    ensures PlacedAt(isolated, Cells(|isolated|, columns, size), positions)
  {
    positions := map[];
    ghost var cells := Cells(|isolated|, columns, size);
    for k := 0 to |isolated|
      invariant PlacedAt(isolated[..k], cells[..k], positions)
    {
      assert isolated[..k + 1] == isolated[..k] + [isolated[k]];
      assert cells[..k + 1] == cells[..k] + [cells[k]];
      positions := positions[isolated[k] := CellAt(k, columns, size)];
    }
    assert isolated[..|isolated|] == isolated && cells[..|isolated|] == cells;
  }

  ghost predicate Distinct(ids: seq<string>) {
    forall i, j | 0 <= i < j < |ids| :: ids[i] != ids[j]
  }

  /** The box is one of the columns * columns cells of the grid. */
  ghost predicate InSquare(p: Position, size: NodeSize, columns: nat) {
    exists col: nat, row: nat :: col < columns && row < columns && p == Cell(col, row, size)
  }

  /** The box lies in the positive quadrant and leaves a whole component gap before `x`. */
  ghost predicate EndsBefore(p: Position, size: NodeSize, x: real) {
    0.0 <= p.x && 0.0 <= p.y && p.x + size.width + COMPONENT_GAP <= x
  }

  lemma CellEnds(col: nat, row: nat, columns: nat, size: NodeSize)
    requires Positive(size) && col < columns
    ensures EndsBefore(Cell(col, row, size), size,
                       columns as real * (size.width + GRID_GAP_X) - GRID_GAP_X + COMPONENT_GAP)
  {
    ScaleMonotone(0, col, size.width + GRID_GAP_X);
    ScaleMonotone(0, row, size.height + GRID_GAP_Y);
    CellStarts(col, columns, size.width, GRID_GAP_X);
  }

  // ------------------------------------------------------------------
  // The slots of the clusters
  // ------------------------------------------------------------------

  /** The cluster keeps the shape dagre gave it. */
  ghost predicate KeepsShape(cluster: seq<string>, centre: string -> Position, positions: map<string, Position>) {
    exists dx, dy :: Translated(cluster, centre, positions, dx, dy)
  }

  /** The slot from `left` to a component gap before `next` is the bounding box of the cluster, the top edge at 0. */
  ghost predicate FillsSlot(cluster: seq<string>, size: NodeSize, positions: map<string, Position>, left: real,
                            next: real) {
    && (forall id <- cluster :: id in positions && left <= positions[id].x && EndsBefore(positions[id], size, next))
    && (exists id <- cluster :: positions[id].x == left)
    && (exists id <- cluster :: positions[id].y == 0.0)
    && (exists id <- cluster :: positions[id].x + size.width + COMPONENT_GAP == next)
  }

  /** The loop over the nodes of a cluster. */
  method MoveIn(cluster: seq<string>, inner: map<string, Position>, before: map<string, Position>, xCursor: real)
    returns (after: map<string, Position>)
    requires forall id <- cluster :: id in inner
    ensures after.Keys == before.Keys + set id | id in cluster
    ensures forall id <- before | id !in cluster :: after[id] == before[id]
    ensures forall id <- cluster :: after[id] == Position(inner[id].x + xCursor, inner[id].y)
  {
    after := before;
    for k := 0 to |cluster|
      invariant after.Keys == before.Keys + set id | id in cluster[..k]
      invariant forall id <- before | id !in cluster :: after[id] == before[id]
      invariant forall id <- cluster[..k] :: after[id] == Position(inner[id].x + xCursor, inner[id].y)
    {
      assert cluster[..k + 1] == cluster[..k] + [cluster[k]];
      after := after[cluster[k] := Position(inner[cluster[k]].x + xCursor, inner[cluster[k]].y)];
    }
    assert cluster[..|cluster|] == cluster;
  }

  /** One round of the cluster loop: the cluster goes as a rigid body into the slot starting at `xCursor`. */
  method PlaceCluster(cluster: seq<string>, centre: string -> Position, size: NodeSize,
                      before: map<string, Position>, xCursor: real)
    returns (after: map<string, Position>, next: real)
    requires cluster != [] && xCursor >= 0.0 && Positive(size)
    ensures after.Keys == before.Keys + set id | id in cluster
    ensures forall id <- before | id !in cluster :: after[id] == before[id]
    ensures forall id <- cluster :: xCursor <= after[id].x && EndsBefore(after[id], size, next)
    ensures KeepsShape(cluster, centre, after)
    ensures FillsSlot(cluster, size, after, xCursor, next) && next >= xCursor
  {
    var inner, width, dx, dy := LayoutComponent(cluster, centre, size);
    after := MoveIn(cluster, inner, before, xCursor);
    assert Translated(cluster, centre, after, dx + xCursor, dy);
    assert cluster[0] in cluster;
    next := xCursor + width + COMPONENT_GAP;
  }

  function Singles(groups: seq<seq<string>>): (singles: seq<string>) {
    if groups == [] then []
    else if |groups[0]| == 1 then [groups[0][0]] + Singles(groups[1..])
    else Singles(groups[1..])
  }

  function Clusters(groups: seq<seq<string>>): (clusters: seq<seq<string>>) {
    if groups == [] then []
    else if |groups[0]| > 1 then [groups[0]] + Clusters(groups[1..])
    else Clusters(groups[1..])
  }

  function IfSingle(group: seq<string>): Option<string> {
    if |group| == 1 then Some(group[0]) else None
  }

  function IfCluster(group: seq<string>): Option<seq<string>> {
    if |group| > 1 then Some(group) else None
  }

  /** Both keep the order of the groups. */
  lemma {:induction false} GroupsAreSorted(groups: seq<seq<string>>)
    ensures Selects(groups, IfSingle, Singles(groups)) && Selects(groups, IfCluster, Clusters(groups))
  {
    if groups == [] {
      SelectsNone<seq<string>, string>(IfSingle);
      SelectsNone<seq<string>, seq<string>>(IfCluster);
    } else {
      GroupsAreSorted(groups[1..]);
      SelectsFirst(groups, IfSingle, Singles(groups), Singles(groups[1..]));
      SelectsFirst(groups, IfCluster, Clusters(groups), Clusters(groups[1..]));
    }
  }

  ghost predicate PairwiseDisjoint(groups: seq<seq<string>>) {
    forall i, j, x | 0 <= i < j < |groups| && x in groups[i] :: x !in groups[j]
  }

  lemma {:induction false} SinglesAreGroups(groups: seq<seq<string>>, x: string)
    ensures x in Singles(groups) <==> [x] in groups
  {
    if groups != [] {
      SinglesAreGroups(groups[1..], x);
      assert groups == [groups[0]] + groups[1..];
      assert |groups[0]| == 1 ==> groups[0] == [groups[0][0]];
    }
  }

  lemma {:induction false} ClustersAreGroups(groups: seq<seq<string>>, g: seq<string>)
    ensures g in Clusters(groups) <==> g in groups && |g| > 1
  {
    if groups != [] {
      ClustersAreGroups(groups[1..], g);
      assert groups == [groups[0]] + groups[1..];
    }
  }

  lemma HeadIsDisjoint(groups: seq<seq<string>>, g: seq<string>, x: string)
    requires PairwiseDisjoint(groups) && groups != [] && x in groups[0] && g in groups[1..]
    ensures x !in g
  {
    var j :| 0 <= j < |groups[1..]| && groups[1..][j] == g;
    assert groups[j + 1] == g;
  }

  lemma {:induction false} SinglesDistinct(groups: seq<seq<string>>)
    requires PairwiseDisjoint(groups)
    ensures Distinct(Singles(groups))
  {
    if groups != [] {
      SinglesDistinct(groups[1..]);
      if |groups[0]| == 1 {
        var x := groups[0][0];
        SinglesAreGroups(groups[1..], x);
        if [x] in groups[1..] {
          HeadIsDisjoint(groups, [x], x);
        }
      }
    }
  }

  lemma {:induction false} ClustersDisjoint(groups: seq<seq<string>>)
    requires PairwiseDisjoint(groups)
    ensures PairwiseDisjoint(Clusters(groups))
  {
    if groups != [] {
      ClustersDisjoint(groups[1..]);
      forall c, x | c in Clusters(groups[1..]) && x in groups[0]
        ensures x !in c
      {
        ClustersAreGroups(groups[1..], c);
        HeadIsDisjoint(groups, c, x);
      }
    }
  }

  lemma SinglesOutsideClusters(groups: seq<seq<string>>, x: string, c: seq<string>)
    requires PairwiseDisjoint(groups)
    requires x in Singles(groups) && c in Clusters(groups)
    ensures x !in c
  {
    SinglesAreGroups(groups, x);
    ClustersAreGroups(groups, c);
    var i :| 0 <= i < |groups| && groups[i] == [x];
    var j :| 0 <= j < |groups| && groups[j] == c;
    assert x in groups[i];
  }

  lemma SinglesAndClusters(groups: seq<seq<string>>)
    requires PairwiseDisjoint(groups)
    ensures Distinct(Singles(groups)) && PairwiseDisjoint(Clusters(groups))
    ensures forall c <- Clusters(groups) :: c != [] && forall id <- c :: id !in Singles(groups)
  {
    SinglesDistinct(groups);
    ClustersDisjoint(groups);
    forall c | c in Clusters(groups)
      ensures c != []
      ensures forall id <- c :: id !in Singles(groups)
    {
      ClustersAreGroups(groups, c);
      forall id | id in c && id in Singles(groups)
        ensures false
      {
        SinglesOutsideClusters(groups, id, c);
      }
    }
  }

  // ------------------------------------------------------------------
  // The whole layout
  // ------------------------------------------------------------------

  /** The two boxes are in different horizontal slots, a whole component gap apart. */
  ghost predicate SlotsApart(size: NodeSize, p: Position, q: Position) {
    p.x + size.width + COMPONENT_GAP <= q.x || q.x + size.width + COMPONENT_GAP <= p.x
  }

  /** What the cluster loop has placed: slot after slot to the right of everything placed before. */
  ghost predicate InSlots(isolated: seq<string>, clusters: seq<seq<string>>, size: NodeSize,
                          positions: map<string, Position>, xCursor: real) {
    && (forall id :: id in positions <==> id in isolated || InSome(clusters, id))
    && (forall id <- positions :: EndsBefore(positions[id], size, xCursor))
    && (forall c, a, b {:trigger a in isolated, b in c} | c in clusters && a in isolated && b in c ::
        AreApart(size, positions, a, b))
    && (forall i, j, a, b {:trigger a in clusters[i], b in clusters[j]} |
        0 <= i < j < |clusters| && a in clusters[i] && b in clusters[j] ::
          AreApart(size, positions, a, b))
  }

  ghost predicate AreApart(size: NodeSize, positions: map<string, Position>, a: string, b: string) {
    a in positions && b in positions && SlotsApart(size, positions[a], positions[b])
  }

  ghost predicate InSome(clusters: seq<seq<string>>, id: string) {
    exists c <- clusters :: id in c
  }

  /** What one round of the cluster loop does to the positions. */
  ghost predicate Extends(before: map<string, Position>, cluster: seq<string>, after: map<string, Position>) {
    && (forall id :: id in after <==> id in before || id in cluster)
    && (forall id <- before | id !in cluster :: after[id] == before[id])
  }

  lemma InSlotsNext(isolated: seq<string>, clusters: seq<seq<string>>, cluster: seq<string>, size: NodeSize,
                    before: map<string, Position>, xCursor: real, after: map<string, Position>, next: real)
    requires InSlots(isolated, clusters, size, before, xCursor) && Extends(before, cluster, after) && xCursor <= next
    requires forall id <- cluster :: id !in before
    requires forall id <- cluster :: xCursor <= after[id].x && EndsBefore(after[id], size, next)
    ensures InSlots(isolated, clusters + [cluster], size, after, next)
  {
    var more := clusters + [cluster];
    assert forall id :: InSome(more, id) <==> InSome(clusters, id) || id in cluster;
    forall i, j, a, b | 0 <= i < j < |more| && a in more[i] && b in more[j]
      ensures AreApart(size, after, a, b)
    {
      assert more[i] == clusters[i] && InSome(clusters, a);
      assert j < |clusters| ==> more[j] == clusters[j];
    }
  }

  /** Every cluster keeps the shape dagre gave it when handed that cluster and the edges inside it. */
  ghost predicate ShapesKept(clusters: seq<seq<string>>, edges: seq<Edge>, size: NodeSize, dagre: Dagre,
                             positions: map<string, Position>) {
    forall c <- clusters :: KeepsShape(c, dagre(c, EdgesWithin(edges, c), size), positions)
  }

  /** The edges with both ends in the cluster. */
  function EdgesWithin(edges: seq<Edge>, cluster: seq<string>): (inner: seq<Edge>)
    ensures forall e :: e in inner <==> e in edges && e.from in cluster && e.to in cluster
  {
    if edges == [] then []
    else if edges[0].from in cluster && edges[0].to in cluster then [edges[0]] + EdgesWithin(edges[1..], cluster)
    else EdgesWithin(edges[1..], cluster)
  }

  function Inside(cluster: seq<string>): Edge -> Option<Edge> {
    (e: Edge) => if e.from in cluster && e.to in cluster then Some(e) else None
  }

  /** As often, and in the order, as the project has them. */
  lemma {:induction false} EdgesKeepOrder(edges: seq<Edge>, cluster: seq<string>)
    ensures Selects(edges, Inside(cluster), EdgesWithin(edges, cluster))
  {
    if edges == [] {
      SelectsNone(Inside(cluster));
    } else {
      EdgesKeepOrder(edges[1..], cluster);
      SelectsFirst(edges, Inside(cluster), EdgesWithin(edges, cluster), EdgesWithin(edges[1..], cluster));
    }
  }

  lemma ShapeSurvives(c: seq<string>, centre: string -> Position, before: map<string, Position>,
                      cluster: seq<string>, after: map<string, Position>)
    requires KeepsShape(c, centre, before) && Extends(before, cluster, after)
    requires forall id <- c :: id !in cluster
    ensures KeepsShape(c, centre, after)
  {
    var dx, dy :| Translated(c, centre, before, dx, dy);
    assert Translated(c, centre, after, dx, dy);
  }

  lemma ShapesNext(clusters: seq<seq<string>>, k: nat, edges: seq<Edge>, size: NodeSize, dagre: Dagre,
                   before: map<string, Position>, after: map<string, Position>)
    requires k < |clusters| && PairwiseDisjoint(clusters) && Extends(before, clusters[k], after)
    requires ShapesKept(clusters[..k], edges, size, dagre, before)
    requires KeepsShape(clusters[k], dagre(clusters[k], EdgesWithin(edges, clusters[k]), size), after)
    ensures ShapesKept(clusters[..k + 1], edges, size, dagre, after)
  {
    forall i | 0 <= i < k
      ensures KeepsShape(clusters[i], dagre(clusters[i], EdgesWithin(edges, clusters[i]), size), after)
    {
      assert clusters[i] in clusters[..k];
      ShapeSurvives(clusters[i], dagre(clusters[i], EdgesWithin(edges, clusters[i]), size), before, clusters[k], after);
    }
    assert clusters[..k + 1] == clusters[..k] + [clusters[k]];
  }

  /** The next cluster has nothing in common with what is placed already. */
  lemma FreshCluster(isolated: seq<string>, clusters: seq<seq<string>>, k: nat)
    requires k < |clusters| && PairwiseDisjoint(clusters)
    requires forall c <- clusters :: c != [] && forall id <- c :: id !in isolated
    ensures clusters[k] != []
    ensures forall id <- clusters[k] :: id !in isolated && !InSome(clusters[..k], id)
  {
    assert clusters[k] in clusters;
    forall id | id in clusters[k]
      ensures !InSome(clusters[..k], id)
    {
    }
  }

  /** The state of the cluster loop: the grid stays, the clusters so far have their slots and their shapes. */
  ghost predicate Packed(isolated: seq<string>, clusters: seq<seq<string>>, edges: seq<Edge>, size: NodeSize,
                         dagre: Dagre, grid: map<string, Position>, positions: map<string, Position>, xCursor: real) {
    && xCursor >= 0.0
    && InSlots(isolated, clusters, size, positions, xCursor)
    && (forall id <- isolated :: id in grid && positions[id] == grid[id])
    && ShapesKept(clusters, edges, size, dagre, positions)
  }

  lemma PackedNext(isolated: seq<string>, clusters: seq<seq<string>>, k: nat, edges: seq<Edge>, size: NodeSize,
                   dagre: Dagre, grid: map<string, Position>, before: map<string, Position>, xCursor: real,
                   after: map<string, Position>, next: real)
    requires k < |clusters| && PairwiseDisjoint(clusters)
    requires forall c <- clusters :: c != [] && forall id <- c :: id !in isolated
    requires Packed(isolated, clusters[..k], edges, size, dagre, grid, before, xCursor)
    requires Extends(before, clusters[k], after) && xCursor <= next
    requires forall id <- clusters[k] :: xCursor <= after[id].x && EndsBefore(after[id], size, next)
    requires KeepsShape(clusters[k], dagre(clusters[k], EdgesWithin(edges, clusters[k]), size), after)
    ensures Packed(isolated, clusters[..k + 1], edges, size, dagre, grid, after, next)
  {
    FreshCluster(isolated, clusters, k);
    InSlotsNext(isolated, clusters[..k], clusters[k], size, before, xCursor, after, next);
    ShapesNext(clusters, k, edges, size, dagre, before, after);
    assert clusters[..k + 1] == clusters[..k] + [clusters[k]];
  }

  /** The slots of the clusters, one after the other without further gaps: `starts[i]` is where slot `i` begins. */
  ghost predicate Tiled(clusters: seq<seq<string>>, size: NodeSize, positions: map<string, Position>,
                        starts: seq<real>) {
    && |starts| == |clusters| + 1
    && forall i | 0 <= i < |clusters| :: FillsSlot(clusters[i], size, positions, starts[i], starts[i + 1])
  }

  lemma TiledNext(clusters: seq<seq<string>>, k: nat, size: NodeSize, before: map<string, Position>, starts: seq<real>,
                  after: map<string, Position>, next: real)
    requires k < |clusters| && PairwiseDisjoint(clusters) && Extends(before, clusters[k], after)
    requires Tiled(clusters[..k], size, before, starts) && FillsSlot(clusters[k], size, after, starts[k], next)
    ensures Tiled(clusters[..k + 1], size, after, starts + [next])
  {
    var more := starts + [next];
    forall i | 0 <= i < k + 1
      ensures FillsSlot(clusters[..k + 1][i], size, after, more[i], more[i + 1])
    {
      if i < k {
        assert clusters[..k][i] == clusters[i];
      }
    }
  }

  /** The cluster loop. */
  method PlaceClusters(isolated: seq<string>, clusters: seq<seq<string>>, edges: seq<Edge>, size: NodeSize,
                       dagre: Dagre, grid: map<string, Position>, start: real)
    returns (positions: map<string, Position>, xCursor: real, ghost starts: seq<real>)
    requires Positive(size) && start >= 0.0 && PairwiseDisjoint(clusters)
    requires forall c <- clusters :: c != [] && forall id <- c :: id !in isolated
    requires InSlots(isolated, [], size, grid, start)
    ensures Packed(isolated, clusters, edges, size, dagre, grid, positions, xCursor)
    ensures Tiled(clusters, size, positions, starts) && starts[0] == start && starts[|clusters|] == xCursor
  {
    positions, xCursor, starts := grid, start, [start];
    for k := 0 to |clusters|
      invariant Packed(isolated, clusters[..k], edges, size, dagre, grid, positions, xCursor)
      invariant Tiled(clusters[..k], size, positions, starts) && starts[0] == start && starts[k] == xCursor
    {
      var cluster := clusters[k];
      assert cluster in clusters;
      ghost var before, at := positions, xCursor;
      var shape := dagre(cluster, EdgesWithin(edges, cluster), size);
      positions, xCursor := PlaceCluster(cluster, shape, size, positions, xCursor);
      PackedNext(isolated, clusters, k, edges, size, dagre, grid, before, at, positions, xCursor);
      TiledNext(clusters, k, size, before, starts, positions, xCursor);
      starts := starts + [xCursor];
    }
    assert clusters[..|clusters|] == clusters;
  }

  /** No chain of edges leads from the node to another one. */
  ghost predicate Lone(ids: seq<string>, edges: seq<Edge>, a: string) {
    forall b <- ids :: Connected(ids, edges, a, b) ==> b == a
  }

  /**
   Layout safety: every node gets a position, and two unconnected nodes are in
   different slots, a component gap apart, unless both are isolated; two isolated
   nodes are in different cells of the grid, a grid gap apart.
   */
  ghost predicate SafeLayout(ids: seq<string>, edges: seq<Edge>, size: NodeSize, positions: map<string, Position>) {
    && positions.Keys == (set id | id in ids)
    && (forall id <- ids :: 0.0 <= positions[id].x && 0.0 <= positions[id].y)
    && forall a, b | a in ids && b in ids && !Connected(ids, edges, a, b) ::
         || SlotsApart(size, positions[a], positions[b])
         || (Lone(ids, edges, a) && Lone(ids, edges, b) && GridApart(size, positions[a], positions[b]))
  }

  lemma GridStays(isolated: seq<string>, size: NodeSize, grid: map<string, Position>, positions: map<string, Position>,
                  x: real)
    requires RowByRow(isolated, size, grid) && StartsBehind(isolated, size, grid, x)
    requires forall id <- isolated :: id in positions && positions[id] == grid[id]
    ensures RowByRow(isolated, size, positions) && StartsBehind(isolated, size, positions, x)
  {
    forall k | 0 < k < |isolated|
      ensures NextPlace(positions[isolated[k - 1]], positions[isolated[k]], k, CeilSqrt(|isolated|), size)
    {
      assert isolated[k - 1] in isolated && isolated[k] in isolated;
      assert NextPlace(grid[isolated[k - 1]], grid[isolated[k]], k, CeilSqrt(|isolated|), size);
    }
    if isolated != [] {
      var id :| id in isolated && id in grid && grid[id].x + size.width + COMPONENT_GAP == x;
      assert id in positions;
    }
  }

  /** What is placed where: the grid row by row, then slot after slot, each cluster in the shape dagre gave it. */
  ghost predicate IsLayout(groups: seq<seq<string>>, edges: seq<Edge>, size: NodeSize, dagre: Dagre,
                           positions: map<string, Position>, starts: seq<real>) {
    && RowByRow(Singles(groups), size, positions)
    && ShapesKept(Clusters(groups), edges, size, dagre, positions)
    && Tiled(Clusters(groups), size, positions, starts)
    && StartsBehind(Singles(groups), size, positions, starts[0])
  }

  /** A cluster of a given shape fits a slot that starts at a given place in one way only. */
  lemma SlotIsDetermined(c: seq<string>, centre: string -> Position, size: NodeSize, left: real,
                         p: map<string, Position>, nextP: real, q: map<string, Position>, nextQ: real)
    requires KeepsShape(c, centre, p) && FillsSlot(c, size, p, left, nextP)
    requires KeepsShape(c, centre, q) && FillsSlot(c, size, q, left, nextQ)
    ensures nextP == nextQ && forall id <- c :: p[id] == q[id]
  {
    var dx, dy :| Translated(c, centre, p, dx, dy);
    var ex, ey :| Translated(c, centre, q, ex, ey);
    var a :| a in c && p[a].x == left;
    var b :| b in c && q[b].x == left;
    assert dx == ex;
    var a' :| a' in c && p[a'].y == 0.0;
    var b' :| b' in c && q[b'].y == 0.0;
    assert dy == ey;
  }

  /** The grid is determined too. */
  lemma {:induction false} GridIsDetermined(isolated: seq<string>, size: NodeSize, p: map<string, Position>,
                                            q: map<string, Position>, k: nat)
    requires RowByRow(isolated, size, p) && RowByRow(isolated, size, q) && k < |isolated|
    ensures p[isolated[k]] == q[isolated[k]]
  {
    if k > 0 {
      GridIsDetermined(isolated, size, p, q, k - 1);
      var columns := CeilSqrt(|isolated|);
      assert NextPlace(p[isolated[k - 1]], p[isolated[k]], k, columns, size);
      assert NextPlace(q[isolated[k - 1]], q[isolated[k]], k, columns, size);
    }
  }

  lemma FirstStartIsDetermined(isolated: seq<string>, size: NodeSize, p: map<string, Position>, x: real,
                               q: map<string, Position>, y: real)
    requires RowByRow(isolated, size, p) && StartsBehind(isolated, size, p, x)
    requires RowByRow(isolated, size, q) && StartsBehind(isolated, size, q, y)
    ensures x == y
  {
    forall id | id in isolated
      ensures p[id] == q[id]
    {
      var k :| 0 <= k < |isolated| && isolated[k] == id;
      GridIsDetermined(isolated, size, p, q, k);
    }
  }

  lemma {:induction false} StartsAreDetermined(clusters: seq<seq<string>>, edges: seq<Edge>, size: NodeSize,
                                               dagre: Dagre, p: map<string, Position>, startsP: seq<real>,
                                               q: map<string, Position>, startsQ: seq<real>, k: nat)
    requires ShapesKept(clusters, edges, size, dagre, p) && Tiled(clusters, size, p, startsP)
    requires ShapesKept(clusters, edges, size, dagre, q) && Tiled(clusters, size, q, startsQ)
    requires startsP[0] == startsQ[0] && k <= |clusters|
    ensures startsP[k] == startsQ[k]
    ensures k < |clusters| ==> forall id <- clusters[k] :: id in p && id in q && p[id] == q[id]
  {
    if k > 0 {
      StartsAreDetermined(clusters, edges, size, dagre, p, startsP, q, startsQ, k - 1);
      SlotOfCluster(clusters, edges, size, dagre, p, startsP, q, startsQ, k - 1);
    }
    if k < |clusters| {
      SlotOfCluster(clusters, edges, size, dagre, p, startsP, q, startsQ, k);
    }
  }

  lemma SlotOfCluster(clusters: seq<seq<string>>, edges: seq<Edge>, size: NodeSize, dagre: Dagre,
                      p: map<string, Position>, startsP: seq<real>, q: map<string, Position>, startsQ: seq<real>,
                      k: nat)
    requires ShapesKept(clusters, edges, size, dagre, p) && Tiled(clusters, size, p, startsP)
    requires ShapesKept(clusters, edges, size, dagre, q) && Tiled(clusters, size, q, startsQ)
    requires k < |clusters| && startsP[k] == startsQ[k]
    ensures startsP[k + 1] == startsQ[k + 1]
    ensures forall id <- clusters[k] :: id in p && id in q && p[id] == q[id]
  {
    var c := clusters[k];
    assert c in clusters;
    assert FillsSlot(c, size, p, startsP[k], startsP[k + 1]) && FillsSlot(c, size, q, startsQ[k], startsQ[k + 1]);
    SlotIsDetermined(c, dagre(c, EdgesWithin(edges, c), size), size, startsP[k], p, startsP[k + 1], q, startsQ[k + 1]);
  }

  lemma {:induction false} PositionIsDetermined(groups: seq<seq<string>>, edges: seq<Edge>, size: NodeSize,
                                                dagre: Dagre, id: string, p: map<string, Position>,
                                                startsP: seq<real>, q: map<string, Position>, startsQ: seq<real>)
    requires IsLayout(groups, edges, size, dagre, p, startsP) && IsLayout(groups, edges, size, dagre, q, startsQ)
    requires id in Singles(groups) || InSome(Clusters(groups), id)
    ensures id in p && id in q && p[id] == q[id]
  {
    if id in Singles(groups) {
      var k :| 0 <= k < |Singles(groups)| && Singles(groups)[k] == id;
      GridIsDetermined(Singles(groups), size, p, q, k);
    } else {
      var c :| c in Clusters(groups) && id in c;
      var k :| 0 <= k < |Clusters(groups)| && Clusters(groups)[k] == c;
      FirstStartIsDetermined(Singles(groups), size, p, startsP[0], q, startsQ[0]);
      StartsAreDetermined(Clusters(groups), edges, size, dagre, p, startsP, q, startsQ, k);
    }
  }

  /** What `LayoutWithDagre` promises, for some groups and some slots. */
  ghost predicate IsLayoutOf(ids: seq<string>, edges: seq<Edge>, size: NodeSize, dagre: Dagre,
                             positions: map<string, Position>, groups: seq<seq<string>>, starts: seq<real>) {
    && positions.Keys == (set id | id in ids)
    && AreComponents(groups, ids, edges) && InOrder(groups, ids)
    && IsLayout(groups, edges, size, dagre, positions, starts)
  }

  /** The description leaves no freedom: it has one layout for given nodes, edges and answers of dagre. */
  lemma LayoutIsDetermined(ids: seq<string>, edges: seq<Edge>, size: NodeSize, dagre: Dagre,
                           p: map<string, Position>, groupsP: seq<seq<string>>, startsP: seq<real>,
                           q: map<string, Position>, groupsQ: seq<seq<string>>, startsQ: seq<real>)
    requires IsLayoutOf(ids, edges, size, dagre, p, groupsP, startsP)
    requires IsLayoutOf(ids, edges, size, dagre, q, groupsQ, startsQ)
    ensures p == q
  {
    AnswerIsUnique(groupsP, groupsQ, ids, edges);
    forall id | id in ids
      ensures p[id] == q[id]
    {
      var g := GroupOf(groupsP, ids, edges, id);
      assert g in Clusters(groupsP) ==> InSome(Clusters(groupsP), id);
      PositionIsDetermined(groupsP, edges, size, dagre, id, p, startsP, q, startsQ);
    }
  }

  method LayoutWithDagre(ids: seq<string>, edges: seq<Edge>, size: NodeSize, dagre: Dagre)
    returns (positions: map<string, Position>, ghost groups: seq<seq<string>>, ghost starts: seq<real>)
    requires Positive(size)
    ensures SafeLayout(ids, edges, size, positions)
    ensures IsLayoutOf(ids, edges, size, dagre, positions, groups, starts)
    ensures IsCompact(Singles(groups), size, positions)
    ensures Selects(groups, IfSingle, Singles(groups)) && Selects(groups, IfCluster, Clusters(groups))
  {
    var components := FindConnectedComponents(ids, edges);
    groups := components;
    var isolated := Singles(components);
    var clusters := Clusters(components);
    SinglesAndClusters(groups);
    GroupsAreSorted(groups);
    var grid, start := PlaceGrid(isolated, size);
    var end;
    positions, end, starts := PlaceClusters(isolated, clusters, edges, size, dagre, grid, start);
    GridStays(isolated, size, grid, positions, start);
    SlotsMakeSafeLayout(ids, edges, groups, size, grid, positions, end);
  }

  /** The grid fits the smallest square that has room for it. */
  ghost predicate IsCompact(isolated: seq<string>, size: NodeSize, positions: map<string, Position>) {
    forall id <- isolated :: id in positions && InSquare(positions[id], size, CeilSqrt(|isolated|))
  }

  lemma GroupOf(groups: seq<seq<string>>, ids: seq<string>, edges: seq<Edge>, a: string) returns (g: seq<string>)
    requires AreComponents(groups, ids, edges) && a in ids
    ensures g in groups && a in g
    ensures if |g| == 1 then g == [a] && a in Singles(groups) else g in Clusters(groups)
  {
    ConnectedSelf(ids, edges, a);
    assert SameGroup(groups, a, a);
    g :| g in groups && a in g;
    if |g| == 1 {
      assert g == [a];
      SinglesAreGroups(groups, a);
    } else {
      ClustersAreGroups(groups, g);
    }
  }

  lemma ClustersApart(isolated: seq<string>, clusters: seq<seq<string>>, size: NodeSize,
                      positions: map<string, Position>, xCursor: real, c: seq<string>, d: seq<string>, a: string,
                      b: string)
    requires InSlots(isolated, clusters, size, positions, xCursor)
    requires c in clusters && d in clusters && c != d && a in c && b in d
    ensures a in positions && b in positions && SlotsApart(size, positions[a], positions[b])
  {
    assert InSome(clusters, a) && InSome(clusters, b);
    var i :| 0 <= i < |clusters| && clusters[i] == c;
    var j :| 0 <= j < |clusters| && clusters[j] == d;
    if i < j {
    } else {
      assert j < i;
    }
  }

  lemma PairIsSafe(ids: seq<string>, edges: seq<Edge>, groups: seq<seq<string>>, size: NodeSize,
                   grid: map<string, Position>, positions: map<string, Position>, xCursor: real, a: string, b: string)
    requires AreComponents(groups, ids, edges)
    requires InSlots(Singles(groups), Clusters(groups), size, positions, xCursor)
    requires GridSafe(Singles(groups), size, grid)
    requires forall id <- Singles(groups) :: positions[id] == grid[id]
    requires a in ids && b in ids && !Connected(ids, edges, a, b)
    ensures a in positions && b in positions
    ensures || SlotsApart(size, positions[a], positions[b])
            || (Lone(ids, edges, a) && Lone(ids, edges, b) && GridApart(size, positions[a], positions[b]))
  {
    var g := GroupOf(groups, ids, edges, a);
    var h := GroupOf(groups, ids, edges, b);
    assert g != h by {
      assert !SameGroup(groups, a, b);
    }
    if |g| == 1 && |h| == 1 {
      assert GridApart(size, grid[a], grid[b]);
    } else if |g| != 1 && |h| != 1 {
      ClustersApart(Singles(groups), Clusters(groups), size, positions, xCursor, g, h, a, b);
    } else {
      assert |g| != 1 ==> InSome(Clusters(groups), a);
      assert |h| != 1 ==> InSome(Clusters(groups), b);
    }
  }

  lemma SlotsMakeSafeLayout(ids: seq<string>, edges: seq<Edge>, groups: seq<seq<string>>, size: NodeSize,
                            grid: map<string, Position>, positions: map<string, Position>, xCursor: real)
    requires AreComponents(groups, ids, edges)
    requires InSlots(Singles(groups), Clusters(groups), size, positions, xCursor)
    requires GridSafe(Singles(groups), size, grid)
    requires forall id <- Singles(groups) :: positions[id] == grid[id]
    ensures SafeLayout(ids, edges, size, positions)
  {
    forall id
      ensures id in positions <==> id in ids
    {
      if id in ids {
        var g := GroupOf(groups, ids, edges, id);
        assert g in Clusters(groups) ==> InSome(Clusters(groups), id);
      } else if id in positions {
        PlacedIsKnown(groups, ids, edges, id);
      }
    }
    forall a, b | a in ids && b in ids && !Connected(ids, edges, a, b)
      ensures || SlotsApart(size, positions[a], positions[b])
              || (Lone(ids, edges, a) && Lone(ids, edges, b) && GridApart(size, positions[a], positions[b]))
    {
      PairIsSafe(ids, edges, groups, size, grid, positions, xCursor, a, b);
    }
  }

  lemma PlacedIsKnown(groups: seq<seq<string>>, ids: seq<string>, edges: seq<Edge>, id: string)
    requires AreComponents(groups, ids, edges)
    requires id in Singles(groups) || InSome(Clusters(groups), id)
    ensures id in ids
  {
    SinglesAreGroups(groups, id);
    var g := [id];
    if id !in Singles(groups) {
      g :| g in Clusters(groups) && id in g;
      ClustersAreGroups(groups, g);
    }
    FlattenHolds(groups, g, id);
    assert id in multiset(Flatten(groups));
    assert id in multiset(ids);
  }
}
