/** The grid constants and the layout packer (`normalizeLayout`): items are
    taken in reading order and each is put at the first free spot, scanning
    rows top to bottom and columns left to right, on an occupancy grid that
    records the cells already taken. */
module Layout {
  import opened Wrappers
  import StableSort

  const GridCols := 10
  const DefaultW := 4
  const DefaultH := 3
  const MinW := 2
  const MaxW := GridCols
  const MinH := 2
  const MaxH := 8

  /** The default size of a new card lies within the resize limits, and the
      widest card spans the whole grid. */
  lemma ConstantsConsistent()
    ensures MinW <= DefaultW <= MaxW && MaxW == GridCols == 10
    ensures MinH <= DefaultH <= MaxH
  {
  }

  /** A grid item: its key `i`, position, optional size and resize limits. */
  datatype LayoutItem = LayoutItem(
    i: string, x: int, y: int, w: Option<int>, h: Option<int>,
    minW: Option<int>, maxW: Option<int>, minH: Option<int>, maxH: Option<int>)

  /** The item's width, 1 when it has none. */
  function Width(item: LayoutItem): int { item.w.GetOr(1) }

  /** The item's height, 1 when it has none. */
  function Height(item: LayoutItem): int { item.h.GetOr(1) }

  /** One cell of the occupancy grid: `occupied[row][col]`. */
  datatype Cell = Cell(row: int, col: int)

  predicate InRect(cell: Cell, x: int, y: int, w: int, h: int) {
    y <= cell.row < y + h && x <= cell.col < x + w
  }

  /** The cells of the `w` by `h` rectangle whose top-left cell is `(x, y)`. */
  function Rect(x: int, y: int, w: int, h: int): (r: set<Cell>)
    ensures forall cell :: cell in r <==> InRect(cell, x, y, w, h)
  {
    set row: int, col: int | y <= row < y + h && x <= col < x + w :: Cell(row, col)
  }

  function Cells(item: LayoutItem): set<Cell> {
    Rect(item.x, item.y, Width(item), Height(item))
  }

  /** No cell of the rectangle is occupied. */
  predicate Free(occupied: set<Cell>, x: int, y: int, w: int, h: int) {
    forall row, col :: y <= row < y + h && x <= col < x + w ==> Cell(row, col) !in occupied
  }

  /** `(y1, x1)` comes before `(y2, x2)` in the scan: an earlier row, or the
      same row further left. */
  predicate ScanBefore(x1: int, y1: int, x2: int, y2: int) {
    y1 < y2 || (y1 == y2 && x1 < x2)
  }

  /** `(x, y)` is where the scan puts a `w` by `h` item: it lies within the
      columns, its rectangle is free, and every earlier candidate within the
      columns is blocked. */
  ghost predicate IsFirstFit(occupied: set<Cell>, x: int, y: int, w: int, h: int, cols: int) {
    && 0 <= x && 0 <= y && x + w <= cols
    && Free(occupied, x, y, w, h)
    && forall x', y' :: 0 <= x' && 0 <= y' && x' + w <= cols && ScanBefore(x', y', x, y)
                        ==> !Free(occupied, x', y', w, h)
  }

  /** The sort key of `(a.y - b.y) || (a.x - b.x)`. */
  function ReadingKey(item: LayoutItem): seq<int> { [item.y, item.x] }

  function ReadingOrder(items: seq<LayoutItem>): seq<LayoutItem> {
    StableSort.SortBy(items, ReadingKey)
  }

  /** The cells taken by the items placed so far. */
  function Occupied(placed: seq<LayoutItem>): set<Cell> {
    if placed == [] then {} else Occupied(placed[..|placed| - 1]) + Cells(placed[|placed| - 1])
  }

  /** Item `k` of `out` is item `k` of `sorted` with everything but its
      position kept, and its position is the first fit against items
      `0..k-1` of `out`. */
  ghost predicate PlacedAt(sorted: seq<LayoutItem>, out: seq<LayoutItem>, k: nat, cols: int)
    requires k < |sorted| && k < |out|
  {
    && out[k] == sorted[k].(x := out[k].x, y := out[k].y)
    && IsFirstFit(Occupied(out[..k]), out[k].x, out[k].y, Width(out[k]), Height(out[k]), cols)
  }

  /** `out` is what the packer makes of `sorted`. */
  ghost predicate PackedAs(sorted: seq<LayoutItem>, out: seq<LayoutItem>, cols: int) {
    && |out| == |sorted|
    && forall k :: 0 <= k < |out| ==> PlacedAt(sorted, out, k, cols)
  }

  /** `canPlace`: are all cells of the rectangle free? */
  method CanPlace(occupied: set<Cell>, x: int, y: int, w: int, h: int) returns (ok: bool)
    ensures ok == Free(occupied, x, y, w, h)
  {
    var yy := y;
    while yy < y + h
      invariant y <= yy && (yy <= y + h || yy == y)
      invariant forall row, col :: y <= row < yy && x <= col < x + w ==> Cell(row, col) !in occupied
    {
      var xx := x;
      while xx < x + w
        invariant x <= xx && (xx <= x + w || xx == x)
        invariant forall col :: x <= col < xx ==> Cell(yy, col) !in occupied
      {
        if Cell(yy, xx) in occupied {
          return false;
        }
        xx := xx + 1;
      }
      yy := yy + 1;
    }
    return true;
  }

  /** `occupy`: mark every cell of the rectangle as taken. */
  method Occupy(occupied: set<Cell>, x: int, y: int, w: int, h: int) returns (grid: set<Cell>)
    ensures grid == occupied + Rect(x, y, w, h)
  {
    grid := occupied;
    var yy := y;
    while yy < y + h
      invariant y <= yy && (yy <= y + h || yy == y)
      invariant forall cell :: cell in grid <==> cell in occupied || InRect(cell, x, y, w, yy - y)
    {
      var xx := x;
      while xx < x + w
        invariant x <= xx && (xx <= x + w || xx == x)
        invariant forall cell :: cell in grid <==>
                    cell in occupied || InRect(cell, x, y, w, yy - y) || InRect(cell, x, yy, xx - x, 1)
      {
        grid := grid + {Cell(yy, xx)};
        xx := xx + 1;
      }
      yy := yy + 1;
    }
  }

  /** The `while (true)` scan for one item. `bound` lies below every occupied
      cell; the scan never passes it, which is why it ends: at row `bound`
      column 0 is free and, as `w <= cols`, within the columns. */
  method FindSpot(occupied: set<Cell>, w: int, h: int, cols: int, ghost bound: int)
    returns (x: int, y: int)
    requires w <= cols && 0 <= bound
    requires forall cell :: cell in occupied ==> cell.row < bound
    ensures IsFirstFit(occupied, x, y, w, h, cols)
    ensures y <= bound
  {
    x, y := 0, 0;
    while true
      invariant 0 <= x && 0 <= y <= bound
      invariant y == bound ==> x == 0
      invariant x == 0 || x + w <= cols + 1
      invariant forall x', y' :: 0 <= x' && 0 <= y' && x' + w <= cols && ScanBefore(x', y', x, y)
                                 ==> !Free(occupied, x', y', w, h)
      decreases bound - y, cols - w + 1 - x
    {
      if x + w > cols {
        x := 0;
        y := y + 1;
        continue;
      }
      var ok := CanPlace(occupied, x, y, w, h);
      if ok {
        return;
      }
      x := x + 1;
    }
  }

  /** `normalizeLayout(items, cols)`. The scan of an item wider than `cols`
      never ends, so every width must fit. */
  method NormalizeLayout(items: seq<LayoutItem>, cols: int) returns (out: seq<LayoutItem>)
    requires forall k :: 0 <= k < |items| ==> Width(items[k]) <= cols
    ensures PackedAs(ReadingOrder(items), out, cols)
    ensures |out| == |items|
    ensures forall k :: 0 <= k < |out| ==>
              0 <= out[k].x && 0 <= out[k].y && out[k].x + Width(out[k]) <= cols
    ensures forall j, k :: 0 <= j < k < |out| ==> Cells(out[j]) !! Cells(out[k])
  {
    var sorted := ReadingOrder(items);
    StableSort.SortByPermutes(items, ReadingKey);
    forall k | 0 <= k < |sorted| ensures Width(sorted[k]) <= cols {
      assert sorted[k] in multiset(items);
    }
    var occupied: set<Cell> := {};
    ghost var bound := 0;
    out := [];
    for k := 0 to |sorted|
      invariant |out| == k && 0 <= bound
      invariant occupied == Occupied(out)
      invariant forall cell :: cell in occupied ==> cell.row < bound
      invariant PackedAs(sorted[..k], out, cols)
    {
      var item := sorted[k];
      var w, h := Width(item), Height(item);
      var x, y := FindSpot(occupied, w, h, cols, bound);
      occupied := Occupy(occupied, x, y, w, h);
      bound := if y + h > bound then y + h else bound;
      PackedExtend(sorted, k, out, x, y, cols);
      out := out + [item.(x := x, y := y)];
    }
    assert sorted[..|sorted|] == sorted;
    forall k | 0 <= k < |out| ensures 0 <= out[k].x && 0 <= out[k].y && out[k].x + Width(out[k]) <= cols {
      PackedAt(sorted, out, cols, k);
    }
    PackedNoOverlap(sorted, out, cols);
  }

  /** Placing the next sorted item at its first fit extends a packing by one. */
  lemma PackedExtend(sorted: seq<LayoutItem>, k: nat, out: seq<LayoutItem>, x: int, y: int, cols: int)
    requires k < |sorted|
    requires PackedAs(sorted[..k], out, cols)
    requires IsFirstFit(Occupied(out), x, y, Width(sorted[k]), Height(sorted[k]), cols)
    ensures PackedAs(sorted[..k + 1], out + [sorted[k].(x := x, y := y)], cols)
    ensures Occupied(out + [sorted[k].(x := x, y := y)]) == Occupied(out) + Rect(x, y, Width(sorted[k]), Height(sorted[k]))
  {
    var next := out + [sorted[k].(x := x, y := y)];
    assert next[..k] == out;
    var grown := sorted[..k + 1];
    forall j | 0 <= j <= k ensures PlacedAt(grown, next, j, cols) {
      if j < k {
        assert next[..j] == out[..j] && next[j] == out[j];
        assert PlacedAt(sorted[..k], out, j, cols);
      }
    }
  }

  lemma {:induction false} OccupiedCovers(placed: seq<LayoutItem>, j: nat)
    requires j < |placed|
    ensures Cells(placed[j]) <= Occupied(placed)
    decreases |placed|
  {
    if j < |placed| - 1 {
      OccupiedCovers(placed[..|placed| - 1], j);
    }
  }

  lemma OccupiedPrefix(placed: seq<LayoutItem>, j: nat, k: nat)
    requires j < k <= |placed|
    ensures Cells(placed[j]) <= Occupied(placed[..k])
  {
    OccupiedCovers(placed[..k], j);
  }

  /** No two packed items share a cell. */
  lemma PackedNoOverlap(sorted: seq<LayoutItem>, out: seq<LayoutItem>, cols: int)
    requires PackedAs(sorted, out, cols)
    ensures forall j, k :: 0 <= j < k < |out| ==> Cells(out[j]) !! Cells(out[k])
  {
    forall j, k | 0 <= j < k < |out| ensures Cells(out[j]) !! Cells(out[k]) {
      OccupiedPrefix(out, j, k);
      PackedAt(sorted, out, cols, k);
    }
  }

  /** Only one position is the first fit. */
  lemma FirstFitUnique(occupied: set<Cell>, x1: int, y1: int, x2: int, y2: int, w: int, h: int, cols: int)
    requires IsFirstFit(occupied, x1, y1, w, h, cols)
    requires IsFirstFit(occupied, x2, y2, w, h, cols)
    ensures x1 == x2 && y1 == y2
  {
  }

  lemma PackedAt(sorted: seq<LayoutItem>, out: seq<LayoutItem>, cols: int, k: nat)
    requires PackedAs(sorted, out, cols) && k < |out|
    ensures out[k] == sorted[k].(x := out[k].x, y := out[k].y)
    ensures IsFirstFit(Occupied(out[..k]), out[k].x, out[k].y, Width(sorted[k]), Height(sorted[k]), cols)
  {
    assert PlacedAt(sorted, out, k, cols);
  }

  lemma {:induction false} PackedPrefixUnique(sorted: seq<LayoutItem>, a: seq<LayoutItem>, b: seq<LayoutItem>, cols: int, n: nat)
    requires PackedAs(sorted, a, cols) && PackedAs(sorted, b, cols)
    requires n <= |sorted|
    ensures a[..n] == b[..n]
  {
    if n > 0 {
      var k := n - 1;
      PackedPrefixUnique(sorted, a, b, cols, k);
      PackedAt(sorted, a, cols, k);
      PackedAt(sorted, b, cols, k);
      FirstFitUnique(Occupied(a[..k]), a[k].x, a[k].y, b[k].x, b[k].y, Width(sorted[k]), Height(sorted[k]), cols);
      assert a[..n] == a[..k] + [a[k]] && b[..n] == b[..k] + [b[k]];
    }
  }

  /** The packing is determined by the sorted items: `PackedAs` describes
      exactly one result. */
  lemma PackedUnique(sorted: seq<LayoutItem>, a: seq<LayoutItem>, b: seq<LayoutItem>, cols: int)
    requires PackedAs(sorted, a, cols) && PackedAs(sorted, b, cols)
    ensures a == b
  {
    PackedPrefixUnique(sorted, a, b, cols, |sorted|);
    assert a == a[..|sorted|] && b == b[..|sorted|];
  }

  /** The first item in reading order lands in the top-left corner. */
  lemma FirstItemAtOrigin(sorted: seq<LayoutItem>, out: seq<LayoutItem>, cols: int)
    requires PackedAs(sorted, out, cols)
    requires sorted != [] && Width(sorted[0]) <= cols
    ensures out[0].x == 0 && out[0].y == 0
  {
    assert out[..0] == [];
    PackedAt(sorted, out, cols, 0);
    assert Free(Occupied(out[..0]), 0, 0, Width(out[0]), Height(out[0]));
  }

  lemma LexLePair(a1: int, a2: int, b1: int, b2: int)
    ensures StableSort.LexLe([a1, a2], [b1, b2]) <==> a1 < b1 || (a1 == b1 && a2 <= b2)
  {
    assert [a1, a2][1..] == [a2] && [b1, b2][1..] == [b2];
    assert [a2][1..] == [] && [b2][1..] == [];
    assert StableSort.LexLe([], []);
    assert StableSort.LexLe([a2], [b2]) <==> a2 < b2 || a2 == b2;
  }

  /** The packer's input order: the items sorted by row, then column, ties
      kept in input order, and no item lost or added. */
  lemma ReadingOrderSpec(items: seq<LayoutItem>)
    ensures multiset(ReadingOrder(items)) == multiset(items)
    ensures forall i, j :: 0 <= i < j < |ReadingOrder(items)| ==>
              ReadingOrder(items)[i].y < ReadingOrder(items)[j].y ||
              (ReadingOrder(items)[i].y == ReadingOrder(items)[j].y && ReadingOrder(items)[i].x <= ReadingOrder(items)[j].x)
    ensures forall k :: StableSort.WithKey(ReadingOrder(items), ReadingKey, k) == StableSort.WithKey(items, ReadingKey, k)
  {
    StableSort.SortByPermutes(items, ReadingKey);
    StableSort.SortBySorted(items, ReadingKey);
    forall k { StableSort.SortByStable(items, ReadingKey, k); }
    var s := ReadingOrder(items);
    forall i, j | 0 <= i < j < |s|
      ensures s[i].y < s[j].y || (s[i].y == s[j].y && s[i].x <= s[j].x)
    {
      assert StableSort.LexLe(ReadingKey(s[i]), ReadingKey(s[j]));
      LexLePair(s[i].y, s[i].x, s[j].y, s[j].x);
    }
  }
}
