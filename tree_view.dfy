/**
 * The table view of the tree (static/tree_view.js): every node but the root
 * becomes a cell in the row of its depth, spanning as many columns as there
 * are leaves below it (one for a leaf), so that each node sits above its
 * descendants. Rows are built left to right in one walk of the tree; a row
 * that has nothing to show under a leaf of an upper row owes it a column of
 * padding, which it keeps as a count and pays out as one padding cell just
 * before its next real cell, or at its end.
 *
 * The DOM is replaced by values: a cell is a `Cell`, a row under
 * construction a `Row` (its cells and its pending padding count), the
 * finished table a `Table`.
 */
module TreeView {

  import opened Wrappers
  import opened Paths
  import opened TreeData

  /** The no-break space between the two halves of a cell's label. */
  const NoBreakSpace: char := '\U{00A0}'

  /** A `<td>` of the tree part of the table: padding, or a node's cell. */
  datatype Cell = Pad(span: nat) | NodeCell(span: nat, text: string, id: string)

  /** A `<tr>` under construction, with its `left_padding` count. */
  datatype Row = Row(cells: seq<Cell>, leftPadding: nat)

  /** A finished `<tr>`: its depth, then its cells. */
  datatype TableRow = TableRow(depth: nat, cells: seq<Cell>)

  /** The table: the header's column span, then the rows. */
  datatype Table = Table(headerSpan: nat, rows: seq<TableRow>)

  /** The text of the cell of node `id`: its parent's short id ("NONE" for the root) and its own. */
  function CellLabel(id: string): (s: string)
    ensures |s| >= 2 && s[..2] == "P:"
    ensures var tail := "ID:" + ShortId(id); |tail| <= |s| && s[|s| - |tail|..] == tail
  {
    var parentId := ParentId(id);
    "P:" + (if |parentId| == 0 then "NONE" else Store.NodeToString(ByPath(parentId)))
      + [NoBreakSpace] + "ID:" + Store.NodeToString(ByNode(id))
  }

  /** The label of a child names the short id of its parent, or "NONE" under the root, and its key. */
  lemma CellLabelOfChild(p: string, k: string)
    requires IsSegment(k)
    ensures CellLabel(p + [Separator] + k)
         == "P:" + (if p == Root then "NONE" else ShortId(p)) + [NoBreakSpace] + "ID:" + k
  {
    ChildIdParts(p, k);
  }

  /** The columns a sequence of cells spans. */
  function SumSpans(cells: seq<Cell>): nat {
    SpansTo(cells, |cells|)
  }

  /** The columns the first `n` cells span. */
  function SpansTo(cells: seq<Cell>, n: nat): nat
    requires n <= |cells|
  {
    if n == 0 then 0 else SpansTo(cells, n - 1) + cells[n - 1].span
  }

  /** The ids of the node cells, left to right. */
  function NodeIds(cells: seq<Cell>): seq<string> {
    IdsTo(cells, |cells|)
  }

  /** The ids of the node cells among the first `n` cells. */
  function IdsTo(cells: seq<Cell>, n: nat): seq<string>
    requires n <= |cells|
  {
    if n == 0 then []
    else IdsTo(cells, n - 1) + (if cells[n - 1].NodeCell? then [cells[n - 1].id] else [])
  }

  /** What the first cells span and list does not change when more cells follow. */
  lemma {:induction false} PrefixSums(cells: seq<Cell>, c: Cell, n: nat)
    requires n <= |cells|
    ensures SpansTo(cells + [c], n) == SpansTo(cells, n)
    ensures IdsTo(cells + [c], n) == IdsTo(cells, n)
  {
    if n > 0 {
      PrefixSums(cells, c, n - 1);
      assert (cells + [c])[n - 1] == cells[n - 1];
    }
  }

  /** One more cell adds its span and, for a node cell, its id. */
  lemma AppendCellSums(cells: seq<Cell>, c: Cell)
    ensures SumSpans(cells + [c]) == SumSpans(cells) + c.span
    ensures NodeIds(cells + [c]) == NodeIds(cells) + (if c.NodeCell? then [c.id] else [])
  {
    PrefixSums(cells, c, |cells|);
    assert (cells + [c])[|cells|] == c;
  }

  /** The column where the next cell of a row would start: its cells and its pending padding. */
  function Cursor(r: Row): nat {
    SumSpans(r.cells) + r.leftPadding
  }

  /** `flushRowPadding` on a row: pending padding becomes one padding cell of that span, and the count 0. */
  function Flushed(r: Row): Row {
    if r.leftPadding > 0 then Row(r.cells + [Pad(r.leftPadding)], 0) else Row(r.cells, 0)
  }

  /**
   * Flushing a row adds a padding cell exactly when padding is pending,
   * resets the count, and leaves the row ending at the same column with
   * the same node cells.
   */
  lemma FlushedKeeps(r: Row)
    ensures Flushed(r).leftPadding == 0
    ensures r.leftPadding > 0 <==> Flushed(r).cells == r.cells + [Pad(r.leftPadding)]
    ensures r.leftPadding == 0 ==> Flushed(r).cells == r.cells
    ensures Cursor(Flushed(r)) == Cursor(r)
    ensures NodeIds(Flushed(r).cells) == NodeIds(r.cells)
  {
    AppendCellSums(r.cells, Pad(r.leftPadding));
    if r.leftPadding == 0 {
      assert |r.cells + [Pad(0)]| != |r.cells|;
    }
  }

  /** A cell spans at least one column, and a node cell carries its node's label. */
  predicate CellFit(c: Cell) {
    c.span >= 1 && (c.NodeCell? ==> c.text == CellLabel(c.id))
  }

  /**
   * The first `n` cells end with a node cell, if any, and each padding
   * cell among them comes directly before a node cell (`PadsFollowedMeans`
   * states this with indices).
   */
  predicate PadsFollowed(cells: seq<Cell>, n: nat)
    requires n <= |cells|
    decreases n
  {
    if n == 0 then true
    else if cells[n - 1].Pad? then false
    else if n >= 2 && cells[n - 2].Pad? then PadsFollowed(cells, n - 2)
    else PadsFollowed(cells, n - 1)
  }

  /** Each of the first `n` cells fits (`FitToMeans` states this with indices). */
  predicate FitTo(cells: seq<Cell>, n: nat)
    requires n <= |cells|
  {
    n == 0 || (FitTo(cells, n - 1) && CellFit(cells[n - 1]))
  }

  /** The cells a row builds up: each fit, and padding only directly before a node cell. */
  predicate CellsOk(cells: seq<Cell>) {
    FitTo(cells, |cells|) && PadsFollowed(cells, |cells|)
  }

  /** The cells of a finished row: as `CellsOk`, but a padding cell may also close the row. */
  predicate EmittedOk(cells: seq<Cell>) {
    && FitTo(cells, |cells|)
    && (|| PadsFollowed(cells, |cells|)
        || (|cells| > 0 && cells[|cells| - 1].Pad? && PadsFollowed(cells, |cells| - 1)))
  }

  /** `FitTo`, with indices: every one of the first `n` cells spans a column or more and carries its label. */
  lemma {:induction false} FitToMeans(cells: seq<Cell>, n: nat)
    requires n <= |cells|
    ensures FitTo(cells, n) <==> forall i :: 0 <= i < n ==> CellFit(cells[i])
  {
    if n > 0 {
      FitToMeans(cells, n - 1);
    }
  }

  /** Cells appended later leave the verdict on the first `n` alone. */
  lemma {:induction false} FitToPrefix(cells: seq<Cell>, more: seq<Cell>, n: nat)
    requires n <= |cells|
    ensures FitTo(cells + more, n) == FitTo(cells, n)
  {
    if n > 0 {
      assert (cells + more)[n - 1] == cells[n - 1];
      FitToPrefix(cells, more, n - 1);
    }
  }

  /** `PadsFollowed`, with indices: every padding cell among the first `n` has a node cell right after it among them. */
  lemma {:induction false} PadsFollowedMeans(cells: seq<Cell>, n: nat)
    requires n <= |cells|
    ensures PadsFollowed(cells, n) <==>
      forall i :: 0 <= i < n && cells[i].Pad? ==> i + 1 < n && cells[i + 1].NodeCell?
    decreases n
  {
    if n == 1 {
    } else if n >= 2 {
      PadsFollowedMeans(cells, n - 1);
      PadsFollowedMeans(cells, n - 2);
    }
  }

  /** Cells appended later leave the verdict on the first `n` alone. */
  lemma {:induction false} PadsFollowedPrefix(cells: seq<Cell>, more: seq<Cell>, n: nat)
    requires n <= |cells|
    ensures PadsFollowed(cells + more, n) == PadsFollowed(cells, n)
    decreases n
  {
    if n > 0 {
      assert (cells + more)[n - 1] == cells[n - 1];
      if n >= 2 {
        assert (cells + more)[n - 2] == cells[n - 2];
        PadsFollowedPrefix(cells, more, n - 2);
      }
      PadsFollowedPrefix(cells, more, n - 1);
    }
  }

  predicate AllCellsOk(rows: seq<Row>) {
    forall j :: 0 <= j < |rows| ==> CellsOk(rows[j].cells)
  }

  /** The deepest row has no cells. */
  predicate LastEmpty(rows: seq<Row>) {
    rows != [] && rows[|rows| - 1].cells == []
  }

  /** Every row from `d` down ends at column `x`. */
  predicate Level(rows: seq<Row>, d: nat, x: nat) {
    forall j :: d <= j < |rows| ==> Cursor(rows[j]) == x
  }

  /**
   * The rows are ready for the children of a node at depth `d`: there are
   * none yet, or row `d` exists, every row from `d` down ends at the same
   * column, and the deepest row, which only gathers padding, has no cells.
   */
  predicate Ready(rows: seq<Row>, d: nat) {
    rows == [] || (d < |rows| && rows[|rows| - 1].cells == [] && Level(rows, d, Cursor(rows[d])))
  }

  /** The column where the children of a node at depth `d` start. */
  function Base(rows: seq<Row>, d: nat): nat {
    if d < |rows| then Cursor(rows[d]) else 0
  }

  /** The cells of row `d`, none when it does not exist yet. */
  function OldCells(rows: seq<Row>, d: nat): seq<Cell> {
    if d < |rows| then rows[d].cells else []
  }

  /**
   * The rows once row `depth` exists: each row added has no cells and the
   * padding of the row above it, the first row none.
   */
  function Grown(rows: seq<Row>, depth: nat): (r: seq<Row>)
    ensures |r| == if |rows| > depth then |rows| else depth + 1
    ensures r[..|rows|] == rows
    ensures forall j {:trigger r[j]} :: |rows| <= j < |r| ==> r[j] == Row([], if rows == [] then 0 else rows[|rows| - 1].leftPadding)
    decreases depth + 1 - |rows|
  {
    if |rows| > depth then rows
    else
      var more := rows + [Row([], if rows == [] then 0 else rows[|rows| - 1].leftPadding)];
      assert more[..|rows|] == rows;
      Grown(more, depth)
  }

  /** The rows once every row from `from` down owes one more column of padding. */
  function Padded(rows: seq<Row>, from: nat): (r: seq<Row>)
    ensures |r| == |rows|
    ensures forall j {:trigger r[j]} :: 0 <= j < |r| ==> r[j].cells == rows[j].cells
    ensures forall j {:trigger r[j]} :: 0 <= j < |r| ==> r[j].leftPadding == rows[j].leftPadding + (if j < from then 0 else 1)
  {
    PaddedTo(rows, from, |rows|)
  }

  /** The first `n` rows, those from `from` down owing one more column of padding. */
  function PaddedTo(rows: seq<Row>, from: nat, n: nat): (r: seq<Row>)
    requires n <= |rows|
    ensures |r| == n
    ensures forall j {:trigger r[j]} :: 0 <= j < n ==> r[j].cells == rows[j].cells
    ensures forall j {:trigger r[j]} :: 0 <= j < n ==> r[j].leftPadding == rows[j].leftPadding + (if j < from then 0 else 1)
  {
    if n == 0 then []
    else
      var row := rows[n - 1];
      PaddedTo(rows, from, n - 1) + [Row(row.cells, row.leftPadding + if n - 1 < from then 0 else 1)]
  }

  /** The rows once row `d` has paid out its padding and received cell `c`. */
  function Placed(rows: seq<Row>, d: nat, c: Cell): seq<Row>
    requires d < |rows|
  {
    rows[d := Row(Flushed(rows[d]).cells + [c], 0)]
  }

  /** Row `k` exists and has cells. */
  predicate HasCells(rows: seq<Row>, k: int) {
    0 <= k < |rows| && rows[k].cells != []
  }

  /** From row `d` down, a row with cells has only rows with cells above it. */
  predicate Gapless(rows: seq<Row>, d: nat) {
    forall j, k {:trigger HasCells(rows, j), HasCells(rows, k)} ::
      d <= j <= k < |rows| && HasCells(rows, k) ==> HasCells(rows, j)
  }

  /**
   * The rows as `render` builds them, ready for the children of a node at
   * depth `d`: fit cells, no row without cells above a row with cells, and
   * rows from `d` down ending level.
   */
  predicate Shaped(rows: seq<Row>, d: nat) {
    AllCellsOk(rows) && Gapless(rows, d) && Ready(rows, d)
  }

  /**
   * `out` is what the row loop of `render` emits from the rows `laid`: each
   * of the first rows, those with cells, with its padding paid out and
   * tagged with its depth; the rows after them have no cells.
   */
  predicate EmittedFrom(laid: seq<Row>, out: seq<TableRow>) {
    && |out| <= |laid|
    && (forall j :: 0 <= j < |out| ==> out[j] == TableRow(j, Flushed(laid[j]).cells) && laid[j].cells != [])
    && (forall k :: |out| <= k < |laid| ==> laid[k].cells == [])
  }

  /** The rows of the table under construction (`rows` in `render`). */
  class Grid {
    var rows: seq<Row>

    constructor ()
      ensures rows == []
    {
      rows := [];
    }

    /** `flushRowPadding(rows[i])`. */
    method FlushRowPadding(i: nat)
      requires i < |rows|
      modifies this
      ensures rows == old(rows)[i := Flushed(old(rows)[i])]
    {
      var row := rows[i];
      if row.leftPadding > 0 {
        rows := rows[i := Row(row.cells + [Pad(row.leftPadding)], row.leftPadding)];
      }
      rows := rows[i := Row(rows[i].cells, 0)];
    }

    /**
     * Rows are added until row `depth` exists; each new row starts with no
     * cells and the padding of the row above it, the first row with none.
     */
    method AddRowsThrough(depth: nat)
      modifies this
      ensures rows == Grown(old(rows), depth)
    {
      while |rows| <= depth
        invariant Grown(rows, depth) == Grown(old(rows), depth)
        decreases depth + 1 - |rows|
      {
        var leftPadding := if |rows| == 0 then 0 else rows[|rows| - 1].leftPadding;
        rows := rows + [Row([], leftPadding)];
      }
    }

    /** Every row from `from` down owes one more column of padding. */
    method PadRowsFrom(from: nat)
      modifies this
      ensures rows == Padded(old(rows), from)
    {
      var j := from;
      while j < |rows|
        invariant from <= j && |rows| == |old(rows)|
        invariant forall i :: 0 <= i < |rows| ==>
          rows[i] == if i < from || j <= i then old(rows)[i] else Row(old(rows)[i].cells, old(rows)[i].leftPadding + 1)
      {
        rows := rows[j := Row(rows[j].cells, rows[j].leftPadding + 1)];
        j := j + 1;
      }
      assert rows == Padded(old(rows), from);
    }

    /**
     * The row loop of `render`: each row with cells, its padding paid out,
     * becomes a row of the table tagged with its depth. Rows without cells
     * come only below all rows with cells, so the table's rows are exactly
     * the first rows, in order of depth.
     */
    method EmitRows() returns (out: seq<TableRow>)
      requires Gapless(rows, 0)
      modifies this
      ensures EmittedFrom(old(rows), out)
    {
      ghost var laid := rows;
      out := [];
      var i := 0;
      while i < |rows|
        invariant |rows| == |laid| && 0 <= i <= |laid|
        invariant forall k :: i <= k < |laid| ==> rows[k] == laid[k]
        invariant |out| <= i
        invariant forall j :: 0 <= j < |out| ==> out[j] == TableRow(j, Flushed(laid[j]).cells)
        invariant forall j :: 0 <= j < |out| ==> laid[j].cells != []
        invariant |out| == i || forall k :: |out| <= k < |laid| ==> laid[k].cells == []
      {
        if rows[i].cells != [] {
          assert |out| == i && laid[i].cells != [];
          FlushRowPadding(i);
          assert rows[i] == Flushed(laid[i]);
          out := out + [TableRow(i, rows[i].cells)];
        } else if |out| == i {
          assert !HasCells(laid, i);
          forall k | i <= k < |laid| ensures laid[k].cells == [] {
            assert !HasCells(laid, k);
          }
        }
        i := i + 1;
      }
    }

    /** `rows[i].append(cell)`. */
    method AppendCell(i: nat, c: Cell)
      requires i < |rows|
      modifies this
      ensures rows == old(rows)[i := Row(old(rows)[i].cells + [c], old(rows)[i].leftPadding)]
    {
      rows := rows[i := Row(rows[i].cells + [c], rows[i].leftPadding)];
    }
  }


  /** Rows added through the children's depth keep the cells' properties. */
  lemma GrownCells(rows: seq<Row>, d: nat)
    ensures var r := Grown(rows, d + 1);
      && (forall j :: 0 <= j < |rows| ==> r[j] == rows[j])
      && OldCells(r, d) == OldCells(rows, d)
      && (AllCellsOk(rows) ==> AllCellsOk(r))
      && (Gapless(rows, d) ==> Gapless(r, d + 1))
  {
    var r := Grown(rows, d + 1);
    forall j | 0 <= j < |rows| ensures r[j] == rows[j] {
      assert r[..|rows|][j] == r[j];
    }
    if Gapless(rows, d) {
      forall j, k | d + 1 <= j <= k && HasCells(r, k) ensures HasCells(r, j) {
        assert HasCells(rows, k) && (HasCells(rows, j) ==> HasCells(r, j));
      }
    }
  }

  /** Rows ready for the children of a node at depth `d` are, once grown, ready for the grandchildren. */
  lemma GrownReady(rows: seq<Row>, d: nat)
    requires Ready(rows, d)
    ensures var r := Grown(rows, d + 1);
      Ready(r, d + 1) && Level(r, d, Base(rows, d))
  {
    var r := Grown(rows, d + 1);
    forall j | 0 <= j < |rows| ensures r[j] == rows[j] {
      assert r[..|rows|][j] == r[j];
    }
    if rows != [] {
      var last := rows[|rows| - 1];
      assert Cursor(last) == Base(rows, d);
      forall j | |rows| <= j < |r| ensures Cursor(r[j]) == Base(rows, d) {
        assert r[j] == Row([], last.leftPadding);
      }
    }
  }

  /** Padding rows from `from` down leaves their cells alone. */
  lemma PaddedCells(rows: seq<Row>, from: nat)
    ensures var r := Padded(rows, from);
      && (forall j :: 0 <= j < from && j < |r| ==> r[j] == rows[j])
      && (AllCellsOk(rows) ==> AllCellsOk(r))
      && (Gapless(rows, from) ==> Gapless(r, from))
      && (rows != [] ==> r[|r| - 1].cells == rows[|rows| - 1].cells)
  {
    var r := Padded(rows, from);
    forall j | 0 <= j < from && j < |r| ensures r[j] == rows[j] {
      assert r[j].cells == rows[j].cells;
    }
    if Gapless(rows, from) {
      forall j, k | from <= j <= k && HasCells(r, k) ensures HasCells(r, j) {
        assert HasCells(rows, k) && (HasCells(rows, j) ==> HasCells(r, j));
      }
    }
  }

  /** Padding rows from `from` down moves their ends one column on. */
  lemma PaddedLevel(rows: seq<Row>, from: nat, x: nat)
    requires Level(rows, from, x)
    ensures Level(Padded(rows, from), from, x + 1)
  {
  }

  /** A row that keeps its cells fit, paid out and given a node cell, keeps them fit. */
  lemma FlushedAppendOk(row: Row, c: Cell)
    requires CellsOk(row.cells)
    requires c.NodeCell? && CellFit(c)
    ensures CellsOk(Flushed(row).cells + [c])
  {
    var n := |row.cells|;
    var extra := if row.leftPadding > 0 then [Pad(row.leftPadding), c] else [c];
    assert Flushed(row).cells + [c] == row.cells + extra;
    FitToPrefix(row.cells, extra, n);
    PadsFollowedPrefix(row.cells, extra, n);
    if n > 0 {
      assert (row.cells + extra)[n - 1] == row.cells[n - 1];
    }
  }

  /** Placing a node cell in row `d` keeps every row's cells fit. */
  lemma PlacedCells(rows: seq<Row>, d: nat, c: Cell)
    requires d < |rows| && AllCellsOk(rows)
    requires c.NodeCell? && CellFit(c)
    ensures AllCellsOk(Placed(rows, d, c))
  {
    FlushedAppendOk(rows[d], c);
  }

  /** Row `d`, given a cell, no longer breaks the rule that rows with cells have rows with cells above. */
  lemma PlacedGapless(rows: seq<Row>, d: nat, c: Cell)
    requires d < |rows| && Gapless(rows, d + 1)
    ensures Gapless(Placed(rows, d, c), d)
  {
    var r := Placed(rows, d, c);
    forall j, k | d <= j <= k && HasCells(r, k) ensures HasCells(r, j) {
      if j > d {
        assert HasCells(rows, k) && (HasCells(rows, j) ==> HasCells(r, j));
      }
    }
  }

  /** Row `d`, one span short of the rows below it, ends level with them once given a cell of that span. */
  lemma PlacedLevel(rows: seq<Row>, d: nat, c: Cell)
    requires d + 1 < |rows| && rows[|rows| - 1].cells == []
    requires Level(rows, d + 1, Cursor(rows[d]) + c.span)
    ensures Ready(Placed(rows, d, c), d) && Level(Placed(rows, d, c), d, Cursor(rows[d]) + c.span)
  {
    var r := Placed(rows, d, c);
    var x := Cursor(rows[d]) + c.span;
    assert Cursor(r[d]) == x by {
      FlushedKeeps(rows[d]);
      AppendCellSums(Flushed(rows[d]).cells, c);
    }
    forall j | d < j < |r| ensures Cursor(r[j]) == x {
      assert r[j] == rows[j];
    }
    assert r[|r| - 1] == rows[|rows| - 1];
  }

  /** Placing a cell lists its node last among the node cells of row `d`. */
  lemma PlacedIds(rows: seq<Row>, d: nat, c: Cell)
    requires d < |rows| && c.NodeCell?
    ensures NodeIds(Placed(rows, d, c)[d].cells) == NodeIds(rows[d].cells) + [c.id]
  {
    FlushedKeeps(rows[d]);
    AppendCellSums(Flushed(rows[d]).cells, c);
  }

  /** Rows shaped for the children of a node at depth `d` are, once grown, shaped for its grandchildren. */
  lemma GrownShaped(rows: seq<Row>, d: nat)
    requires Shaped(rows, d)
    ensures Shaped(Grown(rows, d + 1), d + 1)
  {
    GrownCells(rows, d);
    GrownReady(rows, d);
  }

  /**
   * The descent below one child, in the order of `layoutNodeChildren`: rows
   * added through the children's depth, the child's own subtree laid out
   * below, and padding owed below a leaf. Rows through `d` are as they were
   * and keep their cells fit.
   */
  lemma DescendStep(r0: seq<Row>, r1: seq<Row>, r2: seq<Row>, r3: seq<Row>, d: nat, cw: nat)
    requires AllCellsOk(r0) && Gapless(r0, d)
    requires r1 == Grown(r0, d + 1)
    requires |r2| >= |r1| && forall j :: 0 <= j < d + 1 && j < |r1| ==> r2[j] == r1[j]
    requires AllCellsOk(r2) && Gapless(r2, d + 1)
    requires cw == 0 ==> r2 == r1
    requires r3 == if cw == 0 then Padded(r2, d + 1) else r2
    ensures |r3| >= |r0| && d + 1 < |r3|
    ensures forall j :: 0 <= j <= d && j < |r0| ==> r3[j] == r0[j]
    ensures OldCells(r3, d) == OldCells(r0, d)
    ensures AllCellsOk(r3) && Gapless(r3, d + 1)
  {
    GrownCells(r0, d);
    PaddedCells(r2, d + 1);
    assert d + 1 < |r3| && r3[d] == r1[d];
  }

  /** The same descent, for rows that were ready: row `d` still ends at the base, the rows below one span further on. */
  lemma DescendLevel(r0: seq<Row>, r1: seq<Row>, r2: seq<Row>, r3: seq<Row>, d: nat, cw: nat)
    requires Ready(r0, d)
    requires r1 == Grown(r0, d + 1)
    requires |r2| >= |r1| && forall j :: 0 <= j < d + 1 && j < |r1| ==> r2[j] == r1[j]
    requires Ready(r2, d + 1) && Level(r2, d + 1, Base(r1, d + 1) + cw)
    requires cw == 0 ==> r2 == r1
    requires r3 == if cw == 0 then Padded(r2, d + 1) else r2
    ensures d + 1 < |r3| && LastEmpty(r3) && Cursor(r3[d]) == Base(r0, d)
    ensures Level(r3, d + 1, Base(r0, d) + if cw == 0 then 1 else cw)
  {
    var x := Base(r0, d);
    GrownReady(r0, d);
    GrownCells(r0, d);
    assert d + 1 < |r1|;
    assert Cursor(r1[d + 1]) == x && Cursor(r1[d]) == x;
    assert Base(r1, d + 1) == x;
    assert r2[d] == r1[d];
    if cw == 0 {
      assert Level(r2, d + 1, x);
      PaddedLevel(r2, d + 1, x);
      PaddedCells(r2, d + 1);
      assert r3[d] == r2[d];
    }
  }

  /** A prefix one longer is the prefix and the next element. */
  lemma TakeOneMore<T>(s: seq<T>, i: nat)
    requires i < |s|
    ensures s[..i + 1] == s[..i] + [s[i]] && s[..i + 1][..i] == s[..i]
  {
  }

  /**
   * The rows once the subtree `t` is laid out, its children in row `d`, as
   * `layoutNodeChildren` leaves them.
   */
  function LayoutRows(t: Tree, rows: seq<Row>, d: nat): (r: seq<Row>)
    ensures |r| >= |rows|
    decreases t, 1
  {
    LayoutUnder(t.children, rows, d)
  }

  /** The rows once the subtrees `ts`, children of one node, are placed in row `d`, in order. */
  function LayoutUnder(ts: seq<Tree>, rows: seq<Row>, d: nat): (r: seq<Row>)
    ensures |r| >= |rows|
    ensures ts != [] ==> d + 1 < |r|
    decreases ts, 0
  {
    if |ts| == 0 then rows
    else PlacedChild(ts[|ts| - 1], LayoutUnder(ts[..|ts| - 1], rows, d), d)
  }

  /**
   * The rows once the root of `t`, a child of a node at depth `d`, is
   * placed: rows are added through the next depth, the subtree below is
   * laid out there, a leaf owes one column of padding below it, and its
   * cell, spanning its width and at least one column, goes last in row `d`.
   */
  function PlacedChild(t: Tree, rows: seq<Row>, d: nat): (r: seq<Row>)
    ensures |r| >= |rows| && d + 1 < |r|
    decreases t, 2
  {
    var below := LayoutRows(t, Grown(rows, d + 1), d + 1);
    var w := Width(t);
    var padded := if w == 0 then Padded(below, d + 1) else below;
    Placed(padded, d, NodeCell(if w == 0 then 1 else w, CellLabel(t.id), t.id))
  }

  /**
   * Laying out a subtree leaves the rows above its children's row alone, and
   * the rows at all when there are no children; otherwise the children's row
   * ends up with cells.
   */
  lemma {:induction false} LayoutAbove(t: Tree, rows: seq<Row>, d: nat)
    ensures var r := LayoutRows(t, rows, d);
      && (forall j :: 0 <= j < d && j < |rows| ==> r[j] == rows[j])
      && (t.children == [] ==> r == rows)
      && (t.children != [] ==> d + 1 < |r| && r[d].cells != [])
    decreases t, 1
  {
    LayoutUnderAbove(t.children, rows, d);
  }

  /** `LayoutAbove`, for some children. */
  lemma {:induction false} LayoutUnderAbove(ts: seq<Tree>, rows: seq<Row>, d: nat)
    ensures var r := LayoutUnder(ts, rows, d);
      && (forall j :: 0 <= j < d && j < |rows| ==> r[j] == rows[j])
      && (ts == [] ==> r == rows)
      && (ts != [] ==> d + 1 < |r| && r[d].cells != [])
    decreases ts, 0
  {
    if |ts| > 0 {
      var front := ts[..|ts| - 1];
      LayoutUnderAbove(front, rows, d);
      PlacedChildAbove(ts[|ts| - 1], LayoutUnder(front, rows, d), d);
    }
  }

  /**
   * Placing a child leaves the rows above its row alone; its row ends up
   * with cells, the node cells it had and then the child.
   */
  lemma {:induction false} PlacedChildAbove(t: Tree, rows: seq<Row>, d: nat)
    ensures var r := PlacedChild(t, rows, d);
      && (forall j :: 0 <= j < d && j < |rows| ==> r[j] == rows[j])
      && r[d].cells != []
      && NodeIds(OldCells(r, d)) == NodeIds(OldCells(rows, d)) + [t.id]
    decreases t, 2
  {
    var r1 := Grown(rows, d + 1);
    var below := LayoutRows(t, r1, d + 1);
    LayoutAbove(t, r1, d + 1);
    GrownCells(rows, d);
    var w := Width(t);
    var padded := if w == 0 then Padded(below, d + 1) else below;
    PaddedCells(below, d + 1);
    assert padded[d] == r1[d];
    assert NodeIds(r1[d].cells) == NodeIds(OldCells(rows, d));
    PlacedIds(padded, d, NodeCell(if w == 0 then 1 else w, CellLabel(t.id), t.id));
  }

  /**
   * Laying out some children lists them, in order, after the node cells
   * their row already had.
   */
  lemma {:induction false} LayoutUnderIds(ts: seq<Tree>, rows: seq<Row>, d: nat)
    ensures NodeIds(OldCells(LayoutUnder(ts, rows, d), d)) == NodeIds(OldCells(rows, d)) + Roots(ts)
    decreases |ts|
  {
    if |ts| > 0 {
      var front, last := ts[..|ts| - 1], ts[|ts| - 1];
      LayoutUnderIds(front, rows, d);
      PlacedChildAbove(last, LayoutUnder(front, rows, d), d);
      assert Roots(ts) == Roots(front) + [last.id];
      AppendAssoc(NodeIds(OldCells(rows, d)), Roots(front), [last.id]);
    }
  }

  /** Growing the rows adds only rows without cells. */
  lemma GrownOldCells(rows: seq<Row>, d: nat, j: nat)
    ensures OldCells(Grown(rows, d), j) == OldCells(rows, j)
  {
    var r := Grown(rows, d);
    if j < |rows| {
      assert r[..|rows|][j] == r[j];
    }
  }

  /**
   * Laying out a subtree whose children go in row `d` appends to row
   * `j == d + k`, left to right, the nodes `k + 1` levels below its root.
   */
  lemma {:induction false} LayoutGenerations(t: Tree, rows: seq<Row>, d: nat, k: nat, j: nat)
    requires j == d + k
    ensures NodeIds(OldCells(LayoutRows(t, rows, d), j)) == NodeIds(OldCells(rows, j)) + Generation(t, k)
    decreases t, 1
  {
    LayoutUnderGenerations(t.children, rows, d, k, j);
  }

  /** `LayoutGenerations`, for some children placed in row `d`. */
  lemma {:induction false} LayoutUnderGenerations(ts: seq<Tree>, rows: seq<Row>, d: nat, k: nat, j: nat)
    requires j == d + k
    ensures NodeIds(OldCells(LayoutUnder(ts, rows, d), j)) == NodeIds(OldCells(rows, j)) + GenerationOf(ts, k)
    decreases ts, 0
  {
    if |ts| > 0 {
      var front, last := ts[..|ts| - 1], ts[|ts| - 1];
      var mid := LayoutUnder(front, rows, d);
      var before := NodeIds(OldCells(rows, j));
      var g := if k == 0 then [last.id] else Generation(last, k - 1);
      LayoutUnderGenerations(front, rows, d, k, j);
      PlacedChildGenerations(last, mid, d, k, j);
      GenerationOfLast(ts, k);
      AppendAssoc(before, GenerationOf(front, k), g);
    }
  }

  /** The generation `k` levels below some subtrees ends with that of the last of them. */
  lemma GenerationOfLast(ts: seq<Tree>, k: nat)
    requires |ts| > 0
    ensures var last := ts[|ts| - 1];
      GenerationOf(ts, k) == GenerationOf(ts[..|ts| - 1], k) + if k == 0 then [last.id] else Generation(last, k - 1)
  {
  }

  lemma AppendAssoc<T>(a: seq<T>, b: seq<T>, c: seq<T>)
    ensures a + b + c == a + (b + c)
  {
  }

  /** Placing a child in row `d` appends it there, and its descendants `k` levels down to row `j == d + k`. */
  lemma {:induction false} PlacedChildGenerations(t: Tree, rows: seq<Row>, d: nat, k: nat, j: nat)
    requires j == d + k
    ensures NodeIds(OldCells(PlacedChild(t, rows, d), j))
         == NodeIds(OldCells(rows, j)) + (if k == 0 then [t.id] else Generation(t, k - 1))
    decreases t, 3
  {
    if k == 0 {
      PlacedChildAbove(t, rows, d);
    } else {
      PlacedChildDescendants(t, rows, d, k - 1, j);
    }
  }

  /** `PlacedChildGenerations` for the rows below the child's own: row `j`, `k + 1` rows down. */
  lemma {:induction false} PlacedChildDescendants(t: Tree, rows: seq<Row>, d: nat, k: nat, j: nat)
    requires j == d + 1 + k
    ensures NodeIds(OldCells(PlacedChild(t, rows, d), j)) == NodeIds(OldCells(rows, j)) + Generation(t, k)
    decreases t, 2
  {
    var r1 := Grown(rows, d + 1);
    PlacedChildBelow(t, rows, d, j);
    GrownOldCells(rows, d + 1, j);
    LayoutGenerations(t, r1, d + 1, k, j);
  }

  /** Below the child's own row, placing it leaves the rows as its subtree's layout left them. */
  lemma PlacedChildBelow(t: Tree, rows: seq<Row>, d: nat, j: nat)
    requires d < j
    ensures OldCells(PlacedChild(t, rows, d), j) == OldCells(LayoutRows(t, Grown(rows, d + 1), d + 1), j)
  {
    var below := LayoutRows(t, Grown(rows, d + 1), d + 1);
    var w := Width(t);
    var padded := if w == 0 then Padded(below, d + 1) else below;
    assert OldCells(padded, j) == OldCells(below, j);
  }

  /**
   * Laying out a subtree in rows shaped as `render` builds them keeps them
   * so shaped, and leaves every row from the children's down ending level,
   * as many columns further on as the subtree is wide.
   */
  lemma {:induction false} LayoutShaped(t: Tree, rows: seq<Row>, d: nat)
    requires Shaped(rows, d)
    ensures var r := LayoutRows(t, rows, d);
      Shaped(r, d) && Level(r, d, Base(rows, d) + Width(t))
    decreases t, 1
  {
    LayoutUnderShaped(t.children, rows, d);
  }

  /** `LayoutShaped`, for some children. */
  lemma {:induction false} LayoutUnderShaped(ts: seq<Tree>, rows: seq<Row>, d: nat)
    requires Shaped(rows, d)
    ensures var r := LayoutUnder(ts, rows, d);
      Shaped(r, d) && Level(r, d, Base(rows, d) + WidthOf(ts))
    decreases ts, 0
  {
    if |ts| > 0 {
      var front := ts[..|ts| - 1];
      var before := LayoutUnder(front, rows, d);
      LayoutUnderShaped(front, rows, d);
      assert Base(before, d) == Base(rows, d) + WidthOf(front);
      PlacedChildShaped(ts[|ts| - 1], before, d);
    }
  }

  /** Placing a child keeps the rows shaped, and moves their common end on by the child's span. */
  lemma {:induction false} PlacedChildShaped(t: Tree, rows: seq<Row>, d: nat)
    requires Shaped(rows, d)
    ensures var r := PlacedChild(t, rows, d); var w := Width(t);
      Shaped(r, d) && Level(r, d, Base(rows, d) + if w == 0 then 1 else w)
    decreases t, 2
  {
    var r1 := Grown(rows, d + 1);
    GrownShaped(rows, d);
    var r2 := LayoutRows(t, r1, d + 1);
    LayoutShaped(t, r1, d + 1);
    LayoutAbove(t, r1, d + 1);
    var w := Width(t);
    var r3 := if w == 0 then Padded(r2, d + 1) else r2;
    DescendStep(rows, r1, r2, r3, d, w);
    DescendLevel(rows, r1, r2, r3, d, w);
    var cell := NodeCell(if w == 0 then 1 else w, CellLabel(t.id), t.id);
    PlacedCells(r3, d, cell);
    PlacedGapless(r3, d, cell);
    PlacedLevel(r3, d, cell);
  }

  /** Laying out one more child places it after the children before it, and widens them by its span. */
  lemma LayoutOneMore(ts: seq<Tree>, i: nat, rows: seq<Row>, d: nat)
    requires i < |ts|
    ensures LayoutUnder(ts[..i + 1], rows, d) == PlacedChild(ts[i], LayoutUnder(ts[..i], rows, d), d)
    ensures var w := Width(ts[i]); WidthOf(ts[..i + 1]) == WidthOf(ts[..i]) + if w == 0 then 1 else w
  {
    TakeOneMore(ts, i);
  }

  /**
   * `layoutNodeChildren`: lays out the subtree under `node`, whose children
   * go in row `depth`, and returns its width.
   */
  method LayoutNodeChildren(store: Store, node: string, ghost tree: Tree, grid: Grid, depth: nat) returns (width: nat)
    requires store.Valid() && node in store.nodes && tree == store.Subtree(node)
    modifies grid
    ensures width == Width(tree)
    ensures grid.rows == LayoutRows(tree, old(grid.rows), depth)
    decreases store.idBound - |node| + 1, 1
  {
    var children := store.GetNodeChildren(node);
    ghost var ts := tree.children;
    ghost var rows0 := grid.rows;
    var subtreeWidth := 0;
    var i := 0;
    while i < |children|
      invariant i <= |children|
      invariant subtreeWidth == WidthOf(ts[..i])
      invariant grid.rows == LayoutUnder(ts[..i], rows0, depth)
    {
      store.SubtreeAt(node, i);
      var childWidth := PlaceChild(store, children[i], ts[i], grid, depth);
      LayoutOneMore(ts, i, rows0, depth);
      subtreeWidth := subtreeWidth + childWidth;
      i := i + 1;
    }
    width := subtreeWidth;
    assert ts[..|children|] == ts;
  }

  /**
   * One turn of the loop of `layoutNodeChildren`, for one child: rows are
   * added through the children's depth, the child's subtree is laid out
   * there, a leaf owes a column of padding below it, and the child's cell
   * goes last in row `depth`, after the padding that row owed. Returns the
   * span of the cell.
   */
  method PlaceChild(store: Store, child: string, ghost tree: Tree, grid: Grid, depth: nat) returns (span: nat)
    requires store.Valid() && child in store.nodes && tree == store.Subtree(child)
    modifies grid
    ensures var w := Width(tree); span == if w == 0 then 1 else w
    ensures grid.rows == PlacedChild(tree, old(grid.rows), depth)
    decreases store.idBound - |child| + 1, 2
  {
    ghost var rows0 := grid.rows;
    var childrenDepth := depth + 1;
    grid.AddRowsThrough(childrenDepth);
    ghost var below := LayoutRows(tree, grid.rows, childrenDepth);
    var childWidth := LayoutNodeChildren(store, child, tree, grid, childrenDepth);
    assert grid.rows == below && childWidth == Width(tree);
    if childWidth == 0 {
      grid.PadRowsFrom(childrenDepth);
      childWidth := 1;
    }
    var cell := NodeCell(childWidth, CellLabel(child), child);
    assert cell == NodeCell(childWidth, CellLabel(tree.id), tree.id);
    ghost var padded := grid.rows;
    grid.FlushRowPadding(depth);
    grid.AppendCell(depth, cell);
    FlushedThenAppended(padded, depth, cell);
    span := childWidth;
  }

  /** Flushing row `d` and then appending a cell to it is placing the cell there. */
  lemma FlushedThenAppended(rows: seq<Row>, d: nat, c: Cell)
    requires d < |rows|
    ensures var f := rows[d := Flushed(rows[d])];
      f[d := Row(f[d].cells + [c], f[d].leftPadding)] == Placed(rows, d, c)
  {
    FlushedKeeps(rows[d]);
  }

  /**
   * The rows of `render`: the header spans the width of the tree; a row is
   * emitted for every depth that has cells, in order of depth, and none
   * for a tree of the root alone; each row, with its padding paid out,
   * spans exactly the header's columns; row `j` lists the nodes of depth
   * `j + 1`, the first the root's children, and no node is deeper than the
   * last row.
   */
  method Render(store: Store) returns (t: Table)
    requires store.Valid()
    ensures t.headerSpan == Width(store.Subtree(Root))
    ensures t.rows == [] <==> store.nodes[Root].keys == []
    ensures forall j :: 0 <= j < |t.rows| ==> t.rows[j].depth == j
    ensures forall j :: 0 <= j < |t.rows| ==>
      t.rows[j].cells != [] && SumSpans(t.rows[j].cells) == t.headerSpan && EmittedOk(t.rows[j].cells)
    ensures t.rows != [] ==> NodeIds(t.rows[0].cells) == store.ChildIds(Root)
    ensures EmittedFrom(LayoutRows(store.Subtree(Root), [], 0), t.rows)
    ensures forall j :: 0 <= j < |t.rows| ==> NodeIds(t.rows[j].cells) == Generation(store.Subtree(Root), j)
    ensures forall k :: |t.rows| <= k ==> Generation(store.Subtree(Root), k) == []
  {
    var root := store.GetRoot();
    var grid := new Grid();
    ghost var tree := store.Subtree(Root);
    var width := LayoutNodeChildren(store, root, tree, grid, 0);
    ghost var laid := grid.rows;
    assert laid == LayoutRows(tree, [], 0);
    LaidGapless(tree);
    var out := grid.EmitRows();
    t := Table(width, out);
    RenderedEmpty(tree, out);
    RenderedSpans(tree, out);
    RenderedFirst(tree, out);
    RenderedGenerations(tree, out);
    store.SubtreeRoots(Root);
  }

  /** The rows laid out for a whole tree have no row without cells above a row with cells. */
  lemma LaidGapless(t: Tree)
    ensures Gapless(LayoutRows(t, [], 0), 0)
  {
    LayoutShaped(t, [], 0);
  }

  /** No row is emitted for a tree of the root alone, and at least one otherwise. */
  lemma RenderedEmpty(t: Tree, out: seq<TableRow>)
    requires EmittedFrom(LayoutRows(t, [], 0), out)
    ensures out == [] <==> t.children == []
  {
    LayoutAbove(t, [], 0);
  }

  /**
   * Each emitted row is tagged with its depth, has cells, and, with its
   * padding paid out, spans the width of the tree in cells fit to show.
   */
  lemma RenderedSpans(t: Tree, out: seq<TableRow>)
    requires EmittedFrom(LayoutRows(t, [], 0), out)
    ensures forall j :: 0 <= j < |out| ==>
      out[j].depth == j && out[j].cells != [] && SumSpans(out[j].cells) == Width(t) && EmittedOk(out[j].cells)
  {
    var laid := LayoutRows(t, [], 0);
    LayoutShaped(t, [], 0);
    forall j | 0 <= j < |out|
      ensures out[j].cells != [] && SumSpans(out[j].cells) == Width(t) && EmittedOk(out[j].cells)
    {
      FlushedEmits(laid[j]);
    }
  }

  /**
   * Row `j` of the table lists, left to right, the nodes `j + 1` levels
   * below the root, and no node lies deeper than the last row: every node
   * below the root has its cell in the row of its depth, and only there.
   */
  lemma RenderedGenerations(t: Tree, out: seq<TableRow>)
    requires EmittedFrom(LayoutRows(t, [], 0), out)
    ensures forall j :: 0 <= j < |out| ==> NodeIds(out[j].cells) == Generation(t, j)
    ensures forall k :: |out| <= k ==> Generation(t, k) == []
  {
    var laid := LayoutRows(t, [], 0);
    forall j | 0 <= j < |out| ensures NodeIds(out[j].cells) == Generation(t, j) {
      LayoutGenerations(t, [], 0, j, j);
      FlushedKeeps(laid[j]);
      assert OldCells(laid, j) == laid[j].cells;
    }
    forall k | |out| <= k ensures Generation(t, k) == [] {
      LayoutGenerations(t, [], 0, k, k);
      assert OldCells(laid, k) == [];
    }
  }

  /** The first emitted row lists the root's children, in order. */
  lemma RenderedFirst(t: Tree, out: seq<TableRow>)
    requires EmittedFrom(LayoutRows(t, [], 0), out)
    ensures out != [] ==> NodeIds(out[0].cells) == Roots(t.children)
  {
    var laid := LayoutRows(t, [], 0);
    LayoutUnderIds(t.children, [], 0);
    if out != [] {
      FlushedKeeps(laid[0]);
      assert OldCells(laid, 0) == laid[0].cells;
    }
  }

  /** A row built up by the layout, once its padding is paid out, ends where it did and is fit to emit. */
  lemma FlushedEmits(r: Row)
    requires CellsOk(r.cells)
    ensures SumSpans(Flushed(r).cells) == Cursor(r)
    ensures NodeIds(Flushed(r).cells) == NodeIds(r.cells)
    ensures EmittedOk(Flushed(r).cells)
  {
    FlushedKeeps(r);
    if r.leftPadding > 0 {
      FitToPrefix(r.cells, [Pad(r.leftPadding)], |r.cells|);
      PadsFollowedPrefix(r.cells, [Pad(r.leftPadding)], |r.cells|);
    }
  }

}
