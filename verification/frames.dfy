/**
 * The slice of pandas DataFrame behaviour the scraper relies on.  A frame is held column by
 * column, each column a name and one cell per row; a cell is text or missing (NaN).
 * `Rows` reads the same frame row by row and is the reference the row operations are
 * specified against.
 */
module Frames {
  import opened Wrappers
  import opened Seqs

  type Cell = Option<string>

  /** A frame whose columns all have one cell per row, as every frame pandas builds does. */
  type Table = f: Frame | f.Valid() witness NoFrame

  datatype Column = Column(name: string, cells: seq<Cell>)

  datatype Frame = Frame(height: nat, columns: seq<Column>)
  {
    /** Every column has one cell per row. */
    predicate Valid()
    {
      forall j | 0 <= j < |columns| :: |columns[j].cells| == height
    }

    /** `DataFrame.empty`: no rows or no columns. */
    predicate Empty()
    {
      height == 0 || |columns| == 0
    }

    function Names(): seq<string>
    {
      Map(columns, ColumnName)
    }
  }

  function ColumnName(c: Column): string
  {
    c.name
  }

  /** `pd.DataFrame()`. */
  const NoFrame := Frame(0, [])

  function CellAt(c: Column, i: nat): Cell
  {
    if i < |c.cells| then c.cells[i] else None
  }

  /** Row `i`, read across the columns. */
  function Row(f: Frame, i: nat): seq<Cell>
  {
    Map(f.columns, c => CellAt(c, i))
  }

  /** The frame read row by row. */
  function Rows(f: Frame): seq<seq<Cell>>
  {
    Map(Range(f.height), i => Row(f, i))
  }

  function Present(c: Cell): bool
  {
    c.Some?
  }

  // ---------------------------------------------------------------------------------------
  // Columns

  /** Keeps the columns `keep` accepts, in their order; the rows are untouched. */
  function KeepColumns(f: Frame, keep: Column -> bool): (r: Frame)
    ensures r.height == f.height
    ensures f.Valid() ==> r.Valid()
    ensures Subsequence(r.columns, f.columns)
    ensures forall j | 0 <= j < |r.columns| :: keep(r.columns[j]) && r.columns[j] in f.columns
    ensures forall j | 0 <= j < |f.columns| :: keep(f.columns[j]) ==> f.columns[j] in r.columns
  {
    FilterSubsequence(f.columns, keep);
    Frame(f.height, Filter(f.columns, keep))
  }

  /** A column with at least one present cell. */
  predicate HasValues(c: Column)
  {
    exists i | 0 <= i < |c.cells| :: c.cells[i].Some?
  }

  /** `dropna(axis=1, how='all')`: drops the columns with no present cell. */
  function DropAllMissing(f: Frame): (r: Frame)
    ensures r.height == f.height
    ensures f.Valid() ==> r.Valid()
    ensures Subsequence(r.columns, f.columns)
    ensures forall j | 0 <= j < |r.columns| :: HasValues(r.columns[j]) && r.columns[j] in f.columns
    ensures forall j | 0 <= j < |f.columns| :: HasValues(f.columns[j]) ==> f.columns[j] in r.columns
  {
    KeepColumns(f, HasValues)
  }

  /** The first column called `n`. */
  function ColumnNamed(f: Frame, n: string): (c: Column)
    requires n in f.Names()
    ensures c in f.columns && c.name == n
  {
    f.columns[IndexOf(f.Names(), n)]
  }

  /** `df[names]` restricted to the names present: one column per such name, in the list's order. */
  function SelectByNames(f: Frame, names: seq<string>): (r: Frame)
    ensures r.height == f.height
    ensures f.Valid() ==> r.Valid()
    ensures r.Names() == Filter(names, n => n in f.Names())
    ensures forall k | 0 <= k < |r.columns| :: r.columns[k].name in f.Names() && r.columns[k] == ColumnNamed(f, r.columns[k].name)
  {
    Frame(f.height, ColumnsNamed(f, names))
  }

  function ColumnsNamed(f: Frame, names: seq<string>): (cs: seq<Column>)
    ensures Map(cs, ColumnName) == Filter(names, n => n in f.Names())
    ensures forall k | 0 <= k < |cs| :: cs[k].name in f.Names() && cs[k] == ColumnNamed(f, cs[k].name)
  {
    var present := Filter(names, n => n in f.Names());
    var cs := seq(|present|, k requires 0 <= k < |present| => ColumnNamed(f, present[k]));
    assert forall k | 0 <= k < |cs| :: cs[k].name == present[k];
    cs
  }

  // ---------------------------------------------------------------------------------------
  // Rows

  /** The row test "the cell of column `j` satisfies `ok`". */
  function CellOk(j: nat, ok: Cell -> bool): seq<Cell> -> bool
  {
    row => j < |row| && ok(row[j])
  }

  /** The row test "the cell of `c` at row `i` satisfies `ok`", on row positions. */
  function PassesAt(c: Column, ok: Cell -> bool): nat -> bool
  {
    (i: nat) => ok(CellAt(c, i))
  }

  /** The positions of the rows whose cell in column `j` satisfies `ok`, in order. */
  function PassingRows(f: Frame, j: nat, ok: Cell -> bool): (idx: seq<nat>)
    requires j < |f.columns|
    ensures forall k | 0 <= k < |idx| :: idx[k] < f.height && ok(CellAt(f.columns[j], idx[k]))
    ensures forall i | 0 <= i < f.height :: ok(CellAt(f.columns[j], i)) ==> i in idx
  {
    var idx := Filter<nat>(Range(f.height), PassesAt(f.columns[j], ok));
    forall k | 0 <= k < |idx|
      ensures idx[k] < f.height
    {
      var m :| 0 <= m < f.height && Range(f.height)[m] == idx[k];
    }
    forall i | 0 <= i < f.height && ok(CellAt(f.columns[j], i))
      ensures i in idx
    {
      assert Range(f.height)[i] == i;
    }
    idx
  }

  /** Column `c` cut down to the rows at positions `idx`, in that order. */
  function CutTo(c: Column, idx: seq<nat>): (r: Column)
    ensures r.name == c.name && |r.cells| == |idx|
    ensures forall k | 0 <= k < |idx| :: r.cells[k] == CellAt(c, idx[k])
  {
    Column(c.name, Map(idx, i => CellAt(c, i)))
  }

  /** `df[mask]` for a mask on column `j`: the rows whose cell in column `j` satisfies `ok`. */
  function RowsWhere(f: Frame, j: nat, ok: Cell -> bool): (r: Frame)
    requires f.Valid() && j < |f.columns|
    ensures r.Valid() && r.height <= f.height
    ensures r.Names() == f.Names()
    ensures Rows(r) == Filter(Rows(f), CellOk(j, ok))
    ensures forall m, i | 0 <= m < |r.columns| && 0 <= i < r.height :: r.columns[m].cells[i] in f.columns[m].cells
  {
    var idx := PassingRows(f, j, ok);
    var r := Frame(|idx|, CutColumns(f, idx));
    assert r.Names() == f.Names();
    PickedRows(f, idx, r);
    MapFilter(Range(f.height), (i: nat) => Row(f, i), PassesAt(f.columns[j], ok), CellOk(j, ok));
    r
  }

  /** The columns of `f`, each cut down to the rows at positions `idx`. */
  function CutColumns(f: Frame, idx: seq<nat>): (cs: seq<Column>)
    ensures |cs| == |f.columns|
    ensures forall m | 0 <= m < |f.columns| :: cs[m] == CutTo(f.columns[m], idx)
  {
    Map(f.columns, (c: Column) => CutTo(c, idx))
  }

  /** Selecting rows cuts every column down to the passing rows. */
  lemma RowsWhereCut(f: Frame, j: nat, ok: Cell -> bool)
    requires f.Valid() && j < |f.columns|
    ensures var r := RowsWhere(f, j, ok);
            r.height == |PassingRows(f, j, ok)| && r.columns == CutColumns(f, PassingRows(f, j, ok))
  {
  }

  /**
   * Selecting rows of a frame that is itself a cut at positions `a`: testing the cut column at
   * its own rows is testing the original column at the positions `a` names.
   */
  lemma PassingCut(c: Column, a: seq<nat>, ok: Cell -> bool)
    ensures var b := Filter<nat>(Range(|a|), PassesAt(CutTo(c, a), ok));
            (forall k | 0 <= k < |b| :: b[k] < |a|) && Compose(a, b) == Filter(a, PassesAt(c, ok))
  {
    var n := |a|;
    var q := PassesAt(CutTo(c, a), ok);
    var at := (k: nat) => if k < n then a[k] else 0;
    var b := Filter<nat>(Range(n), q);
    forall k | 0 <= k < |b|
      ensures b[k] < n
    {
      var m :| 0 <= m < n && Range(n)[m] == b[k];
    }
    forall i | 0 <= i < n
      ensures q(Range(n)[i]) == PassesAt(c, ok)(at(Range(n)[i]))
    {
      assert CellAt(CutTo(c, a), i) == CellAt(c, a[i]);
    }
    MapFilter(Range(n), at, q, PassesAt(c, ok));
    assert Map<nat, nat>(Range(n), at) == a;
    assert Compose(a, b) == Map<nat, nat>(b, at);
  }

  /**
   * `f` is made of rows of `t`: it has one row per position of `idx`, and each of its columns
   * is the column of `t` of the same name cut down to those positions.
   */
  predicate PicksRows(f: Frame, t: Frame, idx: seq<nat>)
  {
    && f.height == |idx|
    && forall k | 0 <= k < |f.columns| :: f.columns[k].name in t.Names() && f.columns[k] == CutTo(ColumnNamed(t, f.columns[k].name), idx)
  }

  /** A cut column holds a value exactly when the column does at one of the picked positions. */
  lemma CutHasValues(c: Column, idx: seq<nat>)
    ensures HasValues(CutTo(c, idx)) <==> exists i | i in idx :: Present(CellAt(c, i))
  {
    var r := CutTo(c, idx);
    if i :| i in idx && Present(CellAt(c, i)) {
      var k :| 0 <= k < |idx| && idx[k] == i;
      assert r.cells[k].Some?;
    }
    if HasValues(r) {
      var k :| 0 <= k < |r.cells| && r.cells[k].Some?;
      assert idx[k] in idx && Present(CellAt(c, idx[k]));
    }
  }

  /** Cutting a cut column is one cut, at the composed positions. */
  lemma CutTwice(c: Column, a: seq<nat>, b: seq<nat>)
    requires forall k | 0 <= k < |b| :: b[k] < |a|
    ensures CutTo(CutTo(c, a), b) == CutTo(c, Compose(a, b))
  {
  }

  /** The positions `a` picks at the places `b` names. */
  function Compose(a: seq<nat>, b: seq<nat>): (r: seq<nat>)
    requires forall k | 0 <= k < |b| :: b[k] < |a|
    ensures |r| == |b| && forall k | 0 <= k < |b| :: r[k] == a[b[k]]
  {
    seq(|b|, k requires 0 <= k < |b| => a[b[k]])
  }

  /** Keeping some of the columns, at the same height, keeps a frame made of rows of `t`. */
  lemma PicksRowsKept(f: Frame, g: Frame, t: Frame, idx: seq<nat>)
    requires PicksRows(f, t, idx) && g.height == f.height
    requires forall k | 0 <= k < |g.columns| :: g.columns[k] in f.columns
    ensures PicksRows(g, t, idx)
  {
    forall k | 0 <= k < |g.columns|
      ensures g.columns[k].name in t.Names() && g.columns[k] == CutTo(ColumnNamed(t, g.columns[k].name), idx)
    {
      var m :| 0 <= m < |f.columns| && f.columns[m] == g.columns[k];
    }
  }

  /**
   * Selecting rows of a frame made of rows of `t`, on its column `n`, keeps the rows of `t`
   * whose cell in `t`'s column `n` passes, among those it was made of.
   */
  lemma PicksRowsWhere(f: Frame, t: Frame, idx: seq<nat>, n: string, ok: Cell -> bool)
    requires f.Valid() && PicksRows(f, t, idx) && n in f.Names()
    ensures n in t.Names()
    ensures PicksRows(RowsWhere(f, IndexOf(f.Names(), n), ok), t, Filter(idx, PassesAt(ColumnNamed(t, n), ok)))
  {
    var j := IndexOf(f.Names(), n);
    assert f.columns[j].name == n;
    var tc := ColumnNamed(t, n);
    assert f.columns[j] == CutTo(tc, idx);
    var r := RowsWhere(f, j, ok);
    var b := PassingRows(f, j, ok);
    RowsWhereCut(f, j, ok);
    PassingCut(tc, idx, ok);
    assert b == Filter<nat>(Range(|idx|), PassesAt(CutTo(tc, idx), ok));
    var keep := Filter(idx, PassesAt(tc, ok));
    forall k | 0 <= k < |r.columns|
      ensures r.columns[k].name in t.Names() && r.columns[k] == CutTo(ColumnNamed(t, r.columns[k].name), keep)
    {
      var fc := f.columns[k];
      assert r.columns[k] == CutTo(fc, b);
      assert fc == CutTo(ColumnNamed(t, fc.name), idx);
      CutTwice(ColumnNamed(t, fc.name), idx, b);
    }
  }

  /** Some cell of column `c` satisfies `ok`. */
  predicate AnyCell(c: Column, ok: Cell -> bool)
  {
    exists i | 0 <= i < |c.cells| :: ok(c.cells[i])
  }

  /** Every cell of column `c` satisfies `ok`. */
  predicate AllCells(c: Column, ok: Cell -> bool)
  {
    forall i | 0 <= i < |c.cells| :: ok(c.cells[i])
  }

  /** After selecting rows on column `j`, every cell left in column `j` passes the test. */
  lemma RowsWhereAll(f: Frame, j: nat, ok: Cell -> bool)
    requires f.Valid() && j < |f.columns|
    ensures AllCells(RowsWhere(f, j, ok).columns[j], ok)
  {
    var r := RowsWhere(f, j, ok);
    forall i | 0 <= i < |r.columns[j].cells|
      ensures ok(r.columns[j].cells[i])
    {
      assert Rows(r)[i] == Row(r, i);
      assert CellOk(j, ok)(Rows(r)[i]);
      assert Row(r, i)[j] == CellAt(r.columns[j], i);
    }
  }

  /** Selecting rows keeps whatever holds of every cell of a column. */
  lemma RowsWhereKeeps(f: Frame, j: nat, ok: Cell -> bool, n: string, q: Cell -> bool)
    requires f.Valid() && j < |f.columns| && n in f.Names() && AllCells(ColumnNamed(f, n), q)
    ensures n in RowsWhere(f, j, ok).Names() && AllCells(ColumnNamed(RowsWhere(f, j, ok), n), q)
  {
    var r := RowsWhere(f, j, ok);
    var m := IndexOf(f.Names(), n);
    assert IndexOf(r.Names(), n) == m;
    forall i | 0 <= i < |r.columns[m].cells|
      ensures q(r.columns[m].cells[i])
    {
      assert r.columns[m].cells[i] in f.columns[m].cells;
    }
  }

  lemma PickedRows(f: Frame, idx: seq<nat>, r: Frame)
    requires r == Frame(|idx|, CutColumns(f, idx))
    ensures Rows(r) == Map(idx, i => Row(f, i))
  {
    forall k | 0 <= k < |idx|
      ensures Row(r, k) == Row(f, idx[k])
    {
      forall m | 0 <= m < |f.columns|
        ensures CellAt(r.columns[m], k) == CellAt(f.columns[m], idx[k])
      {
      }
    }
  }

  // ---------------------------------------------------------------------------------------
  // assign and concat

  /** `df.assign(name=v)`: every column called `name` becomes `v` throughout, or one such column is appended. */
  function Assign(f: Frame, name: string, v: string): (r: Frame)
    requires f.Valid()
    ensures r.Valid() && r.height == f.height
    ensures r.Names() == if name in f.Names() then f.Names() else f.Names() + [name]
    ensures ColumnNamed(r, name).cells == Repeat(Some(v), f.height)
    ensures forall j | 0 <= j < |f.columns| && f.columns[j].name != name :: r.columns[j] == f.columns[j]
  {
    var filled := Column(name, Repeat(Some(v), f.height));
    if name in f.Names() then
      var r := Frame(f.height, Map(f.columns, (c: Column) => if c.name == name then filled else c));
      assert forall j | 0 <= j < |f.columns| :: r.Names()[j] == f.Names()[j];
      r
    else
      var r := Frame(f.height, f.columns + [filled]);
      assert r.Names() == f.Names() + [name];
      assert IndexOf(r.Names(), name) == |f.columns|;
      r
  }

  /** What frame `f` puts under column `n` of a concatenation: its column `n`, or missing cells. */
  function CellsFor(f: Frame, n: string): seq<Cell>
  {
    if n in f.Names() then ColumnNamed(f, n).cells else Repeat(None, f.height)
  }

  /** The cells from position `o` on begin with `block`. */
  predicate SliceIs(cells: seq<Cell>, o: int, block: seq<Cell>)
  {
    0 <= o && o + |block| <= |cells| && cells[o..o + |block|] == block
  }

  function StackCells(frames: seq<Frame>, n: string): seq<Cell>
  {
    Flatten(Map(frames, f => CellsFor(f, n)))
  }

  function Height(f: Frame): int
  {
    f.height
  }

  /** The column names of all frames, each once, in order of first appearance. */
  function AllNames(frames: seq<Frame>): seq<string>
  {
    Distinct(Flatten(Map(frames, (f: Frame) => f.Names())))
  }

  /**
   * `pd.concat(frames, ignore_index=True)`: the rows of each frame in turn; the columns are the
   * union of the frames' columns in order of first appearance, missing where a frame lacks one.
   */
  function ConcatFrames(frames: seq<Frame>): (r: Frame)
    requires forall k | 0 <= k < |frames| :: frames[k].Valid()
    ensures r.Valid()
    ensures r.height == Sum(frames, Height)
    ensures r.Names() == AllNames(frames)
    ensures NoDuplicates(r.Names())
    ensures forall k, n | 0 <= k < |frames| && n in frames[k].Names() :: n in r.Names()
    ensures forall n | n in r.Names() :: ColumnNamed(r, n).cells == StackCells(frames, n)
  {
    var names := AllNames(frames);
    SumNonNegative(frames, Height);
    var h := Sum(frames, Height);
    forall n
      ensures |StackCells(frames, n)| == h
    {
      StackHeight(frames, n);
    }
    var r := Frame(h, Map(names, n => Column(n, StackCells(frames, n))));
    assert r.Names() == names;
    forall n | n in r.Names()
      ensures ColumnNamed(r, n).cells == StackCells(frames, n)
    {
      assert r.columns[IndexOf(names, n)].name == n;
    }
    forall k, n | 0 <= k < |frames| && n in frames[k].Names()
      ensures n in names
    {
      FlattenMember(Map(frames, (f: Frame) => f.Names()), k, n);
    }
    r
  }

  lemma {:induction false} StackHeight(frames: seq<Frame>, n: string)
    requires forall k | 0 <= k < |frames| :: frames[k].Valid()
    ensures |StackCells(frames, n)| == Sum(frames, Height)
  {
    if |frames| > 0 {
      StackHeight(frames[1..], n);
      assert Map(frames, f => CellsFor(f, n))[1..] == Map(frames[1..], f => CellsFor(f, n));
    }
  }

  lemma {:induction false} FlattenMember<T>(ss: seq<seq<T>>, k: nat, x: T)
    requires k < |ss| && x in ss[k]
    ensures x in Flatten(ss)
  {
    if k > 0 {
      FlattenMember(ss[1..], k - 1, x);
    }
  }

  lemma FlattenMiddle<T>(a: seq<seq<T>>, x: seq<T>, b: seq<seq<T>>)
    ensures var o := |Flatten(a)|;
            o + |x| <= |Flatten(a + [x] + b)| && Flatten(a + [x] + b)[o..o + |x|] == x
  {
    FlattenAppend(a + [x], b);
    FlattenAppend(a, [x]);
    assert Flatten([x]) == x + Flatten([]);
  }

  /**
   * In every column of a concatenation, the rows of frame `k` sit after the rows of the frames
   * before it and are exactly what frame `k` holds under that name, or missing cells.
   */
  lemma ConcatBlocks(frames: seq<Frame>, k: nat, n: string)
    requires forall m | 0 <= m < |frames| :: frames[m].Valid()
    requires k < |frames| && n in ConcatFrames(frames).Names()
    ensures var r := ConcatFrames(frames);
            var o := Sum(frames[..k], Height);
            && 0 <= o && o + frames[k].height <= r.height
            && ColumnNamed(r, n).cells[o..o + frames[k].height] == CellsFor(frames[k], n)
  {
    StackBlock(frames, k, n);
  }

  lemma StackBlock(frames: seq<Frame>, k: nat, n: string)
    requires forall m | 0 <= m < |frames| :: frames[m].Valid()
    requires k < |frames|
    ensures var o := Sum(frames[..k], Height);
            && 0 <= o && o + frames[k].height <= |StackCells(frames, n)|
            && StackCells(frames, n)[o..o + frames[k].height] == CellsFor(frames[k], n)
  {
    var before := frames[..k];
    var cells := (f: Frame) => CellsFor(f, n);
    SplitAt(frames, k, cells);
    FlattenMiddle(Map(before, cells), CellsFor(frames[k], n), Map(frames[k + 1..], cells));
    StackHeight(before, n);
    SumNonNegative(before, Height);
    assert |CellsFor(frames[k], n)| == frames[k].height;
  }

  lemma SplitAt(frames: seq<Frame>, k: nat, cells: Frame -> seq<Cell>)
    requires k < |frames|
    ensures Map(frames, cells) == Map(frames[..k], cells) + [cells(frames[k])] + Map(frames[k + 1..], cells)
  {
  }
}
