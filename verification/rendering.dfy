/** What `to_html` writes into each cell, stated independently of the
    loop: a non-empty cell shows its own thumbnail, an empty cell repeats
    the thumbnail of the latest non-empty cell before it in row-major order.
    The rule is stated over a plain grid of optional thumbnails; it is then
    applied to the grid of a Kohonen map whose every cell has an entry and
    whose every sample id can be looked up. */
module Rendering {
  import opened Wrappers
  import opened Seqs
  import opened Html
  import opened Table

  // ---------------------------------------------------------------------
  // Grids of thumbnails

  /** Each cell's own thumbnail, `None` for an empty cell, row by row. */
  type ThumbGrid = seq<seq<Option<string>>>

  /** Every row of `g` has `cols` cells. */
  predicate IsGrid(g: ThumbGrid, cols: nat) {
    forall i :: 0 <= i < |g| ==> |g[i]| == cols
  }

  predicate InGrid(g: ThumbGrid, cols: nat, i: nat, j: nat) {
    i < |g| && j < cols
  }

  /** Cell `(a, b)` comes strictly before cell `(i, j)` in row-major
      order. */
  predicate Before(a: nat, b: nat, i: nat, j: nat) {
    a < i || (a == i && b < j)
  }

  /** What cell `(i, j)` shows: its own thumbnail, or else what the cell
      before it in row-major order shows; `None` when no non-empty cell
      has been met yet. */
  function Shown(g: ThumbGrid, cols: nat, i: nat, j: nat): Option<string>
    requires IsGrid(g, cols) && InGrid(g, cols, i, j)
    decreases i, j
  {
    if g[i][j].Some? then g[i][j]
    else if j > 0 then Shown(g, cols, i, j - 1)
    else if i > 0 then Shown(g, cols, i - 1, cols - 1)
    else None
  }

  /** `Shown` is the latest thumbnail: it is `None` exactly when every cell
      up to `(i, j)` is empty, and otherwise it is the thumbnail of some
      cell `(a, b)` at or before `(i, j)` after which, up to `(i, j)`, every
      cell is empty. */
  lemma {:induction false} ShownIsLatestThumb(g: ThumbGrid, cols: nat, i: nat, j: nat)
    requires IsGrid(g, cols) && InGrid(g, cols, i, j)
    ensures Shown(g, cols, i, j).None? <==>
      forall a: nat, b: nat :: InGrid(g, cols, a, b) && !Before(i, j, a, b) ==> g[a][b].None?
    ensures Shown(g, cols, i, j).Some? ==>
      exists a: nat, b: nat :: InGrid(g, cols, a, b) && !Before(i, j, a, b)
        && g[a][b] == Shown(g, cols, i, j)
        && forall a': nat, b': nat :: InGrid(g, cols, a', b') && Before(a, b, a', b') && !Before(i, j, a', b')
             ==> g[a'][b'].None?
    decreases i, j
  {
    if g[i][j].Some? {
      assert InGrid(g, cols, i, j) && !Before(i, j, i, j) && g[i][j] == Shown(g, cols, i, j);
    } else if j > 0 || i > 0 {
      var pi: nat, pj: nat := if j > 0 then i else i - 1, if j > 0 then j - 1 else cols - 1;
      ShownIsLatestThumb(g, cols, pi, pj);
      assert Shown(g, cols, i, j) == Shown(g, cols, pi, pj);
      // The cells at or before (i, j) are those at or before (pi, pj), plus (i, j) itself.
      assert forall a: nat, b: nat :: InGrid(g, cols, a, b) && !Before(i, j, a, b) ==>
        (a == i && b == j) || !Before(pi, pj, a, b);
      if Shown(g, cols, i, j).Some? {
        var a: nat, b: nat :| InGrid(g, cols, a, b) && !Before(pi, pj, a, b)
          && g[a][b] == Shown(g, cols, pi, pj)
          && forall a': nat, b': nat :: InGrid(g, cols, a', b') && Before(a, b, a', b') && !Before(pi, pj, a', b')
               ==> g[a'][b'].None?;
        assert !Before(i, j, a, b);
      }
    } else {
      assert forall a: nat, b: nat :: InGrid(g, cols, a, b) && !Before(i, j, a, b) ==> a == 0 && b == 0;
    }
  }

  /** The first cell is non-empty (or there are no cells), so no empty
      cell is ever met with `img` unassigned. */
  predicate OriginFilled(g: ThumbGrid, cols: nat)
    requires IsGrid(g, cols)
  {
    |g| == 0 || cols == 0 || g[0][0].Some?
  }

  lemma {:induction false} ShownSomeAt(g: ThumbGrid, cols: nat, i: nat, j: nat)
    requires IsGrid(g, cols) && OriginFilled(g, cols) && InGrid(g, cols, i, j)
    ensures Shown(g, cols, i, j).Some?
    decreases i, j
  {
    if g[i][j].None? {
      if j > 0 {
        ShownSomeAt(g, cols, i, j - 1);
      } else if i > 0 {
        ShownSomeAt(g, cols, i - 1, cols - 1);
      }
    }
  }

  /** The table of what every cell shows, row by row. */
  function ShownGrid(g: ThumbGrid, cols: nat): (t: seq<seq<string>>)
    requires IsGrid(g, cols) && OriginFilled(g, cols)
    ensures |t| == |g|
    ensures forall i :: 0 <= i < |t| ==> |t[i]| == cols
    ensures forall i, j :: 0 <= i < |t| && 0 <= j < |t[i]| ==> Some(t[i][j]) == Shown(g, cols, i, j)
  {
    forall i: nat, j: nat | InGrid(g, cols, i, j)
      ensures Shown(g, cols, i, j).Some?
    {
      ShownSomeAt(g, cols, i, j);
    }
    seq(|g|, i requires 0 <= i < |g| =>
      seq(cols, j requires 0 <= j < cols => Shown(g, cols, i, j).value))
  }

  /** The value of `img` on entering cell `(i, j)`. */
  function Entering(g: ThumbGrid, cols: nat, i: nat, j: nat): Option<string>
    requires IsGrid(g, cols) && InGrid(g, cols, i, j)
  {
    if j > 0 then Shown(g, cols, i, j - 1)
    else if i > 0 then Shown(g, cols, i - 1, cols - 1)
    else None
  }

  /** The value of `img` on entering row `i`. */
  function RowEntering(g: ThumbGrid, cols: nat, i: nat): Option<string>
    requires IsGrid(g, cols) && i <= |g|
  {
    if i > 0 && cols > 0 then Shown(g, cols, i - 1, cols - 1) else None
  }

  // ---------------------------------------------------------------------
  // The grid of a Kohonen map

  /** Cell `(i, j)` has an entry in `samples_dict` and all its ids can be
      looked up in `image_indices`. */
  predicate CellResolvable(ctx: Context, i: nat, j: nat) {
    && CellKey(i, j) in ctx.kmap.samples
    && AllResolve(ctx.indices, ctx.kmap.samples[CellKey(i, j)])
  }

  predicate Resolvable(ctx: Context) {
    forall i: nat, j: nat :: i < ctx.kmap.rows && j < ctx.kmap.cols ==> CellResolvable(ctx, i, j)
  }

  /** The thumbnail markup a non-empty cell builds; `None` for an empty
      cell. */
  function OwnThumb(ctx: Context, i: nat, j: nat): Option<string>
    requires CellResolvable(ctx, i, j)
  {
    var ids := ctx.kmap.samples[CellKey(i, j)];
    if |ids| == 0 then None
    else Some(ThumbMarkup(CellThumbnail(ctx.directory, ctx.indices, ids).value))
  }

  /** The map's cells with their own thumbnails, in the map's shape. */
  function OwnGrid(ctx: Context): (g: ThumbGrid)
    requires Resolvable(ctx)
    ensures |g| == ctx.kmap.rows && IsGrid(g, ctx.kmap.cols)
    ensures forall i, j :: 0 <= i < |g| && 0 <= j < ctx.kmap.cols ==> g[i][j] == OwnThumb(ctx, i, j)
  {
    seq(ctx.kmap.rows, i requires 0 <= i < ctx.kmap.rows =>
      seq(ctx.kmap.cols, j requires 0 <= j < ctx.kmap.cols => OwnThumb(ctx, i, j)))
  }

  /** Every cell resolves and the first cell of the map is non-empty. */
  predicate Renderable(ctx: Context) {
    Resolvable(ctx) && OriginFilled(OwnGrid(ctx), ctx.kmap.cols)
  }

  /** What every cell of the map shows, row by row. */
  function ShownTable(ctx: Context): (t: seq<seq<string>>)
    requires Renderable(ctx)
    ensures |t| == ctx.kmap.rows
    ensures forall i :: 0 <= i < |t| ==> |t[i]| == ctx.kmap.cols
    ensures forall i, j :: 0 <= i < |t| && 0 <= j < |t[i]| ==>
      Some(t[i][j]) == Shown(OwnGrid(ctx), ctx.kmap.cols, i, j)
  {
    ShownGrid(OwnGrid(ctx), ctx.kmap.cols)
  }

  // ---------------------------------------------------------------------
  // The loop writes what the cells show

  /** A row written without error is followed by the rows after it. */
  lemma RowStep(ctx: Context, i: nat, img: Option<string>)
    requires i < ctx.kmap.rows
    requires WriteCells(ctx, i, 0, img).error.None?
    ensures var row := WriteCells(ctx, i, 0, img);
      var rest := WriteRows(ctx, i + 1, row.img);
      WriteRows(ctx, i, img) == Written([RowOpen] + row.chunks + [RowClose] + rest.chunks, rest.img, rest.error)
  {
  }

  lemma TableChunksAt(t: seq<seq<string>>, i: nat)
    requires i < |t|
    ensures TableChunks(t[i..]) == [RowOpen] + RowChunks(t[i]) + [RowClose] + TableChunks(t[i + 1..])
  {
    SliceCons(t, i);
    assert t[i..][1..] == t[i + 1..];
  }

  /** With `img` holding what the previous cell showed, cell `(i, j)`
      writes what it shows. */
  lemma CellWritesShown(ctx: Context, i: nat, j: nat)
    requires Renderable(ctx) && i < ctx.kmap.rows && j < ctx.kmap.cols
    ensures Shown(OwnGrid(ctx), ctx.kmap.cols, i, j).Some?
    ensures CellOutput(ctx, i, j, Entering(OwnGrid(ctx), ctx.kmap.cols, i, j))
      == Ok(Shown(OwnGrid(ctx), ctx.kmap.cols, i, j).value)
  {
    var g := OwnGrid(ctx);
    ShownSomeAt(g, ctx.kmap.cols, i, j);
    assert CellResolvable(ctx, i, j);
    assert g[i][j] == OwnThumb(ctx, i, j);
  }

  /** A cell written without error is followed by the rest of its row. */
  lemma CellStep(ctx: Context, i: nat, j: nat, img: Option<string>, c: string)
    requires j < ctx.kmap.cols
    requires CellOutput(ctx, i, j, img) == Ok(c)
    ensures var rest := WriteCells(ctx, i, j + 1, Some(c));
      WriteCells(ctx, i, j, img) == Written([CellOpen, c, CellClose] + rest.chunks, rest.img, rest.error)
  {
  }

  lemma {:induction false} CellsWriteShownRow(ctx: Context, i: nat, j: nat, img: Option<string>)
    requires Renderable(ctx)
    requires i < ctx.kmap.rows && j <= ctx.kmap.cols
    requires j < ctx.kmap.cols ==> img == Entering(OwnGrid(ctx), ctx.kmap.cols, i, j)
    ensures WriteCells(ctx, i, j, img).error.None?
    ensures WriteCells(ctx, i, j, img).chunks == RowChunks(ShownTable(ctx)[i][j..])
    ensures j < ctx.kmap.cols ==>
      WriteCells(ctx, i, j, img).img == Shown(OwnGrid(ctx), ctx.kmap.cols, i, ctx.kmap.cols - 1)
    ensures j == ctx.kmap.cols ==> WriteCells(ctx, i, j, img).img == img
    decreases ctx.kmap.cols - j
  {
    var row := ShownTable(ctx)[i];
    if j < ctx.kmap.cols {
      var g := OwnGrid(ctx);
      CellWritesShown(ctx, i, j);
      var c := Shown(g, ctx.kmap.cols, i, j).value;
      assert row[j] == c;
      if j + 1 < ctx.kmap.cols {
        assert Entering(g, ctx.kmap.cols, i, j + 1) == Some(c);
      }
      CellsWriteShownRow(ctx, i, j + 1, Some(c));
      CellStep(ctx, i, j, img, c);
      SliceCons(row, j);
    } else {
      assert row[j..] == [];
    }
  }

  /** Entering row `i` with `img` holding what the previous row ended
      with, the row writes its shown cells without error and leaves `img`
      as the next row expects it. */
  lemma RowWritesShownRow(ctx: Context, i: nat, img: Option<string>)
    requires Renderable(ctx)
    requires i < ctx.kmap.rows
    requires img == RowEntering(OwnGrid(ctx), ctx.kmap.cols, i)
    ensures WriteCells(ctx, i, 0, img).error.None?
    ensures WriteCells(ctx, i, 0, img).chunks == RowChunks(ShownTable(ctx)[i])
    ensures WriteCells(ctx, i, 0, img).img == RowEntering(OwnGrid(ctx), ctx.kmap.cols, i + 1)
  {
    if ctx.kmap.cols > 0 {
      assert img == Entering(OwnGrid(ctx), ctx.kmap.cols, i, 0);
    }
    CellsWriteShownRow(ctx, i, 0, img);
    assert ShownTable(ctx)[i][0..] == ShownTable(ctx)[i];
  }

  lemma {:induction false} RowsWriteShownTable(ctx: Context, i: nat, img: Option<string>)
    requires Renderable(ctx)
    requires i <= ctx.kmap.rows
    requires img == RowEntering(OwnGrid(ctx), ctx.kmap.cols, i)
    ensures WriteRows(ctx, i, img).error.None?
    ensures WriteRows(ctx, i, img).chunks == TableChunks(ShownTable(ctx)[i..])
    decreases ctx.kmap.rows - i
  {
    var t := ShownTable(ctx);
    if i < ctx.kmap.rows {
      RowWritesShownRow(ctx, i, img);
      var row := WriteCells(ctx, i, 0, img);
      RowsWriteShownTable(ctx, i + 1, row.img);
      RowStep(ctx, i, img);
      TableChunksAt(t, i);
    } else {
      assert t[i..] == [];
    }
  }

  /** The page of a map whose cells all resolve and whose first cell is
      filled is written in full: the head, then `R` rows of `C` cells where
      cell `(i, j)` holds what it shows, then the tail. Reading the body
      back gives exactly that `R x C` table. */
  lemma ToHtmlWritesShownTable(s: Loader.SampleSet, fileName: string, kmap: KohonenMap)
    requires Renderable(Context(s.directory, s.imageIndices, kmap))
    ensures ToHtml(s, fileName, kmap).error.None?
    ensures ToHtml(s, fileName, kmap).body == TableChunks(ShownTable(Context(s.directory, s.imageIndices, kmap)))
    ensures ParseTable(ToHtml(s, fileName, kmap).body) == Some(ShownTable(Context(s.directory, s.imageIndices, kmap)))
  {
    var ctx := Context(s.directory, s.imageIndices, kmap);
    var t := ShownTable(ctx);
    RowsWriteShownTable(ctx, 0, None);
    assert t[0..] == t;
    TableRoundTrip(t);
  }
}
