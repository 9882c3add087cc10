/** `ImageFeatureExtractor.to_html`: writes a page showing, for every cell
    of a Kohonen map's grid, a thumbnail of the first image assigned to the
    cell, whose click handler opens the cell's other images. The write is
    modelled as the sequence of chunks passed to `write`, in order. */
module Html {
  import opened Wrappers
  import opened Decimal
  import opened Paths
  import opened Loader
  import opened ClickLists
  import opened Table

  // ---------------------------------------------------------------------
  // File name

  const HtmlExtension: string := ".html"

  /** Python's `s[-n:]`: the last `n` characters, or all of a shorter `s`.
      Since `-0` is `0`, `s[-0:]` is the whole of `s`. */
  function LastChars(s: string, n: nat): string {
    if n == 0 || |s| < n then s else s[|s| - n..]
  }

  predicate EndsWithHtml(name: string) {
    |name| >= |HtmlExtension| && name[|name| - |HtmlExtension|..] == HtmlExtension
  }

  /** The name actually opened: `.html` is appended unless the name
      already ends in it. */
  function NormalizeFileName(name: string): (r: string)
    ensures EndsWithHtml(r)
    ensures EndsWithHtml(name) ==> r == name
    ensures !EndsWithHtml(name) ==> r == name + HtmlExtension
  {
    if LastChars(name, |HtmlExtension|) != HtmlExtension then
      var r := name + HtmlExtension;
      assert r[|r| - |HtmlExtension|..] == HtmlExtension;
      r
    else
      name
  }

  /** Normalising twice is normalising once. */
  lemma NormalizeIdempotent(name: string)
    ensures NormalizeFileName(NormalizeFileName(name)) == NormalizeFileName(name)
  {
  }

  // ---------------------------------------------------------------------
  // The Kohonen map as consumed here

  /** The map's grid shape (`_map.shape[0]`, `_map.shape[1]`) and its
      `samples_dict`, keyed by `"<row>,<column>"`. */
  datatype KohonenMap = KohonenMap(rows: nat, cols: nat, samples: map<string, seq<int>>)

  /** `str(i) + ',' + str(j)` */
  function CellKey(i: nat, j: nat): string {
    NatToString(i) + "," + NatToString(j)
  }

  /** In `str(i) + ',' + rest` the first comma follows the number. */
  lemma FirstComma(x: string, rest: string)
    requires AllDigits(x)
    ensures (x + "," + rest)[|x|] == ','
    ensures forall k :: 0 <= k < |x| ==> (x + "," + rest)[k] != ','
  {
    forall k | 0 <= k < |x|
      ensures (x + "," + rest)[k] != ','
    {
      assert (x + "," + rest)[k] == x[k];
    }
  }

  /** Distinct cells have distinct keys, so no two cells share an entry of
      `samples_dict`. */
  lemma CellKeyInjective(i: nat, j: nat, i': nat, j': nat)
    requires CellKey(i, j) == CellKey(i', j')
    ensures i == i' && j == j'
  {
    var a, b := NatToString(i), NatToString(j);
    var c, d := NatToString(i'), NatToString(j');
    var key := CellKey(i, j);
    FirstComma(a, b);
    FirstComma(c, d);
    assert |a| == |c|;
    assert a == key[..|a|] == c;
    assert b == key[|a| + 1..] == d;
    NatToStringInjective(i, i');
    NatToStringInjective(j, j');
  }

  // ---------------------------------------------------------------------
  // Thumbnails

  /** What can go wrong while writing the grid: a cell missing from
      `samples_dict`, a sample id outside `image_indices`, or an empty cell
      reached while `img` has never been assigned. */
  datatype RenderError = KeyError(key: string) | IndexError(id: int) | UnboundLocalError

  /** Python indexing `xs[id]` into a list of length `n`: negative ids count
      from the end; anything else outside the list raises. */
  function PyIndex(n: nat, id: int): (r: Option<nat>)
    ensures r.Some? <==> -(n as int) <= id < n
    ensures r.Some? ==> r.value < n && r.value as int == (if id < 0 then n + id else id)
    ensures r.Some? ==> id == r.value as int || id == r.value as int - n
  {
    if 0 <= id < n then Some(id)
    else if -(n as int) <= id < 0 then Some(n + id)
    else None
  }

  /** The ids that designate position `p` of `n` are exactly `p` and
      `p - n`. */
  lemma PyIndexInverse(n: nat, id: int, p: nat)
    requires p < n
    ensures PyIndex(n, id) == Some(p) <==> id == p || id == p - n
  {
  }

  /** The path of the image a sample id designates. */
  function SamplePath(dir: string, indices: seq<nat>, id: int): string
    requires PyIndex(|indices|, id).Some?
  {
    ImagePath(dir, indices[PyIndex(|indices|, id).value])
  }

  predicate AllResolve(indices: seq<nat>, ids: seq<int>) {
    forall k :: 0 <= k < |ids| ==> PyIndex(|indices|, ids[k]).Some?
  }

  /** The cell's loop over its sample ids: each id, in order, is looked up
      in `image_indices` and turned into the image's path; the first id
      that cannot be looked up raises. */
  function ResolvePaths(dir: string, indices: seq<nat>, ids: seq<int>)
    : (r: Result<seq<string>, RenderError>)
    ensures r.Ok? <==> AllResolve(indices, ids)
    ensures r.Ok? ==> |r.value| == |ids|
    ensures r.Ok? ==> forall k :: 0 <= k < |ids| ==> r.value[k] == SamplePath(dir, indices, ids[k])
    ensures r.Err? ==> exists k :: 0 <= k < |ids| && FirstUnresolved(indices, ids, k) && r.error == IndexError(ids[k])
    decreases |ids|
  {
    if |ids| == 0 then Ok([])
    else match PyIndex(|indices|, ids[0])
      case None =>
        assert FirstUnresolved(indices, ids, 0);
        Err(IndexError(ids[0]))
      case Some(p) =>
        match ResolvePaths(dir, indices, ids[1..])
        case Err(e) =>
          var k :| 0 <= k < |ids| - 1 && FirstUnresolved(indices, ids[1..], k) && e == IndexError(ids[1..][k]);
          assert FirstUnresolved(indices, ids, k + 1);
          Err(e)
        case Ok(ps) =>
          Ok([ImagePath(dir, indices[p])] + ps)
  }

  /** `ids[k]` is the first id that cannot be looked up. */
  predicate FirstUnresolved(indices: seq<nat>, ids: seq<int>, k: nat)
    requires k < |ids|
  {
    && PyIndex(|indices|, ids[k]).None?
    && forall m :: 0 <= m < k ==> PyIndex(|indices|, ids[m]).Some?
  }

  /** A thumbnail: the path shown (as `src` and `alt`) and the paths the
      click handler passes to `show_images`. */
  datatype Thumb = Thumb(src: string, others: seq<string>)

  const Style: string := "style=\"width:100px;height:100px;\""

  const DoubleQuote: char := '"'

  /** What the markup starts with, up to the `src` path. */
  const SrcOpen: string := "<img src=\""

  /** What the markup ends with, after the click list. */
  const ClickClose: string := "])\">"

  /** The markup between the `src` path and the click list. */
  function SrcToClick(src: string): string {
    AltOpen + src + AltClose
  }

  /** Closes `src` and opens `alt`. */
  const AltOpen: string := "\" alt=\""

  /** Closes `alt`, then the style and the opening of the click handler. */
  const AltClose: string := "\" " + Style + " onclick=\"show_images(["

  /** `'<img ' + src + ' ' + alt + ' ' + style + ' ' + onclick + '>'`,
      grouped around the two variable parts: the `src` path (repeated as
      `alt`) and the click list. */
  function ThumbMarkup(t: Thumb): (m: string)
    ensures |m| >= |SrcOpen| + |t.src| + |ClickClose|
    ensures m[..|SrcOpen|] == SrcOpen && m[|SrcOpen|..|SrcOpen| + |t.src|] == t.src
    ensures m[|SrcOpen| + |t.src|] == DoubleQuote
    ensures m[|m| - |ClickClose|..] == ClickClose
  {
    SrcOpen + t.src + SrcToClick(t.src) + ClickList(t.others) + ClickClose
  }

  /** Where the parts of the markup sit: after the `src` path comes the
      fixed middle, which repeats the path as `alt`, then the click list,
      then the fixed end. */
  lemma ThumbLayout(t: Thumb)
    ensures var m, e := ThumbMarkup(t), |SrcOpen| + |t.src|;
      && |m| >= e + |SrcToClick(t.src)| + |ClickClose|
      && m[e..e + |SrcToClick(t.src)|] == SrcToClick(t.src)
      && m[e + |SrcToClick(t.src)|..|m| - |ClickClose|] == ClickList(t.others)
    ensures SrcToClick(t.src)[|AltOpen|..|AltOpen| + |t.src|] == t.src
  {
    FourParts(SrcOpen + t.src, SrcToClick(t.src), ClickList(t.others), ClickClose);
    FourParts(AltOpen, t.src, AltClose, "");
  }

  predicate DoubleQuoteFree(s: string) {
    forall k :: 0 <= k < |s| ==> s[k] != DoubleQuote
  }

  /** Distinct thumbnails have distinct markup, as long as the `src` path
      has no double quote and the click paths have no single quote: the
      markup determines both the picture and the click list, in order. */
  lemma ThumbMarkupInjective(t: Thumb, u: Thumb)
    requires DoubleQuoteFree(t.src) && DoubleQuoteFree(u.src)
    requires forall k :: 0 <= k < |t.others| ==> QuoteFree(t.others[k])
    requires forall k :: 0 <= k < |u.others| ==> QuoteFree(u.others[k])
    requires ThumbMarkup(t) == ThumbMarkup(u)
    ensures t == u
  {
    var m := ThumbMarkup(t);
    ThumbSrcRead(t);
    ThumbSrcRead(u);
    assert t.src == u.src;
    ThumbLayout(t);
    ThumbLayout(u);
    assert ClickList(t.others) == ClickList(u.others);
    ClickListRoundTrip(t.others);
    ClickListRoundTrip(u.others);
  }

  /** In the markup the `src` path runs up to the first double quote
      after `<img src="`. */
  lemma ThumbSrcRead(t: Thumb)
    requires DoubleQuoteFree(t.src)
    ensures var m := ThumbMarkup(t);
      FindChar(m, DoubleQuote, |SrcOpen|) == |SrcOpen| + |t.src| && m[|SrcOpen|..|SrcOpen| + |t.src|] == t.src
  {
    QuoteEndsField(ThumbMarkup(t), |SrcOpen|, t.src);
  }

  /** A double-quote-free field at `n` closed by a double quote ends at the
      first double quote from `n`. */
  lemma QuoteEndsField(m: string, n: nat, field: string)
    requires DoubleQuoteFree(field)
    requires n + |field| < |m| && m[n..n + |field|] == field && m[n + |field|] == DoubleQuote
    ensures FindChar(m, DoubleQuote, n) == n + |field|
  {
    forall k | n <= k < n + |field|
      ensures m[k] != DoubleQuote
    {
      assert m[k] == field[k - n];
    }
  }

  /** The four parts of `a + b + c + d` sit where their lengths say. */
  lemma FourParts(a: string, b: string, c: string, d: string)
    ensures var s := a + b + c + d;
      && s[|a|..|a| + |b|] == b
      && s[|a| + |b|..|s| - |d|] == c
      && s[|s| - |d|..] == d
  {
  }

  /** The thumbnail of a non-empty cell: the first id gives the picture,
      the remaining ids, in order, the click list; the first image is not
      in its own click list. Fails on the first id outside
      `image_indices`. */
  function CellThumbnail(dir: string, indices: seq<nat>, ids: seq<int>)
    : (r: Result<Thumb, RenderError>)
    requires |ids| > 0
    ensures r.Ok? <==> AllResolve(indices, ids)
    ensures r.Ok? ==> r.value.src == SamplePath(dir, indices, ids[0])
    ensures r.Ok? ==> |r.value.others| == |ids| - 1
    ensures r.Ok? ==> forall k :: 1 <= k < |ids| ==>
      r.value.others[k - 1] == SamplePath(dir, indices, ids[k])
    ensures r.Err? ==> exists k :: 0 <= k < |ids| && FirstUnresolved(indices, ids, k) && r.error == IndexError(ids[k])
  {
    match ResolvePaths(dir, indices, ids)
    case Err(e) => Err(e)
    case Ok(ps) => Ok(Thumb(ps[0], ps[1..]))
  }

  /** When the cell's ids designate distinct images of a loaded set
      (whose indices are distinct), the picture shown is never among the
      images its click opens. */
  lemma RepresentativeNotInClickList(dir: string, indices: seq<nat>, ids: seq<int>)
    requires |ids| > 0 && AllResolve(indices, ids)
    requires StrictlyIncreasing(indices)
    requires forall k :: 1 <= k < |ids| ==>
      PyIndex(|indices|, ids[k]).value != PyIndex(|indices|, ids[0]).value
    ensures CellThumbnail(dir, indices, ids).value.src !in CellThumbnail(dir, indices, ids).value.others
  {
    var t := CellThumbnail(dir, indices, ids).value;
    if t.src in t.others {
      var m :| 0 <= m < |t.others| && t.others[m] == t.src;
      var a := PyIndex(|indices|, ids[0]).value;
      var b := PyIndex(|indices|, ids[m + 1]).value;
      ImagePathInjective(dir, indices[a], indices[b]);
      assert false;
    }
  }

  // ---------------------------------------------------------------------
  // Writing the grid

  /** Everything the grid loop reads: `self.directory`,
      `self.image_indices` and the Kohonen map. */
  datatype Context = Context(directory: string, indices: seq<nat>, kmap: KohonenMap)

  /** The markup written into cell `(i, j)` given the current value of the
      variable `img` (`None` while it was never assigned). A non-empty cell
      writes its own thumbnail; an empty cell writes `img` again. */
  function CellOutput(ctx: Context, i: nat, j: nat, img: Option<string>): (r: Result<string, RenderError>)
    ensures CellKey(i, j) !in ctx.kmap.samples <==> r == Err(KeyError(CellKey(i, j)))
    ensures r.Ok? <==> (CellKey(i, j) in ctx.kmap.samples
      && if |ctx.kmap.samples[CellKey(i, j)]| > 0 then AllResolve(ctx.indices, ctx.kmap.samples[CellKey(i, j)])
         else img.Some?)
    ensures r == Err(UnboundLocalError) <==>
      CellKey(i, j) in ctx.kmap.samples && |ctx.kmap.samples[CellKey(i, j)]| == 0 && img.None?
    ensures r.Ok? && |ctx.kmap.samples[CellKey(i, j)]| > 0 ==>
      var ids := ctx.kmap.samples[CellKey(i, j)];
      var src := SamplePath(ctx.directory, ctx.indices, ids[0]);
      |r.value| >= |SrcOpen| + |src| && r.value[..|SrcOpen|] == SrcOpen && r.value[|SrcOpen|..|SrcOpen| + |src|] == src
    ensures r.Ok? && |ctx.kmap.samples[CellKey(i, j)]| == 0 ==> r == Ok(img.value)
  {
    var key := CellKey(i, j);
    if key !in ctx.kmap.samples then Err(KeyError(key))
    else
      var ids := ctx.kmap.samples[key];
      if |ids| > 0 then
        match CellThumbnail(ctx.directory, ctx.indices, ids)
        case Err(e) => Err(e)
        case Ok(t) => Ok(ThumbMarkup(t))
      else if img.None? then Err(UnboundLocalError)
      else Ok(img.value)
  }

  /** The chunks written so far, the value of `img` afterwards, and the
      exception that stopped the writing, if any. */
  datatype Written = Written(chunks: seq<string>, img: Option<string>, error: Option<RenderError>)

  /** The inner loop from column `j` of row `i` on. */
  function WriteCells(ctx: Context, i: nat, j: nat, img: Option<string>): (w: Written)
    ensures w.error.None? ==> |w.chunks| == 3 * (if j <= ctx.kmap.cols then ctx.kmap.cols - j else 0)
    ensures w.error.Some? ==> j < ctx.kmap.cols && |w.chunks| >= 1 && w.chunks[|w.chunks| - 1] == CellOpen
    decreases ctx.kmap.cols - j
  {
    if j >= ctx.kmap.cols then Written([], img, None)
    else match CellOutput(ctx, i, j, img)
      case Err(e) => Written([CellOpen], img, Some(e))
      case Ok(c) =>
        var rest := WriteCells(ctx, i, j + 1, Some(c));
        Written([CellOpen, c, CellClose] + rest.chunks, rest.img, rest.error)
  }

  /** The outer loop from row `i` on. */
  function WriteRows(ctx: Context, i: nat, img: Option<string>): (w: Written)
    ensures w.error.Some? ==> i < ctx.kmap.rows && |w.chunks| >= 1 && w.chunks[|w.chunks| - 1] == CellOpen
    decreases ctx.kmap.rows - i
  {
    if i >= ctx.kmap.rows then Written([], img, None)
    else
      var row := WriteCells(ctx, i, 0, img);
      if row.error.Some? then
        var chunks := [RowOpen] + row.chunks;
        assert chunks[|chunks| - 1] == CellOpen by {
          assert chunks[|chunks| - 1] == row.chunks[|row.chunks| - 1];
        }
        Written(chunks, row.img, row.error)
      else
        var rest := WriteRows(ctx, i + 1, row.img);
        var chunks := [RowOpen] + row.chunks + [RowClose] + rest.chunks;
        if rest.error.None? then Written(chunks, rest.img, rest.error)
        else
          assert chunks[|chunks| - 1] == CellOpen by {
            assert chunks[|chunks| - 1] == rest.chunks[|rest.chunks| - 1];
          }
          Written(chunks, rest.img, rest.error)
  }

  /** The static head of the page: jQuery, the overlay style, the
      `close` / `show_images` script and the opening of the table, line for
      line, with each line's leading indentation and the blank lines left
      out. */
  const Preamble: string := @"<html>
<script src=""https://ajax.googleapis.com/ajax/libs/jquery/2.2.2/jquery.min.js""></script>
<style type=""text/css"">
#overlay {
position: absolute;
top: 40;
left: 40;
width: 400px;
height: 400px;
background-color: #000;
}
</style>
<script type=""text/javascript"">
$(document).ready(function () {
$('#overlay').hide();
});
function close() {
$('#overlay').hide();
}
function show_images(imgs) {
if (imgs.length == 0) {
alert(""No other images in that neuron!"");
} else {
var div = $('#overlay');
div.empty();
div.css('text-align', 'center')
var btn = $('<button>Close</button><br/><br/>');
btn.on('click', close);
div.append(btn);
for (var i = 0; i < imgs.length; ++i) {
var img = imgs[i];
div.append($('<img src=""' + img + '"" style=""width:100px;height:100px;""/>'));
div.show();
}
}
}
</script>
<div id=""container"">
<table>
"

  /** The static tail: end of the table, the overlay element, end of page,
      again without the leading indentation. */
  const Closing: string := @"</table>
</div>
<div id=""overlay"">
</div>
</body>
</html>"

  /** The outcome of `to_html`: the file name opened, the table body
      written between the static head and tail (up to the point of
      failure), and the exception raised, if any. */
  datatype Document = Document(fileName: string, body: seq<string>, error: Option<RenderError>)

  /** Everything written to the file, in order: the static head, the body,
      and the static tail only when no exception cut the writing short (the
      file is closed on the way out either way). */
  function Page(d: Document, head: string, tail: string): (cs: seq<string>)
    ensures |cs| >= 1 + |d.body| && cs[0] == head
    ensures d.error.None? <==> |cs| == |d.body| + 2
    ensures d.error.None? ==> cs[|cs| - 1] == tail
    ensures cs[1..1 + |d.body|] == d.body
    ensures d.error.Some? ==> cs == [head] + d.body
  {
    [head] + d.body + (if d.error.None? then [tail] else [])
  }

  /** The file `to_html` leaves behind. */
  function FileContents(d: Document): seq<string> {
    Page(d, Preamble, Closing)
  }

  /** `to_html(file_name, kohonen_map)` on a loaded extractor. */
  function ToHtml(s: SampleSet, fileName: string, kmap: KohonenMap): (d: Document)
    ensures EndsWithHtml(d.fileName)
    ensures EndsWithHtml(fileName) ==> d.fileName == fileName
    ensures d.error == Some(UnboundLocalError) <==> OriginEmpty(kmap)
  {
    var ctx := Context(s.directory, s.imageIndices, kmap);
    var grid := WriteRows(ctx, 0, None);
    UnboundOnlyAtOrigin(ctx);
    Document(NormalizeFileName(fileName), grid.chunks, grid.error)
  }

  // ---------------------------------------------------------------------
  // When writing hits an empty cell with `img` unassigned

  /** The first cell in row-major order exists, has an entry, and that
      entry is empty. */
  predicate OriginEmpty(kmap: KohonenMap) {
    && 0 < kmap.rows && 0 < kmap.cols
    && CellKey(0, 0) in kmap.samples
    && |kmap.samples[CellKey(0, 0)]| == 0
  }

  /** Once `img` holds a thumbnail it is never unassigned again, so the
      rest of a row cannot fail on it. */
  lemma {:induction false} CellsKeepImg(ctx: Context, i: nat, j: nat, img: Option<string>)
    requires img.Some?
    ensures WriteCells(ctx, i, j, img).img.Some?
    ensures WriteCells(ctx, i, j, img).error != Some(UnboundLocalError)
    decreases ctx.kmap.cols - j
  {
    if j < ctx.kmap.cols {
      match CellOutput(ctx, i, j, img)
      case Err(e) =>
      case Ok(c) => CellsKeepImg(ctx, i, j + 1, Some(c));
    }
  }

  lemma {:induction false} RowsKeepImg(ctx: Context, i: nat, img: Option<string>)
    requires img.Some?
    ensures WriteRows(ctx, i, img).error != Some(UnboundLocalError)
    decreases ctx.kmap.rows - i
  {
    if i < ctx.kmap.rows {
      CellsKeepImg(ctx, i, 0, img);
      var row := WriteCells(ctx, i, 0, img);
      if row.error.None? {
        RowsKeepImg(ctx, i + 1, row.img);
      }
    }
  }

  /** Without columns no cell is ever written and nothing can fail. */
  lemma {:induction false} NoColumnsNoError(ctx: Context, i: nat, img: Option<string>)
    requires ctx.kmap.cols == 0
    ensures WriteRows(ctx, i, img).error.None?
    decreases ctx.kmap.rows - i
  {
    if i < ctx.kmap.rows {
      NoColumnsNoError(ctx, i + 1, img);
    }
  }

  /** `UnboundLocalError` is raised exactly when the very first cell is an
      empty cell: any later empty cell finds `img` assigned. */
  lemma UnboundOnlyAtOrigin(ctx: Context)
    ensures WriteRows(ctx, 0, None).error == Some(UnboundLocalError) <==> OriginEmpty(ctx.kmap)
  {
    var k := ctx.kmap;
    if k.rows > 0 {
      if k.cols == 0 {
        NoColumnsNoError(ctx, 0, None);
      } else {
        match CellOutput(ctx, 0, 0, None)
        case Err(e) =>
        case Ok(c) =>
          CellsKeepImg(ctx, 0, 1, Some(c));
          var row := WriteCells(ctx, 0, 0, None);
          if row.error.None? {
            RowsKeepImg(ctx, 1, row.img);
          }
      }
    }
  }
}
