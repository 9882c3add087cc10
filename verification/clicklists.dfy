/** The argument list of the `show_images([...])` handler: each path in
    single quotes, joined with commas as `','.join` does. Paths are spliced
    in verbatim, without escaping. */
module ClickLists {
  import opened Wrappers
  import opened Seqs

  const Quote: char := '\''

  /** `"'" + path + "'"` */
  function Quoted(path: string): string {
    [Quote] + path + [Quote]
  }

  /** The list literal written between the brackets of
      `show_images([...])`: `','.join` of the quoted paths. */
  function ClickList(paths: seq<string>): (s: string)
    ensures |s| == 0 <==> |paths| == 0
    ensures |paths| > 0 ==> s[0] == Quote && s[|s| - 1] == Quote
    ensures |paths| > 0 ==> |s| >= |paths[0]| + 2 && s[..|paths[0]| + 2] == Quoted(paths[0])
    decreases |paths|
  {
    if |paths| == 0 then ""
    else if |paths| == 1 then Quoted(paths[0])
    else Quoted(paths[0]) + "," + ClickList(paths[1..])
  }

  predicate QuoteFree(path: string) {
    forall k :: 0 <= k < |path| ==> path[k] != Quote
  }

  /** The first position at or after `i` holding `c`, or `|s|`. */
  function FindChar(s: string, c: char, i: nat): (r: nat)
    requires i <= |s|
    ensures i <= r <= |s|
    ensures r < |s| ==> s[r] == c
    ensures forall k :: i <= k < r ==> s[k] != c
    decreases |s| - i
  {
    if i == |s| || s[i] == c then i else FindChar(s, c, i + 1)
  }

  /** Reads a non-empty list literal `'p0','p1',...` back into its paths. */
  function ParseItems(s: string): Option<seq<string>>
    decreases |s|
  {
    if |s| < 2 || s[0] != Quote then None
    else
      var j := FindChar(s, Quote, 1);
      if j == |s| then None
      else
        var rest := s[j + 1..];
        if |rest| == 0 then Some([s[1..j]])
        else if rest[0] != ',' then None
        else match ParseItems(rest[1..])
          case None => None
          case Some(items) => Some([s[1..j]] + items)
  }

  /** Reads a list literal back into its paths; the empty literal is the
      empty list. */
  function ParseClickList(s: string): Option<seq<string>> {
    if |s| == 0 then Some([]) else ParseItems(s)
  }

  /** In a quoted path followed by anything, the closing quote is the first
      quote after the opening one. */
  lemma FindClosingQuote(path: string, tail: string)
    requires QuoteFree(path)
    ensures FindChar(Quoted(path) + tail, Quote, 1) == |path| + 1
  {
    var s := Quoted(path) + tail;
    var r := FindChar(s, Quote, 1);
    assert s[|path| + 1] == Quote;
    forall k | 1 <= k < |path| + 1
      ensures s[k] != Quote
    {
      assert s[k] == path[k - 1];
    }
  }

  /** Parsing `'p'` followed by `tail` reads `p` and continues after the
      closing quote. */
  lemma ParseFirst(p: string, tail: string)
    requires QuoteFree(p)
    ensures ParseItems(Quoted(p) + tail) ==
      if |tail| == 0 then Some([p])
      else if tail[0] != ',' then None
      else match ParseItems(tail[1..])
        case None => None
        case Some(items) => Some([p] + items)
  {
    var s := Quoted(p) + tail;
    FindClosingQuote(p, tail);
    assert s[1..|p| + 1] == p;
    assert s[|p| + 2..] == tail;
    if |tail| == 0 {
      assert ParseItems(s) == Some([p]);
    } else if tail[0] != ',' {
      assert ParseItems(s) == None;
    } else {
      assert ParseItems(s) == match ParseItems(tail[1..])
        case None => None
        case Some(items) => Some([p] + items);
    }
  }

  /** A list of quote-free paths survives the trip through the literal. */
  lemma {:induction false} ClickListItemsRoundTrip(paths: seq<string>)
    requires |paths| > 0
    requires forall k :: 0 <= k < |paths| ==> QuoteFree(paths[k])
    ensures ParseItems(ClickList(paths)) == Some(paths)
    decreases |paths|
  {
    var p := paths[0];
    if |paths| == 1 {
      ParseFirst(p, "");
      assert Quoted(p) + "" == Quoted(p);
      assert paths == [p];
    } else {
      var tail := "," + ClickList(paths[1..]);
      assert ClickList(paths) == Quoted(p) + tail;
      ParseFirst(p, tail);
      assert tail[1..] == ClickList(paths[1..]);
      var rest := paths[1..];
      forall k | 0 <= k < |rest|
        ensures QuoteFree(rest[k])
      {
        assert rest[k] == paths[k + 1];
      }
      ClickListItemsRoundTrip(rest);
      SliceCons(paths, 0);
      assert paths[0..] == paths;
    }
  }

  /** Any list of quote-free paths, empty or not, is recovered from its
      literal. */
  lemma ClickListRoundTrip(paths: seq<string>)
    requires forall k :: 0 <= k < |paths| ==> QuoteFree(paths[k])
    ensures ParseClickList(ClickList(paths)) == Some(paths)
  {
    if |paths| > 0 {
      ClickListItemsRoundTrip(paths);
      assert |ClickList(paths)| > 0 by {
        assert ClickList(paths)[0] == Quote;
      }
    }
  }

  /** Without escaping, a quote in a path makes the literal ambiguous: one
      path `a','b` and the two paths `a`, `b` give the same handler
      argument. */
  lemma QuoteInPathIsAmbiguous()
    ensures ClickList(["a','b"]) == ClickList(["a", "b"])
  {
    var two: seq<string> := ["a", "b"];
    assert two[1..] == ["b"];
    assert ClickList(["a','b"]) == Quoted("a','b") == "'a','b'";
    assert ClickList(two) == Quoted("a") + "," + Quoted("b") == "'a','b'";
  }
}
