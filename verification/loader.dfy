/** `ImageFeatureExtractor.__init__` and `load_images`: the fixed table of
    1000 canonical file names, and the selection of the subset to load. */
module Loader {
  import opened Wrappers
  import opened Paths
  import opened Images

  /** The dataset size fixed by the constructor. */
  const ImageCount: nat := 1000

  /** The constructor's default directory. */
  const DefaultDirectory: string := "Wang_Data"

  /** The extractor before anything is loaded: its directory and the
      constructor's table `_image_names`. */
  datatype Extractor = Extractor(directory: string, imageNames: seq<string>)

  /** The loaded state: indices into the dataset, the decoded images and
      their file names, as three parallel sequences. */
  datatype SampleSet = SampleSet(
    directory: string,
    imageIndices: seq<nat>,
    images: seq<Image>,
    imageNames: seq<string>)

  /** The arguments of `load_images`; `None` stands for Python's `None`. */
  datatype Selector = Selector(listIndices: Option<seq<int>>, start: Option<int>, end: Option<int>)

  /** The three assertions guarding a range selection, in source order. */
  datatype LoadError = StartNegative | StartNotBeforeEnd | EndBeyondCount

  /** The constructor: image `i` of the table is named after `i`. */
  function NewExtractor(directory: string): (e: Extractor)
    ensures e.directory == directory
    ensures |e.imageNames| == ImageCount
    ensures forall i :: 0 <= i < ImageCount ==> e.imageNames[i] == ImageName(i)
    ensures forall i :: 0 <= i < ImageCount ==> IndexOfName(e.imageNames[i]) == Some(i)
  {
    var names := seq(ImageCount, i requires 0 <= i => ImageName(i));
    forall i | 0 <= i < ImageCount
      ensures IndexOfName(names[i]) == Some(i)
    {
      ImageNameRoundTrip(i);
    }
    Extractor(directory, names)
  }

  predicate StrictlyIncreasing(s: seq<int>) {
    forall a, b :: 0 <= a < b < |s| ==> s[a] < s[b]
  }

  /** `start` after defaulting (only consulted when no list is given). */
  function StartOf(sel: Selector): int {
    if sel.start.Some? then sel.start.value else 0
  }

  /** `end` after defaulting to the table length. */
  function EndOf(sel: Selector, count: nat): int {
    if sel.end.Some? then sel.end.value else count
  }

  /** The integers `start, start + 1, ..., end - 1` (`np.arange`): every
      integer of `[start, end)` once, in increasing order. */
  function Range(start: int, end: int): (r: seq<int>)
    requires start <= end
    ensures |r| == end - start
    ensures forall k :: 0 <= k < |r| ==> r[k] == start + k
    ensures forall x :: x in r <==> start <= x < end
    ensures StrictlyIncreasing(r)
  {
    var r := seq(end - start, k => start + k);
    assert forall x :: start <= x < end ==> x in r by {
      forall x | start <= x < end
        ensures x in r
      {
        assert r[x - start] == x;
      }
    }
    r
  }

  /** The membership list `load_images` tests against: the caller's list
      verbatim, or else the validated, defaulted range. */
  function Expand(sel: Selector, count: nat): (r: Result<seq<int>, LoadError>)
    ensures sel.listIndices.Some? ==> r == Ok(sel.listIndices.value)
    ensures sel.listIndices.None? ==>
      (r.Ok? <==> 0 <= StartOf(sel) < EndOf(sel, count) <= count)
    ensures sel.listIndices.None? && r.Ok? ==>
      forall x :: x in r.value <==> StartOf(sel) <= x < EndOf(sel, count)
    ensures sel.listIndices.None? && StartOf(sel) < 0 ==> r == Err(StartNegative)
    ensures sel.listIndices.None? && 0 <= StartOf(sel) && EndOf(sel, count) <= StartOf(sel)
      ==> r == Err(StartNotBeforeEnd)
    ensures sel.listIndices.None? && 0 <= StartOf(sel) < EndOf(sel, count) && count < EndOf(sel, count)
      ==> r == Err(EndBeyondCount)
  {
    match sel.listIndices
    case Some(list) => Ok(list)
    case None =>
      var start := StartOf(sel);
      var end := EndOf(sel, count);
      if start < 0 then Err(StartNegative)
      else if start >= end then Err(StartNotBeforeEnd)
      else if end > count then Err(EndBeyondCount)
      else
        Ok(Range(start, end))
  }

  /** The selection loop over the first `count` positions: walk
      `0, ..., count - 1` in order and keep each index that occurs in
      `list`. */
  function Selected(list: seq<int>, count: nat): (r: seq<nat>)
    ensures StrictlyIncreasing(r)
    ensures forall x :: x in r <==> 0 <= x < count && x in list
    ensures forall k :: 0 <= k < |r| ==> r[k] < count
    decreases count
  {
    if count == 0 then []
    else
      var i := count - 1;
      if i in list then Selected(list, i) + [i] else Selected(list, i)
  }

  lemma HeadIsMember(t: seq<int>)
    ensures |t| > 0 ==> t[0] in t
  {
  }

  /** Two strictly increasing sequences with the same members are equal. */
  lemma {:induction false} IncreasingUnique(s: seq<int>, t: seq<int>)
    requires StrictlyIncreasing(s) && StrictlyIncreasing(t)
    requires forall x :: x in s <==> x in t
    ensures s == t
    decreases |s|
  {
    if |s| == 0 {
      HeadIsMember(t);
    } else {
      assert s[0] in s;
      assert s[0] in t;
      assert t != [];
      assert t[0] in s;
      assert s[0] == t[0] by {
        var a :| 0 <= a < |t| && t[a] == s[0];
        var b :| 0 <= b < |s| && s[b] == t[0];
        assert t[0] <= t[a];
        assert s[0] <= s[b];
      }
      forall x
        ensures x in s[1..] <==> x in t[1..]
      {
        if x in s[1..] {
          var a :| 1 <= a < |s| && s[a] == x;
          assert x != s[0];
          assert x in t;
        }
        if x in t[1..] {
          var a :| 1 <= a < |t| && t[a] == x;
          assert x != t[0];
          assert x in s;
        }
      }
      IncreasingUnique(s[1..], t[1..]);
      assert s == [s[0]] + s[1..];
      assert t == [t[0]] + t[1..];
    }
  }

  /** The loaded indices depend only on which in-range indices the list
      contains: neither the order of the list nor repetitions matter. */
  lemma SelectionIgnoresOrder(l1: seq<int>, l2: seq<int>, count: nat)
    requires forall x :: 0 <= x < count ==> (x in l1 <==> x in l2)
    ensures Selected(l1, count) == Selected(l2, count)
  {
    IncreasingUnique(Selected(l1, count), Selected(l2, count));
  }

  /** Loading the range `[start, end)` loads exactly `start, ..., end - 1`. */
  lemma RangeSelection(start: int, end: int, count: nat)
    requires 0 <= start < end <= count
    ensures Selected(Range(start, end), count) == Range(start, end)
  {
    var r := Range(start, end);
    IncreasingUnique(Selected(r, count), r);
  }

  /** With the default directory, image 7 is read from `Wang_Data/7.jpg`. */
  lemma DefaultImagePath()
    ensures NewExtractor(DefaultDirectory).directory == "Wang_Data"
    ensures ImagePath(NewExtractor(DefaultDirectory).directory, 7) == "Wang_Data/7.jpg"
  {
  }

  /** The selector `[3, 1]` loads images 1 then 3. */
  lemma ExplicitListIsSorted()
    ensures Selected([3, 1], ImageCount) == [1, 3]
  {
    var l: seq<int> := [3, 1];
    assert l[1] == 1 && l[0] == 3;
    IncreasingUnique(Selected(l, ImageCount), [1, 3]);
  }

  /** Position `k` of the three sequences describes dataset image
      `indices[k]`: its name from the table and its decoded pixels. */
  predicate Parallel(indices: seq<nat>, images: seq<Image>, names: seq<string>,
                     e: Extractor, decode: string -> Image)
  {
    && |images| == |indices|
    && |names| == |indices|
    && forall k :: 0 <= k < |indices| ==>
         && indices[k] < |e.imageNames|
         && names[k] == e.imageNames[indices[k]]
         && images[k] == decode(Join(e.directory, names[k]))
  }

  lemma ParallelAppend(indices: seq<nat>, images: seq<Image>, names: seq<string>,
                        e: Extractor, decode: string -> Image, i: nat)
    requires Parallel(indices, images, names, e, decode)
    requires i < |e.imageNames|
    ensures Parallel(indices + [i], images + [decode(Join(e.directory, e.imageNames[i]))],
                     names + [e.imageNames[i]], e, decode)
  {
  }

  /** A loaded state consistent with the extractor it was loaded from. */
  predicate Loaded(s: SampleSet, e: Extractor, decode: string -> Image) {
    && StrictlyIncreasing(s.imageIndices)
    && Parallel(s.imageIndices, s.images, s.imageNames, e, decode)
  }

  /** After loading from the constructor's table, every loaded name is
      `str(index) + '.jpg'` of the index loaded beside it. */
  lemma LoadedNamesMatchIndices(s: SampleSet, directory: string, decode: string -> Image)
    requires Loaded(s, NewExtractor(directory), decode)
    ensures forall k :: 0 <= k < |s.imageNames| ==> s.imageNames[k] == ImageName(s.imageIndices[k])
    ensures forall k :: 0 <= k < |s.imageNames| ==> IndexOfName(s.imageNames[k]) == Some(s.imageIndices[k])
  {
  }

  /** One step of the loading loop: position `i` is kept exactly when its
      index occurs in `list`, and keeping it keeps the three lists parallel. */
  lemma SelectStep(list: seq<int>, e: Extractor, decode: string -> Image, i: nat,
                   indices: seq<nat>, images: seq<Image>, names: seq<string>)
    requires i < |e.imageNames|
    requires indices == Selected(list, i)
    requires Parallel(indices, images, names, e, decode)
    ensures i in list ==> Selected(list, i + 1) == indices + [i]
    ensures i in list ==> Parallel(indices + [i], images + [decode(Join(e.directory, e.imageNames[i]))],
                                   names + [e.imageNames[i]], e, decode)
    ensures i !in list ==> Selected(list, i + 1) == indices
  {
    if i in list {
      ParallelAppend(indices, images, names, e, decode, i);
    }
  }

  /** The loop of `load_images`: walk the whole name table in order and, for
      every position whose index occurs in `list`, append the index, the
      decoded image and the name. `decode` stands for `skio.imread` applied
      to the joined path. */
  method SelectAndDecode(e: Extractor, list: seq<int>, decode: string -> Image)
    returns (indices: seq<nat>, images: seq<Image>, names: seq<string>)
    ensures indices == Selected(list, |e.imageNames|)
    ensures Parallel(indices, images, names, e, decode)
  {
    var n := |e.imageNames|;
    indices, images, names := [], [], [];
    var i: nat := 0;
    while i < n
      invariant 0 <= i <= n
      invariant indices == Selected(list, i)
      invariant Parallel(indices, images, names, e, decode)
    {
      SelectStep(list, e, decode, i, indices, images, names);
      if i in list {
        var name := e.imageNames[i];
        var image := decode(Join(e.directory, name));
        indices := indices + [i];
        images := images + [image];
        names := names + [name];
      }
      i := i + 1;
    }
  }

  /** `load_images`: validate and expand the selector, then run the loop.
      On a failed assertion nothing is loaded. */
  method LoadImages(e: Extractor, sel: Selector, decode: string -> Image)
    returns (r: Result<SampleSet, LoadError>)
    ensures r.Ok? <==> sel.listIndices.Some? || 0 <= StartOf(sel) < EndOf(sel, |e.imageNames|) <= |e.imageNames|
    ensures r.Ok? ==> r.value.directory == e.directory
    ensures r.Ok? ==> Loaded(r.value, e, decode)
    ensures r.Ok? && sel.listIndices.Some? ==>
      forall x :: x in r.value.imageIndices <==> 0 <= x < |e.imageNames| && x in sel.listIndices.value
    ensures r.Ok? && sel.listIndices.None? ==>
      forall x :: x in r.value.imageIndices <==> StartOf(sel) <= x < EndOf(sel, |e.imageNames|)
  {
    var list :- Expand(sel, |e.imageNames|);
    var indices, images, names := SelectAndDecode(e, list, decode);
    r := Ok(SampleSet(e.directory, indices, images, names));
  }
}
