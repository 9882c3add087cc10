/** The three feature extractors of `ImageFeatureExtractor`: grey-level,
    per-channel colour and hue histograms of every loaded image. Each
    produces one row per loaded image, in load order. */
module Features {
  import opened Wrappers
  import opened Images
  import opened Loader
  import opened Histograms

  /** The assertion shared by the extractors, and numpy's rejection of a
      non-positive bin count. */
  datatype ExtractError = NoImagesLoaded | BinsNotPositive

  /** The value range of the grey and hue histograms, `range=(0, 1)`. */
  const UnitTop: real := 1.0

  /** The extractors' default bin count. */
  const DefaultBins: nat := 10

  /** The value range of the colour histogram, `range=(0, 255)`. */
  const ByteTop: real := 255.0

  /** The row for one image under a scalar conversion: the histogram of the
      converted pixel values over `[0, 1]`. */
  predicate IsScalarRow(row: seq<nat>, values: seq<real>, bins: nat) {
    && |row| == bins
    && Sum(row) == InRangeCount(values, UnitTop)
    && forall b :: 0 <= b < bins ==> row[b] == CountInBin(values, UnitTop, bins, b)
  }

  /** One histogram row per image of `s`, each over the per-pixel values
      that `convert` computes for that image. */
  function ScalarHistograms(s: SampleSet, bins: int, convert: Image -> seq<real>)
    : (r: Result<seq<seq<nat>>, ExtractError>)
    ensures |s.images| == 0 ==> r == Err(NoImagesLoaded)
    ensures 0 < |s.images| && bins < 1 ==> r == Err(BinsNotPositive)
    ensures r.Ok? <==> 0 < |s.images| && 1 <= bins
    ensures r.Ok? ==> |r.value| == |s.images|
    ensures r.Ok? ==> forall k :: 0 <= k < |s.images| ==>
      IsScalarRow(r.value[k], convert(s.images[k]), bins)
  {
    if |s.images| == 0 then Err(NoImagesLoaded)
    else if bins < 1 then Err(BinsNotPositive)
    else Ok(seq(|s.images|, k requires 0 <= k < |s.images| =>
                  Histogram(convert(s.images[k]), UnitTop, bins)))
  }

  /** `extract_histogram`: grey-level histograms. `toGrey` stands for
      `skicol.rgb2grey`, giving one luminance value per pixel. */
  function ExtractHistogram(s: SampleSet, bins: int, toGrey: Image -> seq<real>)
    : (r: Result<seq<seq<nat>>, ExtractError>)
    ensures r.Ok? <==> 0 < |s.images| && 1 <= bins
    ensures |s.images| == 0 ==> r == Err(NoImagesLoaded)
    ensures 0 < |s.images| && bins < 1 ==> r == Err(BinsNotPositive)
    ensures r.Ok? ==> |r.value| == |s.images|
    ensures r.Ok? ==> forall k :: 0 <= k < |s.images| ==>
      IsScalarRow(r.value[k], toGrey(s.images[k]), bins)
  {
    ScalarHistograms(s, bins, toGrey)
  }

  /** `extract_hue_histogram`: hue histograms. `toHue` stands for the hue
      plane of `skicol.rgb2hsv`, flattened, one value per pixel. */
  function ExtractHueHistogram(s: SampleSet, bins: int, toHue: Image -> seq<real>)
    : (r: Result<seq<seq<nat>>, ExtractError>)
    ensures r.Ok? <==> 0 < |s.images| && 1 <= bins
    ensures |s.images| == 0 ==> r == Err(NoImagesLoaded)
    ensures 0 < |s.images| && bins < 1 ==> r == Err(BinsNotPositive)
    ensures r.Ok? ==> |r.value| == |s.images|
    ensures r.Ok? ==> forall k :: 0 <= k < |s.images| ==>
      IsScalarRow(r.value[k], toHue(s.images[k]), bins)
  {
    ScalarHistograms(s, bins, toHue)
  }

  /** `values` gives one value in `[0, 1]` per pixel of `img`, as the grey
      image of `rgb2grey` and the hue plane of `rgb2hsv` do. */
  predicate OneUnitValuePerPixel(img: Image, values: seq<real>) {
    && |values| == img.pixelCount
    && forall i :: 0 <= i < |values| ==> 0.0 <= values[i] <= UnitTop
  }

  /** With one in-range grey value per pixel, the counts of each row add up
      to that image's pixel count. */
  lemma GreyCountsEveryPixel(s: SampleSet, bins: int, toGrey: Image -> seq<real>)
    requires ExtractHistogram(s, bins, toGrey).Ok?
    requires forall k :: 0 <= k < |s.images| ==> OneUnitValuePerPixel(s.images[k], toGrey(s.images[k]))
    ensures forall k :: 0 <= k < |s.images| ==>
      Sum(ExtractHistogram(s, bins, toGrey).value[k]) == s.images[k].pixelCount
  {
    forall k | 0 <= k < |s.images|
      ensures Sum(ExtractHistogram(s, bins, toGrey).value[k]) == s.images[k].pixelCount
    {
      assert OneUnitValuePerPixel(s.images[k], toGrey(s.images[k]));
      HistogramCountsEveryValue(toGrey(s.images[k]), UnitTop, bins);
    }
  }

  /** With one in-range hue per pixel, the counts of each row add up to
      that image's pixel count. */
  lemma HueCountsEveryPixel(s: SampleSet, bins: int, toHue: Image -> seq<real>)
    requires ExtractHueHistogram(s, bins, toHue).Ok?
    requires forall k :: 0 <= k < |s.images| ==> OneUnitValuePerPixel(s.images[k], toHue(s.images[k]))
    ensures forall k :: 0 <= k < |s.images| ==>
      Sum(ExtractHueHistogram(s, bins, toHue).value[k]) == s.images[k].pixelCount
  {
    forall k | 0 <= k < |s.images|
      ensures Sum(ExtractHueHistogram(s, bins, toHue).value[k]) == s.images[k].pixelCount
    {
      assert OneUnitValuePerPixel(s.images[k], toHue(s.images[k]));
      HistogramCountsEveryValue(toHue(s.images[k]), UnitTop, bins);
    }
  }

  /** A band's 8-bit values as the reals `np.histogram` compares with its
      edges. */
  function Reals(band: seq<byte>): (r: seq<real>)
    ensures |r| == |band|
    ensures forall i :: 0 <= i < |band| ==> r[i] == band[i] as real
  {
    seq(|band|, i requires 0 <= i < |band| => band[i] as real)
  }

  /** A row cut into consecutive `bins`-wide segments (a short tail, which
      a concatenation of full histograms never has, forms a last segment). */
  function Segments(row: seq<nat>, bins: nat): seq<seq<nat>>
    requires 1 <= bins
    decreases |row|
  {
    if |row| == 0 then []
    else if |row| < bins then [row]
    else [row[..bins]] + Segments(row[bins..], bins)
  }

  /** The row of `extract_color_histogram` for one image: the channel
      histograms over `[0, 255]`, concatenated in channel order. Cutting the
      row into `bins`-wide segments gives back one segment per channel; the
      count in bin `b` of segment `c` is the number of channel-`c` values in
      bin `b`, and each segment's counts add up to the number of values in
      that channel. */
  function ColorRow(bands: seq<seq<byte>>, bins: nat): (row: seq<nat>)
    requires 1 <= bins
    ensures |row| == |bands| * bins
    ensures |Segments(row, bins)| == |bands|
    ensures forall c :: 0 <= c < |bands| ==> IsColorSegment(Segments(row, bins)[c], bands[c], bins)
    decreases |bands|
  {
    if |bands| == 0 then []
    else
      var h := Histogram(Reals(bands[0]), ByteTop, bins);
      var rest := ColorRow(bands[1..], bins);
      var row := h + rest;
      BytesInRange(bands[0]);
      SegmentsPrepend(h, rest, bins);
      assert |bands| * bins == bins + (|bands| - 1) * bins;
      forall c | 0 <= c < |bands|
        ensures IsColorSegment(Segments(row, bins)[c], bands[c], bins)
      {
        if c > 0 {
          assert Segments(row, bins)[c] == Segments(rest, bins)[c - 1];
          assert bands[c] == bands[1..][c - 1];
        }
      }
      row
  }

  /** Every 8-bit value lies within `[0, 255]`. */
  lemma BytesInRange(band: seq<byte>)
    ensures InRangeCount(Reals(band), ByteTop) == |band|
  {
    var r := Reals(band);
    assert forall k :: 0 <= k < |r| ==> 0.0 <= r[k] <= ByteTop;
  }

  /** A full segment in front stays the first segment. */
  lemma SegmentsPrepend(h: seq<nat>, rest: seq<nat>, bins: nat)
    requires 1 <= bins && |h| == bins
    ensures Segments(h + rest, bins) == [h] + Segments(rest, bins)
  {
    assert (h + rest)[..bins] == h;
    assert (h + rest)[bins..] == rest;
  }

  /** Segment `seg` is the histogram of one channel's values: `bins` counts,
      count `b` the number of values in bin `b`, adding up to the number of
      values. */
  predicate IsColorSegment(seg: seq<nat>, band: seq<byte>, bins: nat) {
    && |seg| == bins
    && Sum(seg) == |band|
    && forall b :: 0 <= b < bins ==> seg[b] == CountInBin(Reals(band), ByteTop, bins, b)
  }

  /** `extract_color_histogram`: one row per image, the per-channel
      histograms of its raw 8-bit values concatenated in channel order. */
  function ExtractColorHistogram(s: SampleSet, bins: int)
    : (r: Result<seq<seq<nat>>, ExtractError>)
    ensures |s.images| == 0 ==> r == Err(NoImagesLoaded)
    ensures 0 < |s.images| && bins < 1 ==> r == Err(BinsNotPositive)
    ensures r.Ok? <==> 0 < |s.images| && 1 <= bins
    ensures r.Ok? ==> |r.value| == |s.images|
    ensures r.Ok? ==> forall k :: 0 <= k < |s.images| ==>
      && |r.value[k]| == |s.images[k].bands| * bins
      && |Segments(r.value[k], bins)| == |s.images[k].bands|
      && forall c :: 0 <= c < |s.images[k].bands| ==>
           && IsColorSegment(Segments(r.value[k], bins)[c], s.images[k].bands[c], bins)
           && Sum(Segments(r.value[k], bins)[c]) == s.images[k].pixelCount
  {
    if |s.images| == 0 then Err(NoImagesLoaded)
    else if bins < 1 then Err(BinsNotPositive)
    else Ok(seq(|s.images|, k requires 0 <= k < |s.images| => ColorRow(s.images[k].bands, bins)))
  }

  /** Called with the default `bins=10` on loaded images, every extractor
      succeeds; scalar rows have 10 counts and colour rows 10 per channel. */
  lemma DefaultBinsRows(s: SampleSet, toGrey: Image -> seq<real>, toHue: Image -> seq<real>)
    requires 0 < |s.images|
    ensures ExtractHistogram(s, DefaultBins, toGrey).Ok? && ExtractHueHistogram(s, DefaultBins, toHue).Ok?
    ensures ExtractColorHistogram(s, DefaultBins).Ok?
    ensures forall k :: 0 <= k < |s.images| ==>
      && |ExtractHistogram(s, DefaultBins, toGrey).value[k]| == 10
      && |ExtractHueHistogram(s, DefaultBins, toHue).value[k]| == 10
      && |ExtractColorHistogram(s, DefaultBins).value[k]| == 30
  {
  }

  /** For 8-bit values the bin is plain integer arithmetic:
      `min(v * bins / 255, bins - 1)`. */
  lemma ByteBin(v: byte, bins: nat)
    requires 1 <= bins
    ensures BinOf(v as real, ByteTop, bins) == if v * bins / 255 < bins then v * bins / 255 else bins - 1
  {
    var q := v * bins / 255;
    if q < bins {
      ByteInLowerBin(v, bins);
      BinUnique(v as real, ByteTop, bins, q, BinOf(v as real, ByteTop, bins));
    } else {
      ByteInLastBin(v, bins);
      BinUnique(v as real, ByteTop, bins, bins - 1, BinOf(v as real, ByteTop, bins));
    }
  }

  /** Only the value 255 reaches the quotient `bins`; it lies in the last
      bin, which is closed on the right. */
  lemma ByteInLastBin(v: byte, bins: nat)
    requires 1 <= bins && v * bins / 255 >= bins
    ensures v == 255
    ensures InBin(v as real, ByteTop, bins, bins - 1)
  {
    var q := v * bins / 255;
    assert 255 * bins <= 255 * q <= v * bins;
    CancelFactor(255, v, bins);
    CastProduct(bins - 1, 255);
  }

  lemma CancelFactor(a: nat, b: nat, c: nat)
    requires 0 < c && a * c <= b * c
    ensures a <= b
  {
    assert (a - b) * c == a * c - b * c <= 0;
  }

  /** Below the last bin, the integer quotient `v * bins // 255` names the
      bin whose edges enclose `v`. */
  lemma ByteInLowerBin(v: byte, bins: nat)
    requires v * bins / 255 < bins
    ensures InBin(v as real, ByteTop, bins, v * bins / 255)
  {
    var p := v * bins;
    var q := p / 255;
    assert 255 * q <= p < 255 * q + 255;
    CastProduct(v, bins);
    CastProduct(q, 255);
    CastProduct(q + 1, 255);
    assert (255 * q) as real <= p as real;
    assert p as real < (255 * (q + 1)) as real;
  }

  lemma CastProduct(a: int, b: int)
    ensures (a * b) as real == a as real * b as real
  {
  }
}
