/** The two-dimensional image models of app/models/image_2d.py: the title
    and instrument taken from a file name, the NaN percentage, and the
    sea-ice and land-mask shares. Loading the `.mat` file is not modelled:
    the pixel arrays are arguments. */
module Images2D {
  import opened Common
  import opened NdArrays
  import opened Distribution
  import opened Data
  import Analysis

  /** The classes of image_2d.py; `Base` is `Image2D` itself. */
  datatype Kind2D = Base | LM | SIC | SST | NPR | NGR | TEMP

  /** The `SENSOR` class constant: the key of the band in the data file. */
  function Sensor(k: Kind2D): (r: Option<string>)
    ensures r.None? <==> k == Base
  {
    match k
    case Base => None
    case LM => Some("lm")
    case SIC => Some("mw_sic")
    case SST => Some("sst")
    case NPR => Some("mw_npr")
    case NGR => Some("mw_ngr")
    case TEMP => Some("temp")
  }

  /** The sensor keys tell the classes apart. */
  lemma SensorInjective(a: Kind2D, b: Kind2D)
    requires Sensor(a) == Sensor(b)
    ensures a == b
  {
  }

  /** A pixel as numpy holds it: a number or NaN. */
  datatype Sample = NaN | Num(v: real)

  /** `self.title = filename[2:15]`. */
  function Title(filename: string): (r: string)
    ensures |filename| >= 15 ==> r == filename[2..15]
    ensures 2 <= |filename| < 15 ==> r == filename[2..]
    ensures |filename| <= 2 ==> r == []
  {
    PySlice(filename, 2, 15)
  }

  datatype Instrument2D = VIRS | MODIS

  /** `instrument()`: SST images are always VIRS and TEMP images always
      MODIS; any other image is VIRS if its name holds "VIR", else MODIS if
      it holds "MOD", else the program exits (`None` here). */
  function Instrument(k: Kind2D, filename: string): (r: Option<Instrument2D>)
    ensures k == SST ==> r == Some(VIRS)
    ensures k == TEMP ==> r == Some(MODIS)
    ensures k != SST && k != TEMP ==>
      (r == Some(VIRS) <==> Contains(filename, "VIR")) &&
      (r == Some(MODIS) <==> !Contains(filename, "VIR") && Contains(filename, "MOD")) &&
      (r.None? <==> !Contains(filename, "VIR") && !Contains(filename, "MOD"))
  {
    if k == SST then Some(VIRS)
    else if k == TEMP then Some(MODIS)
    else if Contains(filename, "VIR") then Some(VIRS)
    else if Contains(filename, "MOD") then Some(MODIS)
    else None
  }

  /** A string contains every string it begins with. */
  lemma ContainsPrefix(s: string, sub: string)
    requires |sub| <= |s| && s[..|sub|] == sub
    ensures Contains(s, sub)
  {
  }

  /** A string contains what any of its suffixes contains. */
  lemma {:induction false} ContainsSuffix(s: string, k: nat, sub: string)
    requires k <= |s| && Contains(s[k..], sub)
    ensures Contains(s, sub)
    decreases k
  {
    if k > 0 {
      assert s[1..][k - 1..] == s[k..];
      ContainsSuffix(s[1..], k - 1, sub);
    }
  }

  /** A name holding "VIR" at any position is a VIRS image, whatever else it
      holds. */
  lemma VirsName(k: Kind2D, filename: string, at: nat)
    requires k != TEMP && at + 3 <= |filename| && filename[at..at + 3] == "VIR"
    ensures Instrument(k, filename) == Some(VIRS)
  {
    var rest := filename[at..];
    assert rest[..3] == "VIR";
    ContainsPrefix(rest, "VIR");
    ContainsSuffix(filename, at, "VIR");
  }

  // ---------------------------------------------------------------------
  // nan_percentage

  /** `count_nonzero(~isnan(image))`: the number of pixels that are not NaN. */
  function CountNumbers(s: seq<Sample>): (n: nat)
    ensures n == |s| - multiset(s)[NaN]
    ensures n == |s| <==> NaN !in s
  {
    if s == [] then 0
    else
      assert s == s[..|s| - 1] + [s[|s| - 1]];
      CountNumbers(s[..|s| - 1]) + (if s[|s| - 1].Num? then 1 else 0)
  }

  /** The ways a percentage cannot be computed: an empty image divides by
      zero; a share whose class is missing indexes past `itemfreq`'s rows;
      the land-mask share also parses the date of the file name. */
  datatype ImageError = ZeroSize | MissingClass | BadDate(error: DateError)

  /** `nan_percentage()`: the number of non-NaN pixels divided by the size
      with Python 2 integer division, times 100. */
  function NanPercentage(img: Array<Sample>): (r: Result<int, ImageError>)
    ensures r.Failure? <==> |img.data| == 0
    ensures r.Success? ==> (r.value == 100 <==> NaN !in img.data)
    ensures r.Success? ==> (r.value == 0 <==> NaN in img.data)
  {
    var size := |img.data|;
    if size == 0 then Failure(ZeroSize)
    else
      var n := CountNumbers(img.data);
      QuotientBelow(n, size);
      Success((n / size) * 100)
  }

  /** Integer division of a count by the size is 1 for all of it and 0 for
      less. */
  lemma QuotientBelow(n: nat, size: nat)
    requires n <= size && size > 0
    ensures n / size == if n == size then 1 else 0
  {
  }

  /** As written, `day_image`'s NaN test is inverted: an image without NaN
      scores 100 and is rejected, while an image holding any NaN (even one
      of nothing but NaN) scores 0 and is accepted. */
  lemma NanTestInverted(img: Array<Sample>, pixels: Array<real>)
    requires |img.data| > 0
    ensures NaN !in img.data ==> !Analysis.Accepted(Analysis.Scene(pixels, NanPercentage(img).value as real))
    ensures NaN in img.data ==> Analysis.Accepted(Analysis.Scene(pixels, NanPercentage(img).value as real))
  {
  }

  /** The share of NaN pixels in percent, as the ten-percent limit of
      `day_image` means it. */
  function NanShare(img: Array<Sample>): (r: Result<real, ImageError>)
    ensures r.Failure? <==> |img.data| == 0
    ensures r.Success? ==> 0.0 <= r.value <= 100.0
    ensures r.Success? ==> (r.value == 0.0 <==> NaN !in img.data)
    ensures r.Success? ==> r.value == (multiset(img.data)[NaN] as real / |img.data| as real) * 100.0
  {
    var size := |img.data|;
    if size == 0 then Failure(ZeroSize)
    else
      var count := CountNumbers(img.data);
      var missing := size - count;
      assert missing == 0 <==> NaN !in img.data;
      FractionBounds(missing, size);
      Success((missing as real / size as real) * 100.0)
  }

  /** a out of n, in percent, lies in [0, 100], is 0 only for a = 0, and is
      at most 10 exactly when a is at most a tenth of n. */
  lemma FractionBounds(a: nat, n: nat)
    requires 0 < n && a <= n
    ensures 0.0 <= (a as real / n as real) * 100.0 <= 100.0
    ensures (a as real / n as real) * 100.0 == 0.0 <==> a == 0
    ensures (a as real / n as real) * 100.0 <= 10.0 <==> 10 * a <= n
  {
    var q := a as real / n as real;
    assert a as real == q * n as real;
    assert (1.0 - q) * n as real == n as real - a as real;
    var x, pct := n as real, q * 100.0;
    assert pct * x == 100.0 * a as real;
    CompareScaled(pct, 10.0, x);
    assert (10 * a) as real == 10.0 * a as real;
    assert pct <= 10.0 <==> 10.0 * (10.0 * a as real) <= 10.0 * x;
  }

  /** Scaling by a positive factor keeps the order. */
  lemma CompareScaled(u: real, v: real, x: real)
    requires x > 0.0
    ensures u <= v <==> u * x <= v * x
  {
    if u <= v {
      assert (v - u) * x >= 0.0;
    } else {
      assert (u - v) * x > 0.0;
    }
    assert (v - u) * x == v * x - u * x;
  }

  /** With the NaN share, an image without NaN is always used by
      `day_image`, and one of nothing but NaN never is. */
  lemma NanShareTest(img: Array<Sample>, pixels: Array<real>)
    requires |img.data| > 0
    ensures NaN !in img.data ==> Analysis.Accepted(Analysis.Scene(pixels, NanShare(img).value))
    ensures CountNumbers(img.data) == 0 ==> !Analysis.Accepted(Analysis.Scene(pixels, NanShare(img).value))
  {
    NanShareLimit(img, pixels);
  }

  /** With the NaN share, `day_image` uses a file exactly when at most a
      tenth of its pixels are NaN. */
  lemma NanShareLimit(img: Array<Sample>, pixels: Array<real>)
    requires |img.data| > 0
    ensures Analysis.Accepted(Analysis.Scene(pixels, NanShare(img).value)) <==>
      10 * multiset(img.data)[NaN] <= |img.data|
  {
    FractionBounds(multiset(img.data)[NaN], |img.data|);
  }

  // ---------------------------------------------------------------------
  // SICImage.surface and SICImage.percentage

  const DefaultIceLevel: real := 40.0

  /** `image > level`: false for NaN. */
  predicate Above(x: Sample, level: real)
  {
    x.Num? && x.v > level
  }

  /** `surface(level)`: the mask of the pixels above the ice level. */
  function Surface(img: Array<Sample>, level: real): (r: Array<bool>)
    ensures r.shape == img.shape
    ensures |r.data| == |img.data| && forall i :: 0 <= i < |img.data| ==> r.data[i] == Above(img.data[i], level)
  {
    NdArray(img.shape, seq(|img.data|, i requires 0 <= i < |img.data| => Above(img.data[i], level)))
  }

  /** `surface(level, boolean=False)`: the same mask as 0 and 1. */
  function SurfaceInt(img: Array<Sample>, level: real): (r: Array<int>)
    ensures r.shape == img.shape && |r.data| == |img.data|
    ensures forall i :: 0 <= i < |img.data| ==> r.data[i] == if Surface(img, level).data[i] then 1 else 0
  {
    NdArray(img.shape, seq(|img.data|, i requires 0 <= i < |img.data| => if Above(img.data[i], level) then 1 else 0))
  }

  /** Raising the level can only clear pixels of the mask. */
  lemma SurfaceMonotone(img: Array<Sample>, lo: real, hi: real, i: nat)
    requires lo <= hi && i < |img.data| && Surface(img, hi).data[i]
    ensures Surface(img, lo).data[i]
  {
  }

  /** The number of set pixels of a mask. */
  function CountTrue(m: seq<bool>): (n: nat)
    ensures n == multiset(m)[true] && |m| - n == multiset(m)[false]
    ensures n > 0 <==> true in m
    ensures n < |m| <==> false in m
  {
    if m == [] then 0
    else
      assert m == m[..|m| - 1] + [m[|m| - 1]];
      CountTrue(m[..|m| - 1]) + (if m[|m| - 1] then 1 else 0)
  }

  /** The result of `percentage()`: the timestamp field and the two shares. */
  datatype Shares<T> = Shares(timestamp: T, part: real, other: real)

  /** `SICImage.percentage()`: the share of ice pixels (above 40) and of the
      rest, in percent; `itemfreq` of the mask has a second row only if both
      classes occur. */
  function SicPercentage(filename: string, img: Array<Sample>): (r: Result<Shares<string>, ImageError>)
    ensures var m := Surface(img, DefaultIceLevel).data;
      r.Success? <==> true in m && false in m
    ensures r.Success? ==> r.value.timestamp == Title(filename)
    ensures r.Success? ==> var m := Surface(img, DefaultIceLevel).data;
      && r.value.part == (CountTrue(m) as real / |img.data| as real) * 100.0
      && r.value.other == ((|m| - CountTrue(m)) as real / |img.data| as real) * 100.0
  {
    var m := Surface(img, DefaultIceLevel).data;
    var ice := CountTrue(m);
    if ice == 0 || ice == |m| then Failure(MissingClass)
    else
      var size := |img.data| as real;
      Success(Shares(Title(filename), (ice as real / size) * 100.0, ((|m| - ice) as real / size) * 100.0))
  }

  /** `(a / n) * 100 + (b / n) * 100` is 100 exactly when a + b is n. */
  lemma ShareSum(a: nat, b: nat, n: nat)
    requires n > 0
    ensures (a as real / n as real) * 100.0 + (b as real / n as real) * 100.0 == 100.0 <==> a + b == n
  {
    var x := n as real;
    assert (a as real / x) * 100.0 + (b as real / x) * 100.0 == ((a + b) as real / x) * 100.0;
    RatioOne((a + b) as real, x);
  }

  lemma RatioOne(y: real, x: real)
    requires x > 0.0
    ensures (y / x) * 100.0 == 100.0 <==> y == x
  {
    var q := y / x;
    assert y == q * x;
    assert q * x - x == (q - 1.0) * x;
  }

  /** The ice and other shares add up to 100. */
  lemma SicSharesSum(filename: string, img: Array<Sample>)
    requires SicPercentage(filename, img).Success?
    ensures SicPercentage(filename, img).value.part + SicPercentage(filename, img).value.other == 100.0
  {
    var m := Surface(img, DefaultIceLevel).data;
    ShareSum(CountTrue(m), |m| - CountTrue(m), |m|);
  }

  // ---------------------------------------------------------------------
  // LMImage.percentage

  /** `LMImage.percentage()`: after parsing the date of the file name, the
      shares of the second-smallest and of the smallest distinct pixel value
      (`freqs[1]` and `freqs[0]` of `itemfreq`), in percent. */
  function LmPercentage(filename: string, img: Array<real>): (r: Result<Shares<TimeStruct>, ImageError>)
    ensures ParseDate(filename).Failure? ==> r == Failure(BadDate(ParseDate(filename).error))
    ensures ParseDate(filename).Success? ==> (r.Success? <==> |Unique(img.data)| >= 2)
    ensures r.Success? ==>
      var s := img.data;
      var v := Unique(s);
      && r.value.timestamp == ParseDate(filename).value
      && r.value.part == (multiset(s)[v[1]] as real / |s| as real) * 100.0
      && r.value.other == (multiset(s)[v[0]] as real / |s| as real) * 100.0
  {
    match ParseDate(filename)
    case Failure(e) => Failure(BadDate(e))
    case Success(date) =>
      var s := img.data;
      var values := Unique(s);
      if |values| < 2 then Failure(MissingClass)
      else
        var freqs := Counts(s, values);
        var size := |s| as real;
        Success(Shares(date, (freqs[1] as real / size) * 100.0, (freqs[0] as real / size) * 100.0))
  }

  /** The two land-mask shares add up to 100 exactly when the image holds
      exactly two distinct values (land and the rest). */
  lemma LmSharesSum(filename: string, img: Array<real>)
    requires LmPercentage(filename, img).Success?
    ensures LmPercentage(filename, img).value.part + LmPercentage(filename, img).value.other == 100.0
      <==> |Unique(img.data)| == 2
  {
    var s := img.data;
    var v := Unique(s);
    TwoSmallest(s);
    SecondIsLargest(s);
    ShareSum(multiset(s)[v[1]], multiset(s)[v[0]], |s|);
  }

  /** The two smallest distinct values together occur as often as there
      are elements at most the second one. */
  lemma TwoSmallest(s: seq<real>)
    requires |Unique(s)| >= 2
    ensures multiset(s)[Unique(s)[0]] + multiset(s)[Unique(s)[1]] == CountAtMost(s, Unique(s)[1])
  {
    var v := Unique(s);
    var c := Counts(s, v);
    CumulativeCount(s, v, 1);
    assert Counts(s, v[..2]) == [c[0], c[1]];
    var w: seq<nat> := [c[0], c[1]];
    assert Sum(w) == c[0] + c[1] by {
      assert w[..1] == [c[0]];
      assert [c[0]][..0] == [];
      assert Sum([c[0]]) == Sum([]) + c[0];
    }
  }

  /** Every element is at most the second distinct value exactly when there
      are only two. */
  lemma SecondIsLargest(s: seq<real>)
    requires |Unique(s)| >= 2
    ensures CountAtMost(s, Unique(s)[1]) == |s| <==> |Unique(s)| == 2
  {
    var v := Unique(s);
    AtMostLargest(s);
    if |v| > 2 {
      assert v[2] in s;
      CountAtMostGrows(s, v[1], v[2]);
      CountAtMostMonotone(s, v[2], v[|v| - 1]);
    }
  }
}
