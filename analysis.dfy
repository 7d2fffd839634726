/** Histogram matching, the empirical CDF, and the day-image reduction of
    app/reports/analysis.py. */
module Analysis {
  import opened Common
  import opened NdArrays
  import opened Distribution

  /** `s_quantiles[-1]` (or `t_quantiles[-1]`) on an empty array raises
      IndexError; the source is indexed first. */
  datatype MatchError = EmptySource | EmptyTemplate

  function Minimum(s: seq<real>): (m: real)
    requires |s| > 0
    ensures m in s && forall i :: 0 <= i < |s| ==> m <= s[i]
  {
    if |s| == 1 then s[0]
    else var m := Minimum(s[1..]); if s[0] <= m then s[0] else m
  }

  function Maximum(s: seq<real>): (m: real)
    requires |s| > 0
    ensures m in s && forall i :: 0 <= i < |s| ==> s[i] <= m
  {
    if |s| == 1 then s[0]
    else var m := Maximum(s[1..]); if s[0] >= m then s[0] else m
  }

  /** The first and last distinct values are the minimum and the maximum. */
  lemma UniqueEnds(s: seq<real>)
    requires |s| > 0
    ensures Unique(s)[0] == Minimum(s)
    ensures Unique(s)[|Unique(s)| - 1] == Maximum(s)
  {
    UniqueFirst(s);
    UniqueLast(s);
  }

  lemma UniqueFirst(s: seq<real>)
    requires |s| > 0
    ensures Unique(s)[0] == Minimum(s)
  {
    var v := Unique(s);
    var m := Minimum(s);
    assert m in v;
    var lo := IndexOf(v, m);
    assert v[0] <= v[lo];
    assert v[0] in s;
    var k := IndexOf(s, v[0]);
    assert m <= s[k];
  }

  lemma UniqueLast(s: seq<real>)
    requires |s| > 0
    ensures Unique(s)[|Unique(s)| - 1] == Maximum(s)
  {
    var v := Unique(s);
    LastBounds(s, v);
    MaximumOfBound(s, v[|v| - 1]);
  }

  /** The largest distinct value bounds every element. */
  lemma LastBounds(s: seq<real>, v: seq<real>)
    requires |v| > 0 && StrictlyIncreasing(v) && forall y :: y in v <==> y in s
    ensures v[|v| - 1] in s && forall i :: 0 <= i < |s| ==> s[i] <= v[|v| - 1]
  {
    assert v[|v| - 1] in v;
    forall i | 0 <= i < |s| ensures s[i] <= v[|v| - 1] {
      IncreasingLe(v, IndexOf(v, s[i]), |v| - 1);
    }
  }

  /** An element that bounds every element is the maximum. */
  lemma MaximumOfBound(s: seq<real>, x: real)
    requires x in s && forall i :: 0 <= i < |s| ==> s[i] <= x
    ensures Maximum(s) == x
  {
    var k := IndexOf(s, x);
    var j := IndexOf(s, Maximum(s));
  }

  lemma IncreasingLe(v: seq<real>, i: nat, j: nat)
    requires StrictlyIncreasing(v) && i <= j < |v|
    ensures v[i] <= v[j]
  {
  }

  lemma IncreasingNonDecreasing(v: seq<real>)
    requires StrictlyIncreasing(v)
    ensures NonDecreasing(v)
  {
  }

  lemma IncreasingOrder(v: seq<real>, i: nat, j: nat)
    requires StrictlyIncreasing(v) && i < |v| && j < |v| && v[i] <= v[j]
    ensures i <= j
  {
  }

  /** `hist_match(source, template)`: both arrays are flattened; each
      distinct source value is sent to the template value at the same
      empirical quantile, by linear interpolation of the template's
      (quantile, value) table; the result has the source's shape. */
  function HistMatch(source: Array<real>, template: Array<real>): (r: Result<Array<real>, MatchError>)
    ensures r == Failure(EmptySource) <==> |source.data| == 0
    ensures r == Failure(EmptyTemplate) <==> |source.data| > 0 && |template.data| == 0
    ensures r.Success? ==> r.value.shape == source.shape && |r.value.data| == |source.data|
  {
    var s := source.data;
    var t := template.data;
    if |s| == 0 then Failure(EmptySource)
    else if |t| == 0 then Failure(EmptyTemplate)
    else
      var sValues := Unique(s);
      var binIdx := InverseIndex(s, sValues);
      QuantilesIncrease(t);
      var interpTValues := InterpAll(Quantiles(s), Quantiles(t), Unique(t));
      Success(NdArray(source.shape, Gather(interpTValues, binIdx)))
  }

  /** `np.interp` applied to every entry of xs. */
  function InterpAll(xs: seq<real>, xp: seq<real>, fp: seq<real>): (r: seq<real>)
    requires |xp| == |fp| > 0 && StrictlyIncreasing(xp)
    ensures |r| == |xs| && forall k :: 0 <= k < |xs| ==> r[k] == Interp(xs[k], xp, fp)
  {
    seq(|xs|, k requires 0 <= k < |xs| => Interp(xs[k], xp, fp))
  }

  /** Fancy indexing `table[idx]`. */
  function Gather(table: seq<real>, idx: seq<nat>): (r: seq<real>)
    requires forall i :: 0 <= i < |idx| ==> idx[i] < |table|
    ensures |r| == |idx| && forall i :: 0 <= i < |idx| ==> r[i] == table[idx[i]]
  {
    seq(|idx|, i requires 0 <= i < |idx| => table[idx[i]])
  }

  /** The value that histogram matching gives to source value x. */
  function Matched(s: seq<real>, t: seq<real>, x: real): real
    requires |t| > 0 && x in s
  {
    QuantilesIncrease(t);
    Interp(Quantiles(s)[IndexOf(Unique(s), x)], Quantiles(t), Unique(t))
  }

  /** Element i of the matched array is what the matching gives to source
      element i: equal source values get equal results. */
  lemma HistMatchAt(source: Array<real>, template: Array<real>, i: nat)
    requires i < |source.data| && |template.data| > 0
    ensures HistMatch(source, template).value.data[i] ==
      Matched(source.data, template.data, source.data[i])
  {
  }

  /** Every matched value lies between the template's minimum and maximum. */
  lemma HistMatchRange(source: Array<real>, template: Array<real>)
    requires HistMatch(source, template).Success?
    ensures forall i :: 0 <= i < |source.data| ==>
      Minimum(template.data) <= HistMatch(source, template).value.data[i] <= Maximum(template.data)
  {
    var t := template.data;
    var tValues := Unique(t);
    QuantilesIncrease(t);
    IncreasingNonDecreasing(tValues);
    UniqueEnds(t);
    forall i | 0 <= i < |source.data|
      ensures Minimum(t) <= HistMatch(source, template).value.data[i] <= Maximum(t)
    {
      HistMatchAt(source, template, i);
      var s := source.data;
      InterpBounds(Quantiles(s)[IndexOf(Unique(s), s[i])], Quantiles(t), tValues);
    }
  }

  /** Histogram matching is monotone: a smaller source value never gets a
      larger result. */
  lemma HistMatchMonotone(source: Array<real>, template: Array<real>, i: nat, j: nat)
    requires HistMatch(source, template).Success?
    requires i < |source.data| && j < |source.data| && source.data[i] <= source.data[j]
    ensures HistMatch(source, template).value.data[i] <= HistMatch(source, template).value.data[j]
  {
    var s := source.data;
    var t := template.data;
    HistMatchAt(source, template, i);
    HistMatchAt(source, template, j);
    var v := Unique(s);
    var bi := IndexOf(v, s[i]);
    var bj := IndexOf(v, s[j]);
    IncreasingOrder(v, bi, bj);
    QuantilesIncrease(s);
    QuantilesIncrease(t);
    var q := Quantiles(s);
    IncreasingLe(q, bi, bj);
    IncreasingNonDecreasing(Unique(t));
    InterpMonotone(q[bi], q[bj], Quantiles(t), Unique(t));
  }

  /** Matching an array to itself gives it back unchanged. */
  lemma HistMatchIdentity(x: Array<real>)
    requires |x.data| > 0
    ensures HistMatch(x, x) == Success(x)
  {
    var s := x.data;
    var r := HistMatch(x, x).value;
    QuantilesIncrease(s);
    forall i | 0 <= i < |s| ensures r.data[i] == s[i] {
      HistMatchAt(x, x, i);
      InterpAtKnot(Quantiles(s), Unique(s), IndexOf(Unique(s), s[i]));
    }
    assert r.data == s;
  }

  /** The result depends on the template only through its multiset of
      values: reordering the template (or reshaping it) changes nothing. */
  lemma HistMatchTemplateMultiset(source: Array<real>, t1: Array<real>, t2: Array<real>)
    requires multiset(t1.data) == multiset(t2.data)
    ensures HistMatch(source, t1) == HistMatch(source, t2)
  {
    var a, b := t1.data, t2.data;
    assert |a| == |multiset(a)| == |b|;
    forall y ensures y in a <==> y in b {
      assert y in a <==> y in multiset(a);
      assert y in b <==> y in multiset(b);
    }
    IncreasingBySet(Unique(a), Unique(b));
    assert Counts(a, Unique(a)) == Counts(b, Unique(b));
    if |a| > 0 {
      assert Quantiles(a) == Quantiles(b);
    }
  }

  /** `ecdf[-1]` on the cumulative counts of an empty sample raises
      IndexError. */
  datatype EcdfError = EmptySample

  /** `ecdf(x)`: the sorted distinct values and their normalised cumulative
      counts. */
  function Ecdf(x: seq<real>): (r: Result<(seq<real>, seq<real>), EcdfError>)
    ensures r.Failure? <==> |x| == 0
    ensures r.Success? ==>
      var (vals, cum) := r.value;
      && StrictlyIncreasing(vals)
      && (forall y :: y in vals <==> y in x)
      && StrictlyIncreasing(cum)
      && |cum| == |vals| > 0
      && cum[|cum| - 1] == 1.0
      && forall k :: 0 <= k < |vals| ==> cum[k] == CountAtMost(x, vals[k]) as real / |x| as real
  {
    if |x| == 0 then Failure(EmptySample)
    else
      QuantilesIncrease(x);
      QuantilesEndAtOne(x);
      Success((Unique(x), Quantiles(x)))
  }

  /** One file of the day: its image and the share of its pixels that are
      NaN, as `nan_percentage()` reports it. */
  datatype Scene = Scene(image: Array<real>, nanPct: real)

  const MaxNanPercentage: real := 10.0

  /** A file is used unless its NaN percentage exceeds the maximum. */
  predicate Accepted(sc: Scene)
  {
    !(sc.nanPct > MaxNanPercentage)
  }

  /** `day_image` exits when there are no files; a failure of `hist_match`
      propagates as an exception. */
  datatype DayError = NoFiles | MatchFailed(error: MatchError)

  /** The position of the first accepted scene. */
  function FirstAccepted(xs: seq<Scene>): (r: Option<nat>)
    ensures r.Some? ==> (r.value < |xs| && Accepted(xs[r.value]) &&
      forall j :: 0 <= j < r.value ==> !Accepted(xs[j]))
    ensures r.None? ==> forall j :: 0 <= j < |xs| ==> !Accepted(xs[j])
  {
    if xs == [] then None
    else if Accepted(xs[0]) then Some(0)
    else match FirstAccepted(xs[1..])
      case None => None
      case Some(k) => Some(k + 1)
  }

  /** The scene that starts the reduction: the first accepted one that is not
      the last file (the last file is only ever used as a template). */
  function Seed(scenes: seq<Scene>): (r: Option<nat>)
    requires |scenes| > 0
    ensures r.Some? ==> (r.value < |scenes| - 1 && Accepted(scenes[r.value]) &&
      forall j :: 0 <= j < r.value ==> !Accepted(scenes[j]))
    ensures r.None? ==> forall j :: 0 <= j < |scenes| - 1 ==> !Accepted(scenes[j])
  {
    FirstAccepted(scenes[..|scenes| - 1])
  }

  /** A histogram-matching function: `hist_match` itself, or any function of
      the same type when a property holds whatever the matching does. */
  type Matcher = (Array<real>, Array<real>) -> Result<Array<real>, MatchError>

  /** Folding in one template: an accepted template's histogram is imposed on
      the running image; a rejected one is skipped; a failure stays. */
  function Step(matcher: Matcher, acc: Result<Array<real>, MatchError>, sc: Scene): Result<Array<real>, MatchError>
  {
    if acc.Failure? || !Accepted(sc) then acc else matcher(acc.value, sc.image)
  }

  /** The left fold of `Step` over the templates scenes[lo..hi], first to
      last. */
  function Fold(matcher: Matcher, acc: Result<Array<real>, MatchError>, scenes: seq<Scene>, lo: nat, hi: nat): Result<Array<real>, MatchError>
    requires lo <= hi <= |scenes|
    decreases hi - lo
  {
    if hi == lo then acc else Step(matcher, Fold(matcher, acc, scenes, lo, hi - 1), scenes[hi - 1])
  }

  /** What `day_image` returns for the loaded files, in order, when images
      are matched with `matcher`. */
  function DayImageWith(matcher: Matcher, scenes: seq<Scene>): (r: Result<Option<Array<real>>, DayError>)
    ensures r == Failure(NoFiles) <==> |scenes| == 0
    ensures |scenes| > 0 && Seed(scenes).None? ==> r == Success(None)
    ensures r.Success? && r.value.Some? ==> Seed(scenes).Some?
  {
    if |scenes| == 0 then Failure(NoFiles)
    else match Seed(scenes)
      case None => Success(None)
      case Some(k) =>
        match Fold(matcher, Success(scenes[k].image), scenes, k + 1, |scenes|)
          case Success(m) => Success(Some(m))
          case Failure(e) => Failure(MatchFailed(e))
  }

  /** What `day_image` returns: the fold with `hist_match`. The day image
      has the shape of its seed, since `hist_match` keeps the source's
      shape. */
  function DayImageSpec(scenes: seq<Scene>): (r: Result<Option<Array<real>>, DayError>)
    ensures r.Success? && r.value.Some? ==>
      |scenes| > 0 && Seed(scenes).Some? && r.value.value.shape == scenes[Seed(scenes).value].image.shape
  {
    if |scenes| > 0 && Seed(scenes).Some? then
      var k := Seed(scenes).value;
      var folded := Fold(HistMatch, Success(scenes[k].image), scenes, k + 1, |scenes|);
      if folded.Success? then
        FoldShape(Success(scenes[k].image), scenes, k + 1, |scenes|);
        DayImageWith(HistMatch, scenes)
      else DayImageWith(HistMatch, scenes)
    else DayImageWith(HistMatch, scenes)
  }

  /** `day_image`: walk the files; the first accepted one (not the last)
      becomes the running image, and every later accepted file is matched
      onto it with `hist_match`. */
  method DayImage(scenes: seq<Scene>) returns (r: Result<Option<Array<real>>, DayError>)
    ensures r == DayImageSpec(scenes)
  {
    r := DayImageLoop(HistMatch, scenes);
  }

  /** The loop of `day_image`, for any matching function. */
  method DayImageLoop(matcher: Matcher, scenes: seq<Scene>) returns (r: Result<Option<Array<real>>, DayError>)
    ensures r == DayImageWith(matcher, scenes)
  {
    if |scenes| == 0 {
      return Failure(NoFiles);
    }
    var matched: Option<Array<real>> := None;
    ghost var seed: nat := 0;
    var idx := 0;
    while idx + 1 < |scenes|
      invariant idx < |scenes|
      invariant matched.None? ==> forall j :: 0 <= j < idx ==> !Accepted(scenes[j])
      invariant matched.Some? ==> seed < idx && Seed(scenes) == Some(seed)
      invariant matched.Some? ==>
        Fold(matcher, Success(scenes[seed].image), scenes, seed + 1, idx + 1) == Success(matched.value)
    {
      if matched.None? {
        if !Accepted(scenes[idx]) {
          idx := idx + 1;
          continue;
        }
        matched := Some(scenes[idx].image);
        seed := idx;
        SeedAt(scenes, idx);
      }
      var template := scenes[idx + 1];
      if Accepted(template) {
        var m := matcher(matched.value, template.image);
        if m.Failure? {
          FoldFailure(matcher, m.error, scenes, idx + 2, |scenes|);
          FoldSplit(matcher, Success(scenes[seed].image), scenes, seed + 1, idx + 2, |scenes|);
          return Failure(MatchFailed(m.error));
        }
        matched := Some(m.value);
      }
      idx := idx + 1;
    }
    if matched.Some? {
      return Success(matched);
    }
    return Success(None);
  }

  /** A scene accepted after only rejected ones is the seed. */
  lemma SeedAt(scenes: seq<Scene>, k: nat)
    requires k + 1 < |scenes| && Accepted(scenes[k])
    requires forall j :: 0 <= j < k ==> !Accepted(scenes[j])
    ensures Seed(scenes) == Some(k)
  {
    var p := scenes[..|scenes| - 1];
    assert forall j :: 0 <= j <= k ==> p[j] == scenes[j];
  }

  /** A failed match stays failed whatever follows. */
  lemma {:induction false} FoldFailure(matcher: Matcher, e: MatchError, scenes: seq<Scene>, lo: nat, hi: nat)
    requires lo <= hi <= |scenes|
    ensures Fold(matcher, Failure(e), scenes, lo, hi) == Failure(e)
    decreases hi - lo
  {
    if hi > lo {
      FoldFailure(matcher, e, scenes, lo, hi - 1);
    }
  }

  /** Folding over two adjacent runs of files is folding over the first and
      then the second. */
  lemma {:induction false} FoldSplit(matcher: Matcher, acc: Result<Array<real>, MatchError>, scenes: seq<Scene>, lo: nat, mid: nat, hi: nat)
    requires lo <= mid <= hi <= |scenes|
    ensures Fold(matcher, acc, scenes, lo, hi) == Fold(matcher, Fold(matcher, acc, scenes, lo, mid), scenes, mid, hi)
    decreases hi - mid
  {
    if hi > mid {
      FoldSplit(matcher, acc, scenes, lo, mid, hi - 1);
    }
  }

  /** Rejected files leave the running image as it is. */
  lemma {:induction false} FoldRejected(matcher: Matcher, acc: Result<Array<real>, MatchError>, scenes: seq<Scene>, lo: nat, hi: nat)
    requires lo <= hi <= |scenes|
    requires forall j :: lo <= j < hi ==> !Accepted(scenes[j])
    ensures Fold(matcher, acc, scenes, lo, hi) == acc
    decreases hi - lo
  {
    if hi > lo {
      FoldRejected(matcher, acc, scenes, lo, hi - 1);
    }
  }

  /** Matching with `hist_match` keeps the running image's shape. */
  lemma {:induction false} FoldShape(acc: Result<Array<real>, MatchError>, scenes: seq<Scene>, lo: nat, hi: nat)
    requires lo <= hi <= |scenes|
    requires acc.Success? && Fold(HistMatch, acc, scenes, lo, hi).Success?
    ensures Fold(HistMatch, acc, scenes, lo, hi).value.shape == acc.value.shape
    decreases hi - lo
  {
    if hi > lo {
      FoldShape(acc, scenes, lo, hi - 1);
    }
  }

  /** No image for the day exactly when no file but possibly the last one
      is accepted; in particular a single file never gives one. */
  lemma DayImageNone(matcher: Matcher, scenes: seq<Scene>)
    requires |scenes| > 0
    ensures DayImageWith(matcher, scenes) == Success(None) <==>
      forall j :: 0 <= j < |scenes| - 1 ==> !Accepted(scenes[j])
  {
    var p := scenes[..|scenes| - 1];
    if forall j :: 0 <= j < |scenes| - 1 ==> !Accepted(scenes[j]) {
      assert forall j :: 0 <= j < |p| ==> !Accepted(p[j]);
    } else {
      var j :| 0 <= j < |scenes| - 1 && Accepted(scenes[j]);
      assert p[j] == scenes[j];
    }
  }

  /** The last file is merged when it is accepted: the day image is the
      running image of the earlier files matched onto it. */
  lemma DayImageMergesLast(matcher: Matcher, scenes: seq<Scene>)
    requires |scenes| > 0 && Seed(scenes).Some? && Accepted(scenes[|scenes| - 1])
    ensures var k := Seed(scenes).value;
      var before := Fold(matcher, Success(scenes[k].image), scenes, k + 1, |scenes| - 1);
      before.Success? ==>
        match matcher(before.value, scenes[|scenes| - 1].image)
          case Success(m) => DayImageWith(matcher, scenes) == Success(Some(m))
          case Failure(e) => DayImageWith(matcher, scenes) == Failure(MatchFailed(e))
  {
  }


  /** Three files with 50%, 2% and 1% NaN: the first is skipped, the second
      is the seed and the third is matched onto it. */
  lemma DayImageExample(a: Array<real>, b: Array<real>, c: Array<real>)
    requires |b.data| > 0 && |c.data| > 0
    ensures DayImageSpec([Scene(a, 50.0), Scene(b, 2.0), Scene(c, 1.0)]) ==
      Success(Some(HistMatch(b, c).value))
  {
    ExampleWith(HistMatch, a, b, c);
  }

  /** The same three files, for any matching function. */
  lemma ExampleWith(matcher: Matcher, a: Array<real>, b: Array<real>, c: Array<real>)
    ensures matcher(b, c).Success? ==>
      DayImageWith(matcher, [Scene(a, 50.0), Scene(b, 2.0), Scene(c, 1.0)]) == Success(Some(matcher(b, c).value))
  {
    var scenes := [Scene(a, 50.0), Scene(b, 2.0), Scene(c, 1.0)];
    SeedAt(scenes, 1);
    assert Fold(matcher, Success(b), scenes, 2, 2) == Success(b);
  }
}
