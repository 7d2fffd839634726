/** The empirical distribution of a flat list of values, as numpy computes
    it for histogram matching: `np.unique` (sorted distinct values, their
    counts and the inverse index), `np.cumsum`, the normalisation by the last
    cumulative count, and `np.interp`. Values are exact reals. */
module Distribution {

  ghost predicate StrictlyIncreasing(s: seq<real>)
  {
    forall i, j :: 0 <= i < j < |s| ==> s[i] < s[j]
  }

  ghost predicate NonDecreasing(s: seq<real>)
  {
    forall i, j :: 0 <= i < j < |s| ==> s[i] <= s[j]
  }

  /** Inserts x into a strictly increasing list unless it is already there. */
  function InsertDistinct(v: seq<real>, x: real): (r: seq<real>)
    requires StrictlyIncreasing(v)
    ensures StrictlyIncreasing(r)
    ensures forall y :: y in r <==> y in v || y == x
    decreases |v|
  {
    if v == [] then [x]
    else if x < v[0] then [x] + v
    else if x == v[0] then v
    else
      var t := InsertDistinct(v[1..], x);
      assert forall j :: 0 <= j < |t| ==> t[j] in t && v[0] < t[j];
      [v[0]] + t
  }

  /** The sorted distinct values of s (the first result of `np.unique`). */
  function Unique(s: seq<real>): (r: seq<real>)
    ensures StrictlyIncreasing(r)
    ensures forall y :: y in r <==> y in s
    ensures |r| <= |s|
    ensures |s| > 0 ==> |r| > 0
  {
    if s == [] then []
    else
      var r := InsertDistinct(Unique(s[..|s| - 1]), s[|s| - 1]);
      DistinctNoLonger(r, s);
      r
  }

  /** A strictly increasing list drawn from s is no longer than s. */
  lemma {:induction false} DistinctNoLonger(r: seq<real>, s: seq<real>)
    requires StrictlyIncreasing(r)
    requires forall y :: y in r ==> y in s
    ensures |r| <= |s|
  {
    if r != [] {
      var x := r[|r| - 1];
      assert x in r;
      var i :| 0 <= i < |s| && s[i] == x;
      var s' := s[..i] + s[i + 1..];
      forall y | y in r[..|r| - 1] ensures y in s' {
        var j :| 0 <= j < |r| - 1 && r[j] == y;
        assert y < x && y in r;
        var k :| 0 <= k < |s| && s[k] == y;
        if k < i { assert s'[k] == y; } else { assert s'[k - 1] == y; }
      }
      DistinctNoLonger(r[..|r| - 1], s');
    }
  }

  /** A strictly increasing list is determined by its set of elements; so
      `Unique` depends only on which values occur. */
  lemma {:induction false} IncreasingBySet(a: seq<real>, b: seq<real>)
    requires StrictlyIncreasing(a) && StrictlyIncreasing(b)
    requires forall y :: y in a <==> y in b
    ensures a == b
  {
    if a != [] && b != [] {
      assert a[0] in b && b[0] in a;
      assert a[0] == b[0];
      forall y ensures y in a[1..] <==> y in b[1..] {
        if y in a[1..] { assert y in b && y != b[0]; }
        if y in b[1..] { assert y in a && y != a[0]; }
      }
      IncreasingBySet(a[1..], b[1..]);
    } else if a == [] {
      DistinctNoLonger(b, a);
    } else {
      DistinctNoLonger(a, b);
    }
  }

  /** The position of a value in a strictly increasing list that holds it. */
  function IndexOf(v: seq<real>, x: real): (k: nat)
    requires x in v
    ensures k < |v| && v[k] == x
  {
    if v[0] == x then 0 else 1 + IndexOf(v[1..], x)
  }

  /** In a strictly increasing list the position of a value is its only one. */
  lemma IndexOfUnique(v: seq<real>, x: real, k: nat)
    requires StrictlyIncreasing(v) && k < |v| && v[k] == x
    ensures IndexOf(v, x) == k
  {
    var j := IndexOf(v, x);
    assert !(j < k) && !(k < j);
  }

  /** The inverse index of `np.unique(s, return_inverse=True)`. */
  function InverseIndex(s: seq<real>, values: seq<real>): (idx: seq<nat>)
    requires forall i :: 0 <= i < |s| ==> s[i] in values
    ensures |idx| == |s|
    ensures forall i :: 0 <= i < |s| ==> idx[i] < |values| && values[idx[i]] == s[i]
  {
    seq(|s|, i requires 0 <= i < |s| => IndexOf(values, s[i]))
  }

  /** How often each of `values` occurs in s (the counts of `np.unique`). */
  function Counts(s: seq<real>, values: seq<real>): (c: seq<nat>)
    ensures |c| == |values|
    ensures forall k :: 0 <= k < |values| ==> c[k] == multiset(s)[values[k]]
  {
    seq(|values|, k requires 0 <= k < |values| => multiset(s)[values[k]])
  }

  function Sum(c: seq<nat>): nat
  {
    if c == [] then 0 else Sum(c[..|c| - 1]) + c[|c| - 1]
  }

  /** `np.cumsum`: entry k is the sum of the first k + 1 entries. */
  function Cumsum(c: seq<nat>): (r: seq<nat>)
    ensures |r| == |c|
    ensures forall k :: 0 <= k < |c| ==> r[k] == Sum(c[..k + 1])
  {
    if c == [] then []
    else
      var p := Cumsum(c[..|c| - 1]);
      var r := p + [(if p == [] then 0 else p[|p| - 1]) + c[|c| - 1]];
      assert forall k :: 0 <= k < |c| ==> r[k] == Sum(c[..k + 1]) by {
        forall k | 0 <= k < |c| ensures r[k] == Sum(c[..k + 1]) {
          if k < |c| - 1 {
            assert c[..|c| - 1][..k + 1] == c[..k + 1];
          } else {
            assert c[..k + 1] == c;
            assert |c| > 1 ==> c[..|c| - 1][..|c| - 1] == c[..|c| - 1];
          }
        }
      }
      r
  }

  /** Number of elements of s that are at most v. */
  function CountAtMost(s: seq<real>, v: real): nat
  {
    if s == [] then 0 else CountAtMost(s[..|s| - 1], v) + (if s[|s| - 1] <= v then 1 else 0)
  }

  lemma {:induction false} CountAtMostAll(s: seq<real>, v: real)
    requires forall i :: 0 <= i < |s| ==> s[i] <= v
    ensures CountAtMost(s, v) == |s|
  {
    if s != [] { CountAtMostAll(s[..|s| - 1], v); }
  }

  lemma {:induction false} SumCountsEmpty(values: seq<real>)
    ensures Sum(Counts([], values)) == 0
  {
    if values != [] {
      assert Counts([], values)[..|values| - 1] == Counts([], values[..|values| - 1]);
      SumCountsEmpty(values[..|values| - 1]);
    }
  }

  /** Appending x to s adds one to the total count of the distinct values
      exactly when x is one of them. */
  lemma {:induction false} SumCountsAppend(s: seq<real>, x: real, values: seq<real>)
    requires StrictlyIncreasing(values)
    ensures Sum(Counts(s + [x], values)) == Sum(Counts(s, values)) + (if x in values then 1 else 0)
  {
    if values != [] {
      var w := values[|values| - 1];
      var vs := values[..|values| - 1];
      assert Counts(s + [x], values)[..|vs|] == Counts(s + [x], vs);
      assert Counts(s, values)[..|vs|] == Counts(s, vs);
      SumCountsAppend(s, x, vs);
      assert multiset(s + [x]) == multiset(s) + multiset{x};
      assert x in values <==> x in vs || x == w;
      assert x in vs ==> x < w;
    }
  }

  /** The cumulative count of the first k + 1 distinct values is the number
      of elements at most the (k + 1)-th distinct value. */
  lemma {:induction false} CumulativeCount(s: seq<real>, values: seq<real>, k: nat)
    requires StrictlyIncreasing(values)
    requires forall i :: 0 <= i < |s| ==> s[i] in values
    requires k < |values|
    ensures Sum(Counts(s, values[..k + 1])) == CountAtMost(s, values[k])
  {
    if s == [] {
      SumCountsEmpty(values[..k + 1]);
    } else {
      var s' := s[..|s| - 1];
      var x := s[|s| - 1];
      CumulativeCount(s', values, k);
      assert s == s' + [x];
      assert StrictlyIncreasing(values[..k + 1]);
      SumCountsAppend(s', x, values[..k + 1]);
      var m := IndexOf(values, x);
      assert x in values[..k + 1] <==> m <= k;
      assert m <= k <==> x <= values[k];
    }
  }

  /** The normalised cumulative counts over the sorted distinct values of a
      non-empty list (what `np.cumsum(counts) / cumsum[-1]` gives). */
  function Quantiles(s: seq<real>): (q: seq<real>)
    requires |s| > 0
    ensures |q| == |Unique(s)|
    ensures forall k :: 0 <= k < |q| ==>
      q[k] == CountAtMost(s, Unique(s)[k]) as real / |s| as real
  {
    var values := Unique(s);
    var cum := Cumsum(Counts(s, values));
    CumsumOfCounts(s);
    AtMostLargest(s);
    seq(|cum|, k requires 0 <= k < |cum| => cum[k] as real / cum[|cum| - 1] as real)
  }

  /** Entry k of the cumulative counts over the distinct values is the number
      of elements at most the k-th distinct value. */
  lemma CumsumOfCounts(s: seq<real>)
    ensures forall k :: 0 <= k < |Unique(s)| ==>
      Cumsum(Counts(s, Unique(s)))[k] == CountAtMost(s, Unique(s)[k])
  {
    var values := Unique(s);
    var cum := Cumsum(Counts(s, values));
    forall k | 0 <= k < |values| ensures cum[k] == CountAtMost(s, values[k]) {
      assert Counts(s, values)[..k + 1] == Counts(s, values[..k + 1]);
      CumulativeCount(s, values, k);
    }
  }

  /** `CountAtMost` strictly grows past a value that occurs. */
  lemma {:induction false} CountAtMostGrows(s: seq<real>, u: real, v: real)
    requires u < v && v in s
    ensures CountAtMost(s, u) < CountAtMost(s, v)
  {
    var s' := s[..|s| - 1];
    CountAtMostMonotone(s', u, v);
    if s[|s| - 1] != v {
      assert v in s';
      CountAtMostGrows(s', u, v);
    }
  }

  lemma {:induction false} CountAtMostMonotone(s: seq<real>, u: real, v: real)
    requires u <= v
    ensures CountAtMost(s, u) <= CountAtMost(s, v)
  {
    if s != [] { CountAtMostMonotone(s[..|s| - 1], u, v); }
  }

  /** Every element is at most the largest distinct value. */
  lemma AtMostLargest(s: seq<real>)
    requires |s| > 0
    ensures CountAtMost(s, Unique(s)[|Unique(s)| - 1]) == |s|
  {
    var v := Unique(s);
    var top := v[|v| - 1];
    forall i | 0 <= i < |s| ensures s[i] <= top {
      var m := IndexOf(v, s[i]);
      assert m == |v| - 1 || v[m] < top;
    }
    CountAtMostAll(s, top);
  }

  /** The quantiles strictly increase. */
  lemma QuantilesIncrease(s: seq<real>)
    requires |s| > 0
    ensures StrictlyIncreasing(Quantiles(s))
  {
    var q := Quantiles(s);
    forall i, j | 0 <= i < j < |q| ensures q[i] < q[j] {
      QuantileStep(s, i, j);
    }
  }

  /** The last quantile is 1: the normaliser is the total count. */
  lemma QuantilesEndAtOne(s: seq<real>)
    requires |s| > 0
    ensures Quantiles(s)[|Quantiles(s)| - 1] == 1.0
  {
    var q := Quantiles(s);
    var v := Unique(s);
    var c := CountAtMost(s, v[|v| - 1]);
    assert q[|q| - 1] == c as real / |s| as real;
    AtMostLargest(s);
    assert c == |s|;
    UnitRatio(|s|);
  }

  lemma UnitRatio(n: nat)
    requires n > 0
    ensures (n as real) / (n as real) == 1.0
  {
  }

  lemma QuantileStep(s: seq<real>, i: nat, j: nat)
    requires |s| > 0 && i < j < |Unique(s)|
    ensures Quantiles(s)[i] < Quantiles(s)[j]
  {
    var v := Unique(s);
    assert v[j] in s;
    CountAtMostGrows(s, v[i], v[j]);
    DivideStrict(CountAtMost(s, v[i]) as real, CountAtMost(s, v[j]) as real, |s| as real);
  }

  lemma DivideStrict(x: real, y: real, n: real)
    requires x < y && n > 0.0
    ensures x / n < y / n
  {
    assert x / n * n == x && y / n * n == y;
  }

  /** `np.interp(x, xp, fp)` for a strictly increasing abscissa: the
      piecewise-linear interpolant through (xp[k], fp[k]), clamped to fp[0]
      left of xp[0] and to the last fp right of the last xp. */
  function Interp(x: real, xp: seq<real>, fp: seq<real>): real
    requires |xp| == |fp| > 0
    requires StrictlyIncreasing(xp)
    decreases |xp|
  {
    if |xp| == 1 || x <= xp[0] then fp[0]
    else if x < xp[1] then Lerp(xp[0], xp[1], fp[0], fp[1], x)
    else Interp(x, xp[1..], fp[1..])
  }

  /** The line through (a, fa) and (b, fb) at x, written as numpy's interp
      computes it: slope times offset plus the left value. */
  function Lerp(a: real, b: real, fa: real, fb: real, x: real): real
    requires a < b
  {
    (fb - fa) / (b - a) * (x - a) + fa
  }

  /** On one segment the interpolant lies between the end values and grows
      with x. */
  lemma Segment(a: real, b: real, fa: real, fb: real, x: real, y: real)
    requires a < b && fa <= fb && a <= x <= y <= b
    ensures fa <= Lerp(a, b, fa, fb, x) <= Lerp(a, b, fa, fb, y) <= fb
  {
    var slope := (fb - fa) / (b - a);
    assert slope >= 0.0;
    assert slope * (b - a) == fb - fa;
    MulNonNeg(slope, x - a);
    MulNonNeg(slope, y - x);
    MulNonNeg(slope, b - y);
    assert slope * (y - a) == slope * (x - a) + slope * (y - x);
    assert slope * (b - a) == slope * (y - a) + slope * (b - y);
    assert Lerp(a, b, fa, fb, x) == slope * (x - a) + fa;
    assert Lerp(a, b, fa, fb, y) == slope * (y - a) + fa;
  }

  lemma MulNonNeg(u: real, v: real)
    requires u >= 0.0 && v >= 0.0
    ensures u * v >= 0.0
  {
  }

  /** The interpolant of a non-decreasing ordinate stays within its end values. */
  lemma {:induction false} InterpBounds(x: real, xp: seq<real>, fp: seq<real>)
    requires |xp| == |fp| > 0 && StrictlyIncreasing(xp) && NonDecreasing(fp)
    ensures fp[0] <= Interp(x, xp, fp) <= fp[|fp| - 1]
    decreases |xp|
  {
    if |xp| == 1 || x <= xp[0] {
    } else if x < xp[1] {
      Segment(xp[0], xp[1], fp[0], fp[1], x, x);
    } else {
      InterpBounds(x, xp[1..], fp[1..]);
    }
  }

  /** Right of the second knot the interpolant is that of the tail. */
  lemma InterpTail(x: real, xp: seq<real>, fp: seq<real>)
    requires |xp| == |fp| > 1 && StrictlyIncreasing(xp) && xp[1] <= x
    ensures Interp(x, xp, fp) == Interp(x, xp[1..], fp[1..])
  {
    assert xp[0] < xp[1];
  }

  /** Strictly inside the first segment the interpolant is linear. */
  lemma InterpFirst(x: real, xp: seq<real>, fp: seq<real>)
    requires |xp| == |fp| > 1 && StrictlyIncreasing(xp) && xp[0] < x < xp[1]
    ensures Interp(x, xp, fp) == Lerp(xp[0], xp[1], fp[0], fp[1], x)
  {
  }

  /** The interpolant of a non-decreasing ordinate is non-decreasing. */
  lemma {:induction false} InterpMonotone(x: real, y: real, xp: seq<real>, fp: seq<real>)
    requires |xp| == |fp| > 0 && StrictlyIncreasing(xp) && NonDecreasing(fp)
    requires x <= y
    ensures Interp(x, xp, fp) <= Interp(y, xp, fp)
    decreases |xp|
  {
    if |xp| == 1 {
    } else if x <= xp[0] {
      InterpBounds(y, xp, fp);
    } else if x < xp[1] {
      InterpFirst(x, xp, fp);
      assert fp[0] <= fp[1];
      if y < xp[1] {
        InterpFirst(y, xp, fp);
        Segment(xp[0], xp[1], fp[0], fp[1], x, y);
      } else {
        InterpTail(y, xp, fp);
        Segment(xp[0], xp[1], fp[0], fp[1], x, xp[1]);
        InterpBounds(y, xp[1..], fp[1..]);
        assert fp[1..][0] == fp[1];
        assert Interp(x, xp, fp) <= fp[1];
      }
    } else {
      InterpTail(x, xp, fp);
      InterpTail(y, xp, fp);
      InterpMonotone(x, y, xp[1..], fp[1..]);
    }
  }

  /** The interpolant passes through every knot. */
  lemma {:induction false} InterpAtKnot(xp: seq<real>, fp: seq<real>, k: nat)
    requires |xp| == |fp| > 0 && StrictlyIncreasing(xp) && k < |xp|
    ensures Interp(xp[k], xp, fp) == fp[k]
    decreases |xp|
  {
    if k > 0 {
      assert xp[0] < xp[k];
      if k == 1 {
        if |xp| > 2 { assert xp[1] < xp[2]; }
      } else {
        assert xp[1] < xp[k];
      }
      InterpAtKnot(xp[1..], fp[1..], k - 1);
    }
  }
}
