/** Row-major n-dimensional arrays: a shape and the flat list of elements
    (what numpy's `ravel` gives). */
module NdArrays {

  /** Number of elements of an array of the given shape. */
  function Product(shape: seq<nat>): nat
  {
    if shape == [] then 1 else shape[0] * Product(shape[1..])
  }

  datatype NdArray<T> = NdArray(shape: seq<nat>, data: seq<T>)

  /** Only arrays whose element count agrees with their shape exist. */
  type Array<T> = a: NdArray<T> | |a.data| == Product(a.shape) witness NdArray([0], [])

  // Row-major index arithmetic.

  /** The flat position of column e of row q in rows of length n. */
  function At(q: nat, e: nat, n: nat): nat
  {
    q * n + e
  }

  /** The row of flat position p in rows of length n. */
  function Row(p: nat, n: nat): nat
    requires n > 0
  {
    p / n
  }

  /** The column of flat position p in rows of length n. */
  function Col(p: nat, n: nat): (r: nat)
    ensures n > 0 ==> r < n
  {
    if n == 0 then 0 else p % n
  }

  lemma MulMonotone(x: nat, y: nat, z: nat)
    ensures x <= y ==> x * z <= y * z
  {
  }

  lemma MulAtLeast(d: int, n: nat)
    ensures d >= 1 ==> d * n >= n
    ensures d <= -1 ==> d * n <= -(n as int)
  {
    if d >= 1 {
      MulMonotone(1, d, n);
    } else if d <= -1 {
      var m: nat := -d;
      MulMonotone(1, m, n);
      assert m * n + d * n == (m + d) * n;
    }
  }

  /** Splitting the row-major index q * n + e of a row of length n gives
      back the row q and the column e. */
  lemma DivMod(q: nat, e: nat, n: nat)
    requires e < n
    ensures At(q, e, n) / n == q && At(q, e, n) % n == e
  {
    var x := q * n + e;
    var r, s := x / n, x % n;
    assert x == r * n + s;
    MulAtLeast(r - q, n);
    assert (r - q) * n == r * n - q * n;
  }

  /** The row-major index of an element of an m-by-n block lies in the
      block. */
  lemma IndexBound(q: nat, e: nat, m: nat, n: nat)
    requires q < m && e < n
    ensures At(q, e, n) < m * n
  {
    MulMonotone(q + 1, m, n);
  }

  /** The row of an index into an m-by-n block is below m. */
  lemma DivBound(p: nat, m: nat, n: nat)
    requires p < m * n
    ensures n > 0 && p / n < m
  {
    MulMonotone(m, 0, n);
    MulMonotone(m, p / n, n);
  }

  lemma MulAssoc(x: int, y: int, z: int)
    ensures x * (y * z) == (x * y) * z
  {
  }

  lemma ProductCons(shape: seq<nat>)
    requires |shape| > 0
    ensures Product(shape) == shape[0] * Product(shape[1..])
  {
  }
}
