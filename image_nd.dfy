/** The multi-band image models of app/models/image_nd.py: the dimension
    check of the constructor, the validation of the loaded array, the
    `np.dstack` that `image()` returns, the NaN percentage and the
    per-sensor red, green and blue channels. The array stored in the data
    file under the sensor key is an argument (`None` when the key is
    missing). */
module ImagesND {
  import opened Common
  import opened NdArrays
  import Images2D

  /** `ImageND` itself and its three subclasses. */
  datatype NdKind = PlainND | Iband | Mband | Fc

  /** The `SENSOR` class constant. */
  function Sensor(k: NdKind): (r: Option<string>)
    ensures r.None? <==> k == PlainND
  {
    match k
    case PlainND => None
    case Iband => Some("ibands")
    case Mband => Some("mbands")
    case Fc => Some("fc")
  }

  /** The fields `__init__` sets; `title` is `filename[2:15]`. */
  datatype ImageND = ImageND(kind: NdKind, filename: string, dimensions: int)
  {
    function Title(): (r: string)
      ensures |filename| >= 15 ==> r == filename[2..15]
      ensures |r| <= 13
    {
      Images2D.Title(filename)
    }
  }

  /** The constructor exits below three dimensions; `image()` exits (in
      fact raises, see `Image`) on an invalid array; `np.dstack` of no
      arrays, `[:, :, k]` past the last index, and the percentage of an
      empty image raise. */
  datatype NdError = TooFewDimensions | InvalidImage | EmptyStack | AxisOutOfRange | ZeroSize

  /** `ImageND(filename, dimensions)`. */
  function NewImageND(kind: NdKind, filename: string, dimensions: int): (r: Result<ImageND, NdError>)
    ensures r.Failure? <==> dimensions < 3
    ensures r.Success? ==> r.value == ImageND(kind, filename, dimensions)
  {
    if dimensions < 3 then Failure(TooFewDimensions) else Success(ImageND(kind, filename, dimensions))
  }

  /** `__validate(image)`: an array was found and it has at least
      `dimensions` axes. */
  predicate Valid(img: ImageND, raw: Option<Array<Images2D.Sample>>)
  {
    raw.Some? && |raw.value.shape| >= img.dimensions
  }

  // ---------------------------------------------------------------------
  // np.dstack

  /** The shape `np.dstack` gives to the list of the first-axis slices of an
      array of shape (a, b, c, ...): (b, c, a) for three axes, and
      (b, c, a * d, ...) for (a, b, c, d, ...). */
  function StackShape(shape: seq<nat>): seq<nat>
    requires |shape| >= 3
  {
    if |shape| == 3 then [shape[1], shape[2], shape[0]]
    else [shape[1], shape[2], shape[0] * shape[3]] + shape[4..]
  }

  /** Number of elements behind the first three axes. */
  function Block(shape: seq<nat>): nat
    requires |shape| >= 3
  {
    Product(shape[3..])
  }

  lemma ProductThree(shape: seq<nat>)
    requires |shape| >= 3
    ensures Product(shape) == ((shape[0] * shape[1]) * shape[2]) * Block(shape)
  {
    var a, b, c, e := shape[0], shape[1], shape[2], Block(shape);
    ProductCons(shape);
    ProductCons(shape[1..]);
    ProductCons(shape[2..]);
    assert shape[1..][1..] == shape[2..] && shape[2..][1..] == shape[3..];
    assert Product(shape) == a * (b * (c * e));
    MulAssoc(b, c, e);
    MulAssoc(a, b * c, e);
    MulAssoc(a, b, c);
  }

  lemma ProductStackShape(shape: seq<nat>)
    requires |shape| >= 3
    ensures Product(StackShape(shape)) == ((shape[1] * shape[2]) * shape[0]) * Block(shape)
  {
    var a, b, c := shape[0], shape[1], shape[2];
    var out := StackShape(shape);
    ProductCons(out);
    ProductCons(out[1..]);
    ProductCons(out[2..]);
    assert out[1..][1..] == out[2..];
    if |shape| == 3 {
      assert out[2..][1..] == [] && shape[3..] == [];
      assert Product(out) == b * (c * a);
      MulAssoc(b, c, a);
    } else {
      var d := shape[3];
      var rest := shape[4..];
      var e := Product(rest);
      assert out[2..][1..] == rest;
      ProductCons(shape[3..]);
      assert shape[3..][1..] == rest;
      assert Block(shape) == d * e;
      assert Product(out) == b * (c * ((a * d) * e));
      MulAssoc(a, d, e);
      MulAssoc(c, a, d * e);
      MulAssoc(b, c * a, d * e);
      MulAssoc(b, c, a);
    }
  }

  /** The input position element p of the stacked array is read from: p is
      the position of (i, j, k, l) in shape (b, c, a, e), and the element is
      at (k, i, j, l) in shape (a, b, c, e). */
  function Source(p: nat, a: nat, b: nat, c: nat, e: nat): nat
    requires a > 0 && c > 0 && e > 0
  {
    var q := Row(p, e);
    var ij := Row(q, a);
    At(At(At(Col(q, a), Row(ij, c), b), Col(ij, c), c), Col(p, e), e)
  }

  lemma SourceBound(p: nat, a: nat, b: nat, c: nat, e: nat)
    requires p < ((b * c) * a) * e
    ensures a > 0 && c > 0 && e > 0
    ensures Source(p, a, b, c, e) < ((a * b) * c) * e
  {
    DivBound(p, (b * c) * a, e);
    var q := p / e;
    DivBound(q, b * c, a);
    var ij := q / a;
    DivBound(ij, b, c);
    var i, j, k, l := ij / c, ij % c, q % a, p % e;
    IndexBound(k, i, a, b);
    IndexBound(At(k, i, b), j, a * b, c);
    IndexBound(At(At(k, i, b), j, c), l, (a * b) * c, e);
  }

  /** Output position (i, j, k, l) reads input position (k, i, j, l). */
  lemma SourceAt(i: nat, j: nat, k: nat, l: nat, a: nat, b: nat, c: nat, e: nat)
    requires i < b && j < c && k < a && l < e
    ensures At(At(At(i, j, c), k, a), l, e) < ((b * c) * a) * e
    ensures Source(At(At(At(i, j, c), k, a), l, e), a, b, c, e) == At(At(At(k, i, b), j, c), l, e)
  {
    IndexBound(i, j, b, c);
    IndexBound(At(i, j, c), k, b * c, a);
    IndexBound(At(At(i, j, c), k, a), l, (b * c) * a, e);
    DivMod(At(At(i, j, c), k, a), l, e);
    DivMod(At(i, j, c), k, a);
    DivMod(i, j, c);
  }

  /** Every input position is some (k, i, j, l). */
  lemma SourceOnto(t: nat, a: nat, b: nat, c: nat, e: nat) returns (i: nat, j: nat, k: nat, l: nat)
    requires t < ((a * b) * c) * e
    ensures i < b && j < c && k < a && l < e
    ensures t == At(At(At(k, i, b), j, c), l, e)
  {
    DivBound(t, (a * b) * c, e);
    var q := t / e;
    l := t % e;
    DivBound(q, a * b, c);
    var q2 := q / c;
    j := q % c;
    DivBound(q2, a, b);
    k, i := q2 / b, q2 % b;
    assert q2 == At(k, i, b) && q == At(q2, j, c) && t == At(q, l, e);
  }

  /** The flat elements of the stack of the a slices of shape (b, c, e). */
  function Stacked<T>(data: seq<T>, a: nat, b: nat, c: nat, e: nat): (r: seq<T>)
    requires |data| == ((a * b) * c) * e
    ensures |r| == ((b * c) * a) * e
  {
    var n := ((b * c) * a) * e;
    seq(n, p requires 0 <= p < n => SourceBound(p, a, b, c, e); data[Source(p, a, b, c, e)])
  }

  lemma StackedAt<T>(data: seq<T>, a: nat, b: nat, c: nat, e: nat, i: nat, j: nat, k: nat, l: nat)
    requires |data| == ((a * b) * c) * e
    requires i < b && j < c && k < a && l < e
    ensures var p := At(At(At(i, j, c), k, a), l, e);
      var t := At(At(At(k, i, b), j, c), l, e);
      p < |Stacked(data, a, b, c, e)| && t < |data| && Stacked(data, a, b, c, e)[p] == data[t]
  {
    SourceAt(i, j, k, l, a, b, c, e);
    SourceBound(At(At(At(i, j, c), k, a), l, e), a, b, c, e);
  }

  lemma StackedElements<T>(data: seq<T>, a: nat, b: nat, c: nat, e: nat)
    requires |data| == ((a * b) * c) * e
    ensures forall v :: v in Stacked(data, a, b, c, e) <==> v in data
  {
    var r := Stacked(data, a, b, c, e);
    forall t | 0 <= t < |data| ensures data[t] in r {
      var i, j, k, l := SourceOnto(t, a, b, c, e);
      StackedAt(data, a, b, c, e, i, j, k, l);
      assert r[At(At(At(i, j, c), k, a), l, e)] == data[t];
    }
    forall p | 0 <= p < |r| ensures r[p] in data {
      SourceBound(p, a, b, c, e);
      assert r[p] == data[Source(p, a, b, c, e)];
    }
  }

  /** `np.dstack(image)`: the slices `image[0]`, ..., `image[a-1]` stacked
      along the third axis. */
  function DStack<T>(x: Array<T>): (r: Result<Array<T>, NdError>)
    requires |x.shape| >= 3
    ensures r.Failure? <==> x.shape[0] == 0
    ensures r.Success? ==> r.value.shape == StackShape(x.shape)
    ensures r.Success? ==>
      |x.data| == ((x.shape[0] * x.shape[1]) * x.shape[2]) * Block(x.shape) &&
      r.value.data == Stacked(x.data, x.shape[0], x.shape[1], x.shape[2], Block(x.shape))
  {
    var a, b, c, e := x.shape[0], x.shape[1], x.shape[2], Block(x.shape);
    if a == 0 then Failure(EmptyStack)
    else
      ProductThree(x.shape);
      ProductStackShape(x.shape);
      Success(NdArray(StackShape(x.shape), Stacked(x.data, a, b, c, e)))
  }

  /** Element (i, j, k, l) of the stacked array is element (k, i, j, l) of
      the input. */
  lemma DStackAt<T>(x: Array<T>, i: nat, j: nat, k: nat, l: nat)
    requires |x.shape| >= 3 && x.shape[0] > 0
    requires i < x.shape[1] && j < x.shape[2] && k < x.shape[0] && l < Block(x.shape)
    ensures var a, b, c, e := x.shape[0], x.shape[1], x.shape[2], Block(x.shape);
      var p := At(At(At(i, j, c), k, a), l, e);
      var t := At(At(At(k, i, b), j, c), l, e);
      p < |DStack(x).value.data| && t < |x.data| && DStack(x).value.data[p] == x.data[t]
  {
    ProductThree(x.shape);
    StackedAt(x.data, x.shape[0], x.shape[1], x.shape[2], Block(x.shape), i, j, k, l);
  }

  /** For a three-axis input of shape (a, b, c) the result has shape
      (b, c, a) and `out[i][j][k] == in[k][i][j]`. */
  lemma DStack3D<T>(x: Array<T>, i: nat, j: nat, k: nat)
    requires |x.shape| == 3 && x.shape[0] > 0
    requires i < x.shape[1] && j < x.shape[2] && k < x.shape[0]
    ensures var a, b, c := x.shape[0], x.shape[1], x.shape[2];
      var p := At(At(i, j, c), k, a);
      var t := At(At(k, i, b), j, c);
      DStack(x).value.shape == [b, c, a] &&
      p < |DStack(x).value.data| && t < |x.data| && DStack(x).value.data[p] == x.data[t]
  {
    assert x.shape[3..] == [];
    DStackAt(x, i, j, k, 0);
  }

  /** Stacking rearranges the elements: every element of the input is in
      the output and the other way round. */
  lemma DStackElements<T>(x: Array<T>)
    requires |x.shape| >= 3 && x.shape[0] > 0
    ensures forall v :: v in DStack(x).value.data <==> v in x.data
  {
    ProductThree(x.shape);
    StackedElements(x.data, x.shape[0], x.shape[1], x.shape[2], Block(x.shape));
  }

  // ---------------------------------------------------------------------
  // image() and nan_percentage()

  /** `image()`: the stacked array once it is valid. When it is not, the
      source's error message reads `self.sensor`, an attribute no class
      defines, so the call raises AttributeError instead of exiting; both
      end the program, which is `InvalidImage` here. */
  function Image(img: ImageND, raw: Option<Array<Images2D.Sample>>): (r: Result<Array<Images2D.Sample>, NdError>)
    requires img.dimensions >= 3
    ensures !Valid(img, raw) ==> r == Failure(InvalidImage)
    ensures Valid(img, raw) ==> r == DStack(raw.value)
  {
    if !Valid(img, raw) then Failure(InvalidImage) else DStack(raw.value)
  }

  /** `nan_percentage()` of the stacked image, with the integer division of
      the two-dimensional models. */
  function NanPercentage(img: ImageND, raw: Option<Array<Images2D.Sample>>): (r: Result<int, NdError>)
    requires img.dimensions >= 3
    ensures !Valid(img, raw) ==> r == Failure(InvalidImage)
    ensures r.Success? ==> r.value == 0 || r.value == 100
  {
    match Image(img, raw)
    case Failure(e) => Failure(e)
    case Success(y) =>
      match Images2D.NanPercentage(y)
      case Failure(_) => Failure(ZeroSize)
      case Success(v) => Success(v)
  }

  /** The percentage is 100 when the stored array holds no NaN and 0 when it
      holds one; it fails exactly when `image()` fails or is empty. */
  lemma NanPercentageValues(img: ImageND, raw: Option<Array<Images2D.Sample>>)
    requires img.dimensions >= 3
    ensures NanPercentage(img, raw).Failure? <==>
      !Valid(img, raw) || raw.value.shape[0] == 0 || |raw.value.data| == 0
    ensures NanPercentage(img, raw).Success? ==>
      (NanPercentage(img, raw).value == 100 <==> Images2D.NaN !in raw.value.data) &&
      (NanPercentage(img, raw).value == 0 <==> Images2D.NaN in raw.value.data)
  {
    if Valid(img, raw) && raw.value.shape[0] > 0 {
      var x := raw.value;
      DStackElements(x);
      ProductThree(x.shape);
      ProductStackShape(x.shape);
      var y := DStack(x).value;
      assert |y.data| == |x.data|;
      assert Images2D.NaN in y.data <==> Images2D.NaN in x.data;
    }
  }

  // ---------------------------------------------------------------------
  // channel() and rgb()

  /** `y[:, :, k]`: the k-th plane along the third axis. */
  function Plane<T>(y: Array<T>, k: nat): (r: Result<Array<T>, NdError>)
    requires |y.shape| >= 3
    ensures r.Failure? <==> k >= y.shape[2]
    ensures r.Success? ==> r.value.shape == [y.shape[0], y.shape[1]] + y.shape[3..]
  {
    var b, c, n, e := y.shape[0], y.shape[1], y.shape[2], Block(y.shape);
    if k >= n then Failure(AxisOutOfRange)
    else
      ProductThree(y.shape);
      ProductPlaneShape(y.shape);
      Success(NdArray([b, c] + y.shape[3..], PlaneData(y.data, b, c, n, e, k)))
  }

  /** The flat elements of plane k of data of shape (b, c, n, e). */
  function PlaneData<T>(data: seq<T>, b: nat, c: nat, n: nat, e: nat, k: nat): (r: seq<T>)
    requires |data| == ((b * c) * n) * e && k < n
    ensures |r| == (b * c) * e
  {
    var m := (b * c) * e;
    seq(m, p requires 0 <= p < m => PlaneBound(p, b, c, n, e, k); data[PlaneSource(p, n, e, k)])
  }

  /** Element (ij, l) of plane k, in rows of e elements, is element
      (ij, k, l) of the data of shape (b * c, n, e). */
  lemma PlaneDataAt<T>(data: seq<T>, b: nat, c: nat, n: nat, e: nat, k: nat, ij: nat, l: nat)
    requires |data| == ((b * c) * n) * e && k < n
    requires ij < b * c && l < e
    ensures At(ij, l, e) < |PlaneData(data, b, c, n, e, k)|
    ensures At(At(ij, k, n), l, e) < |data|
    ensures PlaneData(data, b, c, n, e, k)[At(ij, l, e)] == data[At(At(ij, k, n), l, e)]
  {
    IndexBound(ij, l, b * c, e);
    IndexBound(ij, k, b * c, n);
    IndexBound(At(ij, k, n), l, (b * c) * n, e);
    DivMod(ij, l, e);
    assert PlaneSource(At(ij, l, e), n, e, k) == At(At(ij, k, n), l, e);
  }

  lemma ProductPlaneShape(shape: seq<nat>)
    requires |shape| >= 3
    ensures Product([shape[0], shape[1]] + shape[3..]) == (shape[0] * shape[1]) * Block(shape)
    ensures |shape| == 3 ==> Block(shape) == 1
  {
    var s := [shape[0], shape[1]] + shape[3..];
    ProductCons(s);
    ProductCons(s[1..]);
    assert s[1..][1..] == shape[3..];
    MulAssoc(shape[0], shape[1], Block(shape));
  }

  /** Element p of plane k: p is the position of (ij, l) in rows of e
      elements and the element is at (ij, k, l) in shape (b * c, n, e). */
  function PlaneSource(p: nat, n: nat, e: nat, k: nat): nat
    requires e > 0
  {
    At(At(Row(p, e), k, n), Col(p, e), e)
  }

  lemma PlaneBound(p: nat, b: nat, c: nat, n: nat, e: nat, k: nat)
    requires p < (b * c) * e && k < n
    ensures e > 0 && PlaneSource(p, n, e, k) < ((b * c) * n) * e
  {
    DivBound(p, b * c, e);
    var ij, l := p / e, p % e;
    IndexBound(ij, k, b * c, n);
    IndexBound(At(ij, k, n), l, (b * c) * n, e);
  }

  /** `plane` is `x[k]` for a three-axis `x` of shape (a, b, c): shape
      (b, c), and element p is element p of the k-th block of b * c
      elements. */
  ghost predicate IsSlice<T>(plane: Array<T>, x: Array<T>, k: nat)
    requires |x.shape| == 3
  {
    var b, c := x.shape[1], x.shape[2];
    plane.shape == [b, c] && |plane.data| == b * c &&
    forall p :: 0 <= p < b * c ==> At(k, p, b * c) < |x.data| && plane.data[p] == x.data[At(k, p, b * c)]
  }

  /** Plane k of a stacked three-axis array is the k-th slice of the input
      (`np.dstack(x)[:, :, k] == x[k]`). */
  lemma PlaneOfDStack<T>(x: Array<T>, k: nat)
    requires |x.shape| == 3 && k < x.shape[0]
    ensures DStack(x).Success? && Plane(DStack(x).value, k).Success?
    ensures IsSlice(Plane(DStack(x).value, k).value, x, k)
  {
    var a, b, c := x.shape[0], x.shape[1], x.shape[2];
    assert x.shape[3..] == [];
    var y := DStack(x).value;
    assert y.shape[3..] == [];
    var plane := Plane(y, k).value;
    ProductThree(x.shape);
    forall p | 0 <= p < b * c
      ensures At(k, p, b * c) < |x.data| && plane.data[p] == x.data[At(k, p, b * c)]
    {
      PlaneIndex(p, k, a, b, c);
      PlaneBound(p, b, c, a, 1, k);
      SourceBound(PlaneSource(p, a, 1, k), a, b, c, 1);
    }
  }

  /** The arithmetic behind `PlaneOfDStack`: element p of plane k of the
      stacked array comes from offset p of slice k. */
  lemma PlaneIndex(p: nat, k: nat, a: nat, b: nat, c: nat)
    requires p < b * c && k < a
    ensures Source(PlaneSource(p, a, 1, k), a, b, c, 1) == At(k, p, b * c)
    ensures At(k, p, b * c) < ((a * b) * c) * 1
  {
    assert PlaneSource(p, a, 1, k) == At(p, k, a);
    DivMod(p, k, a);
    DivBound(p, b, c);
    var i, j := p / c, p % c;
    assert p == At(i, j, c);
    assert Source(At(p, k, a), a, b, c, 1) == At(At(k, i, b), j, c);
    MulAssoc(k, b, c);
    IndexBound(k, p, a, b * c);
    MulAssoc(a, b, c);
  }

  /** The axis-2 index each class reads for a colour name; `PlainND`
      (the base class) has none. Mband and Fc names are stripped and
      lower-cased first; Iband names must match exactly. */
  function ChannelIndex(kind: NdKind, name: string): (r: Option<nat>)
    ensures kind == PlainND ==> r.None?
    ensures kind == Iband ==>
      r == (if name == "red" then Some(0) else if name == "green" then Some(1)
            else if name == "blue" then Some(2) else None)
    ensures kind == Mband ==> var n := Lower(Strip(name));
      r == (if n == "red" then Some(2) else if n == "green" then Some(1)
            else if n == "blue" then Some(0) else None)
    ensures kind == Fc ==> var n := Lower(Strip(name));
      r == (if n == "red" then Some(0) else if n == "green" then Some(1)
            else if n == "blue" then Some(2) else None)
  {
    match kind
    case PlainND => None
    case Iband => ColourIndex(name, 0, 1, 2)
    case Mband => ColourIndex(Lower(Strip(name)), 2, 1, 0)
    case Fc => ColourIndex(Lower(Strip(name)), 0, 1, 2)
  }

  function ColourIndex(name: string, red: nat, green: nat, blue: nat): Option<nat>
  {
    if name == "red" then Some(red)
    else if name == "green" then Some(green)
    else if name == "blue" then Some(blue)
    else None
  }

  /** Mband reads red and blue from the opposite ends of the axis to Iband
      and Fc; all three read green from index 1. */
  lemma ChannelTables()
    ensures ChannelIndex(Mband, "red") == ChannelIndex(Fc, "blue") == ChannelIndex(Iband, "blue") == Some(2)
    ensures ChannelIndex(Mband, "blue") == ChannelIndex(Fc, "red") == ChannelIndex(Iband, "red") == Some(0)
    ensures ChannelIndex(Mband, "green") == ChannelIndex(Fc, "green") == ChannelIndex(Iband, "green") == Some(1)
  {
    LowerWord("red");
    LowerWord("green");
    LowerWord("blue");
  }

  /** A word of lower-case letters is left alone by `strip().lower()`. */
  lemma LowerWord(s: string)
    requires |s| > 0 && forall i :: 0 <= i < |s| ==> 'a' <= s[i] <= 'z'
    ensures Lower(Strip(s)) == s
  {
    assert !IsSpace(s[0]) && !IsSpace(s[|s| - 1]);
    StripUnpadded(s);
    assert Lower(s) == s;
  }

  /** Mband and Fc ignore white space around the name. */
  lemma ChannelIgnoresPadding(kind: NdKind, name: string)
    requires kind == Mband || kind == Fc
    ensures ChannelIndex(kind, Strip(name)) == ChannelIndex(kind, name)
  {
    StripIdempotent(name);
  }

  /** Mband and Fc ignore capitals; Iband matches names exactly. */
  lemma ChannelCapitals()
    ensures ChannelIndex(Fc, "RED") == Some(0)
    ensures ChannelIndex(Mband, "RED") == Some(2)
    ensures ChannelIndex(Iband, "RED") == None
  {
    assert StripLeft("RED") == "RED";
    assert StripRight("RED") == "RED";
    var l := Lower("RED");
    assert l[0] == 'r' && l[1] == 'e' && l[2] == 'd';
    assert l == "red";
  }

  /** `channel(name)`: an unknown name prints a message and gives `None`
      without loading the image; a known one loads the image and takes its
      plane, which for a stored array of three axes is the slice the name
      selects. */
  function Channel(img: ImageND, raw: Option<Array<Images2D.Sample>>, name: string): (r: Result<Option<Array<Images2D.Sample>>, NdError>)
    requires img.dimensions >= 3
    ensures ChannelIndex(img.kind, name).None? ==> r == Success(None)
    ensures ChannelIndex(img.kind, name).Some? && !Valid(img, raw) ==> r == Failure(InvalidImage)
    ensures ChannelIndex(img.kind, name).Some? && Valid(img, raw) && |raw.value.shape| == 3 ==>
      var k := ChannelIndex(img.kind, name).value;
      (r.Success? <==> k < raw.value.shape[0]) &&
      (r.Success? ==> r.value.Some? && IsSlice(r.value.value, raw.value, k))
  {
    match ChannelIndex(img.kind, name)
    case None => Success(None)
    case Some(k) =>
      match Image(img, raw)
      case Failure(e) => Failure(e)
      case Success(y) =>
        PlaneOfStored(raw.value, k);
        match Plane(y, k)
        case Failure(e) => Failure(e)
        case Success(p) => Success(Some(p))
  }

  /** Plane k of the stack of a three-axis array exists exactly when k
      indexes its first axis, and is then slice k. */
  lemma PlaneOfStored<T>(x: Array<T>, k: nat)
    requires |x.shape| >= 3
    ensures |x.shape| == 3 ==>
      (DStack(x).Success? && Plane(DStack(x).value, k).Success? <==> k < x.shape[0]) &&
      (k < x.shape[0] ==> IsSlice(Plane(DStack(x).value, k).value, x, k))
  {
    if |x.shape| == 3 && k < x.shape[0] {
      PlaneOfDStack(x, k);
    }
  }

  /** `rgb()`: the red, green and blue channels, in that order; the first
      failure ends the call. */
  function Rgb(img: ImageND, raw: Option<Array<Images2D.Sample>>): (r: Result<(Option<Array<Images2D.Sample>>, Option<Array<Images2D.Sample>>, Option<Array<Images2D.Sample>>), NdError>)
    requires img.dimensions >= 3
    ensures r.Success? ==>
      Channel(img, raw, "red") == Success(r.value.0) &&
      Channel(img, raw, "green") == Success(r.value.1) &&
      Channel(img, raw, "blue") == Success(r.value.2)
    ensures r.Failure? <==>
      Channel(img, raw, "red").Failure? || Channel(img, raw, "green").Failure? || Channel(img, raw, "blue").Failure?
    ensures r.Failure? ==>
      r.error == if Channel(img, raw, "red").Failure? then Channel(img, raw, "red").error
                 else if Channel(img, raw, "green").Failure? then Channel(img, raw, "green").error
                 else Channel(img, raw, "blue").error
  {
    match Channel(img, raw, "red")
    case Failure(e) => Failure(e)
    case Success(red) =>
      match Channel(img, raw, "green")
      case Failure(e) => Failure(e)
      case Success(green) =>
        match Channel(img, raw, "blue")
        case Failure(e) => Failure(e)
        case Success(blue) => Success((red, green, blue))
  }

  /** The base class has no channels, so its `rgb()` is three `None`s, and
      nothing is loaded. */
  lemma RgbPlain(img: ImageND, raw: Option<Array<Images2D.Sample>>)
    requires img.dimensions >= 3 && img.kind == PlainND
    ensures Rgb(img, raw) == Success((None, None, None))
  {
  }

  /** For a valid three-axis Iband array of at least three slices, the red,
      green and blue channels are the slices 0, 1 and 2 of the stored
      array. */
  lemma IbandRgb(img: ImageND, raw: Option<Array<Images2D.Sample>>)
    requires img.dimensions == 3 && img.kind == Iband
    requires raw.Some? && |raw.value.shape| == 3 && raw.value.shape[0] >= 3
    ensures Rgb(img, raw).Success?
    ensures var (r, g, b) := Rgb(img, raw).value;
      r.Some? && g.Some? && b.Some? &&
      IsSlice(r.value, raw.value, 0) && IsSlice(g.value, raw.value, 1) && IsSlice(b.value, raw.value, 2)
  {
    var x := raw.value;
    PlaneOfDStack(x, 0);
    PlaneOfDStack(x, 1);
    PlaneOfDStack(x, 2);
  }
}
