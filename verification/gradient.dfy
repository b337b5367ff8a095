/**
 * The gradient test image: voxel (i, j, k) holds `i + 100*j + 10000*k`, so
 * that a voxel can be told from its value after the image is reoriented.
 */
module Gradient {
  import opened Wrappers
  import opened Volume

  /** Largest value an `np.int32` cell can hold. */
  const Int32Max: int := 0x7fff_ffff

  /** The value the fill loop writes at voxel `x`. */
  function GradientValue(x: Index): int {
    x.i + 100 * x.j + 10000 * x.k
  }

  /** Value of the last voxel of a non-empty shape, the largest one written. */
  function MaxGradient(s: Shape): int {
    GradientValue(Index(s.n0 - 1, s.n1 - 1, s.n2 - 1))
  }

  /** Every cell of a well-formed image holds its gradient value. */
  ghost predicate IsGradient(img: Image) {
    && WellFormed(img)
    && forall x :: InBounds(x, img.shape) ==> Cell(img, x) == GradientValue(x)
  }

  /** Why creating the gradient image can fail. */
  datatype FillError =
    | AllocFailed(reason: AllocError) // `np.zeros` refuses the shape
    | Int32Overflow(at: Index)        // the value for voxel `at` does not fit in `np.int32`

  /** The default `size` argument of `create_gradient_ants_image`. */
  const DefaultSize: Shape := Shape(10, 20, 30)

  /**
   * `create_gradient_ants_image`'s fill: `np.zeros(size, dtype=np.int32)`
   * followed by the triple loop that stores `i + 100*j + 10000*k` into each
   * cell, raising at the first cell whose value does not fit in 32 bits.
   */
  method CreateGradient(size: Shape := DefaultSize) returns (r: Result<Image, FillError>)
    ensures r.Failure? <==>
      || !ValidShape(size)
      || ByteSize(size) > IntpMax
      || (!EmptyShape(size) && MaxGradient(size) > Int32Max)
    ensures Zeros(size).Failure? ==> r == Failure(AllocFailed(Zeros(size).error))
    ensures Zeros(size).Success? && r.Failure? ==> r.error.Int32Overflow?
    ensures r.Success? ==> r.value.shape == size && IsGradient(r.value)
    ensures r.Failure? && r.error.Int32Overflow? ==>
      && InBounds(r.error.at, size)
      && GradientValue(r.error.at) > Int32Max
      && forall y :: InBounds(y, size) && RowMajorBefore(y, r.error.at) ==> GradientValue(y) <= Int32Max
  {
    var zeros := Zeros(size);
    if zeros.Failure? {
      return Failure(AllocFailed(zeros.error));
    }
    r := FillGradient(zeros.value);
  }

  /**
   * The triple loop of the fill, run over a zero-filled image: it stores each
   * voxel's gradient value in row-major order and fails at the first voxel
   * whose value does not fit in an `np.int32` cell.
   */
  method FillGradient(zeros: Image) returns (r: Result<Image, FillError>)
    requires WellFormed(zeros)
    requires forall x :: InBounds(x, zeros.shape) ==> Cell(zeros, x) == 0
    ensures r.Failure? <==> !EmptyShape(zeros.shape) && MaxGradient(zeros.shape) > Int32Max
    ensures r.Success? ==> r.value.shape == zeros.shape && IsGradient(r.value)
    ensures r.Failure? ==>
      && r.error.Int32Overflow?
      && InBounds(r.error.at, zeros.shape)
      && GradientValue(r.error.at) > Int32Max
      && forall y :: InBounds(y, zeros.shape) && RowMajorBefore(y, r.error.at) ==> GradientValue(y) <= Int32Max
  {
    var s := zeros.shape;
    var img := zeros;
    var i := 0;
    while i < s.n0
      invariant 0 <= i <= s.n0
      invariant WellFormed(img) && img.shape == s
      invariant forall x :: InBounds(x, s) ==>
        Cell(img, x) == if RowMajorBefore(x, Index(i, 0, 0)) then GradientValue(x) else 0
      invariant forall x :: InBounds(x, s) && RowMajorBefore(x, Index(i, 0, 0)) ==> GradientValue(x) <= Int32Max
    {
      var j := 0;
      while j < s.n1
        invariant 0 <= j <= s.n1
        invariant WellFormed(img) && img.shape == s
        invariant forall x :: InBounds(x, s) ==>
          Cell(img, x) == if RowMajorBefore(x, Index(i, j, 0)) then GradientValue(x) else 0
        invariant forall x :: InBounds(x, s) && RowMajorBefore(x, Index(i, j, 0)) ==> GradientValue(x) <= Int32Max
      {
        var k := 0;
        while k < s.n2
          invariant 0 <= k <= s.n2
          invariant WellFormed(img) && img.shape == s
          invariant forall x :: InBounds(x, s) ==>
            Cell(img, x) == if RowMajorBefore(x, Index(i, j, k)) then GradientValue(x) else 0
          invariant forall x :: InBounds(x, s) && RowMajorBefore(x, Index(i, j, k)) ==> GradientValue(x) <= Int32Max
        {
          var value := i + 100 * j + 10000 * k;
          if value > Int32Max {
            GradientBounds(s, Index(i, j, k));
            return Failure(Int32Overflow(Index(i, j, k)));
          }
          img := Store(img, Index(i, j, k), value);
          k := k + 1;
        }
        j := j + 1;
      }
      i := i + 1;
    }
    if !EmptyShape(s) {
      assert InBounds(Index(s.n0 - 1, s.n1 - 1, s.n2 - 1), s);
    }
    return Success(img);
  }

  /** Every voxel's value lies between 0 and the value of the last voxel. */
  lemma GradientBounds(s: Shape, x: Index)
    requires InBounds(x, s)
    ensures 0 <= GradientValue(x) <= MaxGradient(s)
  {
  }

  /** Recovers the voxel from its value: `(v mod 100, (v div 100) mod 100, v div 10000)`. */
  function DecodeGradient(v: int): Index {
    Index(v % 100, (v / 100) % 100, v / 10000)
  }

  // DivMod100 and DivMod10000 are kept apart on purpose: with a literal divisor the
  // solver's arithmetic stays linear, while one lemma over a variable divisor does not
  // verify within the resource limit.

  /** Quotient and remainder by 100 are fixed by any split with remainder in [0, 100). */
  lemma DivMod100(a: int, q: int, r: int)
    requires 0 <= r < 100 && a == 100 * q + r
    ensures a / 100 == q && a % 100 == r
  {
  }

  /** Quotient and remainder by 10000 are fixed by any split with remainder in [0, 10000). */
  lemma DivMod10000(a: int, q: int, r: int)
    requires 0 <= r < 10000 && a == 10000 * q + r
    ensures a / 10000 == q && a % 10000 == r
  {
  }

  /** Decoding inverts the encoding whenever the first two coordinates are below 100. */
  lemma DecodeEncode(x: Index)
    requires 0 <= x.i < 100 && 0 <= x.j < 100 && 0 <= x.k
    ensures DecodeGradient(GradientValue(x)) == x
  {
    var v := GradientValue(x);
    DivMod100(v, x.j + 100 * x.k, x.i);
    DivMod100(x.j + 100 * x.k, x.k, x.j);
    DivMod10000(v, x.k, 100 * x.j + x.i);
  }

  /** Every non-negative value is the encoding of exactly the voxel it decodes to. */
  lemma EncodeDecode(v: int)
    requires 0 <= v
    ensures var x := DecodeGradient(v);
      0 <= x.i < 100 && 0 <= x.j < 100 && 0 <= x.k && GradientValue(x) == v
  {
    var q := v / 100;
    assert v == 100 * q + v % 100;
    assert q == 100 * (q / 100) + q % 100;
    DivMod10000(v, q / 100, 100 * (q % 100) + v % 100);
  }

  /** With `size[0] <= 100` and `size[1] <= 100`, distinct voxels hold distinct values. */
  lemma GradientInjective(s: Shape, x: Index, y: Index)
    requires s.n0 <= 100 && s.n1 <= 100
    requires InBounds(x, s) && InBounds(y, s)
    requires GradientValue(x) == GradientValue(y)
    ensures x == y
  {
    DecodeEncode(x);
    DecodeEncode(y);
  }

  /**
   * Beyond 100 along the first axis, or along the second when the third has
   * two layers, the encoding collides: two distinct voxels share a value.
   */
  lemma GradientCollides(s: Shape)
    requires (s.n0 > 100 && s.n1 >= 2 && s.n2 >= 1) || (s.n0 >= 1 && s.n1 > 100 && s.n2 >= 2)
    ensures exists x, y :: InBounds(x, s) && InBounds(y, s) && x != y && GradientValue(x) == GradientValue(y)
  {
    if s.n0 > 100 && s.n1 >= 2 {
      var x, y := Index(100, 0, 0), Index(0, 1, 0);
      assert InBounds(x, s) && InBounds(y, s) && x != y && GradientValue(x) == GradientValue(y);
    } else {
      var x, y := Index(0, 100, 0), Index(0, 0, 1);
      assert InBounds(x, s) && InBounds(y, s) && x != y && GradientValue(x) == GradientValue(y);
    }
  }

  /**
   * The default size `(10, 20, 30)` is accepted by `np.zeros`, fills without
   * overflow and lies within both bounds under which every voxel is identified.
   */
  lemma DefaultSizeIdentifiable()
    ensures ValidShape(DefaultSize) && ByteSize(DefaultSize) <= IntpMax
    ensures !EmptyShape(DefaultSize) && MaxGradient(DefaultSize) <= Int32Max
    ensures DefaultSize.n0 <= 100 && DefaultSize.n1 <= 100
  {
  }
}
