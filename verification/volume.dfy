/**
 * The voxel grid shared by the test fixtures and the utilities: a numpy
 * array of three dimensions, holding integers, together with its shape.
 * Voxels are addressed by an integer index triple (i, j, k).
 */
module Volume {
  import opened Wrappers

  /** A shape tuple `(size[0], size[1], size[2])`; a caller may pass negative entries. */
  datatype Shape = Shape(n0: int, n1: int, n2: int)

  /** An integer voxel index `(i, j, k)`. */
  datatype Index = Index(i: int, j: int, k: int)

  /** Cell contents, nested as `voxels[i][j][k]`. */
  type Voxels = seq<seq<seq<int>>>

  /** An image: the shape reported by `img.shape` and the array `img.numpy()`. */
  datatype Image = Image(shape: Shape, voxels: Voxels)

  /** Every extent is non-negative, as numpy requires of an array's shape. */
  predicate ValidShape(s: Shape) {
    s.n0 >= 0 && s.n1 >= 0 && s.n2 >= 0
  }

  /** The shape has no cells at all. */
  predicate EmptyShape(s: Shape) {
    s.n0 == 0 || s.n1 == 0 || s.n2 == 0
  }

  /** The nested sequence has exactly the extents of `s` on every axis. */
  predicate HasShape(v: Voxels, s: Shape) {
    && ValidShape(s)
    && |v| == s.n0
    && (forall i :: 0 <= i < |v| ==> |v[i]| == s.n1)
    && (forall i, j :: 0 <= i < |v| && 0 <= j < |v[i]| ==> |v[i][j]| == s.n2)
  }

  /** The image's array really has the shape it reports. */
  predicate WellFormed(img: Image) {
    HasShape(img.voxels, img.shape)
  }

  /** `0 <= idx[a] < size[a]` on each of the three axes. */
  predicate InBounds(x: Index, s: Shape) {
    && 0 <= x.i < s.n0
    && 0 <= x.j < s.n1
    && 0 <= x.k < s.n2
  }

  /** The cell `arr[i, j, k]` of an in-bounds index. */
  function Cell(img: Image, x: Index): int
    requires WellFormed(img) && InBounds(x, img.shape)
  {
    img.voxels[x.i][x.j][x.k]
  }

  /**
   * Strict row-major (lexicographic) order on index triples: the order in
   * which nested loops over i, then j, then k visit the cells.
   */
  predicate RowMajorBefore(a: Index, b: Index) {
    || a.i < b.i
    || (a.i == b.i && a.j < b.j)
    || (a.i == b.i && a.j == b.j && a.k < b.k)
  }

  /** Largest `npy_intp` on a 64-bit platform, the bound on an array's size in bytes. */
  const IntpMax: int := 0x7fff_ffff_ffff_ffff

  /** Bytes per cell of an `np.int32` array. */
  const CellBytes: int := 4

  /** Why `np.zeros` refuses a shape. */
  datatype AllocError =
    | NegativeDimension   // "negative dimensions are not allowed"
    | ArrayTooBig         // "array is too big": the byte count exceeds `npy_intp`

  /** Factor an extent contributes to the size check: numpy skips zero extents. */
  function Extent(d: int): int {
    if d == 0 then 1 else d
  }

  /** The byte count numpy checks against `IntpMax`: cell size times every non-zero extent. */
  function ByteSize(s: Shape): int {
    CellBytes * Extent(s.n0) * Extent(s.n1) * Extent(s.n2)
  }

  /** One step of numpy's scan over the extents, from the running byte count `nbytes`. */
  function CheckAxis(nbytes: int, d: int): Result<int, AllocError> {
    if d == 0 then Success(nbytes)
    else if d < 0 then Failure(NegativeDimension)
    else if nbytes * d > IntpMax then Failure(ArrayTooBig)
    else Success(nbytes * d)
  }

  /** A product of positive factors is at least each factor. */
  lemma ProductGrows(a: int, b: int)
    requires a >= 1 && b >= 1
    ensures a * b >= a && a * b >= b
  {
  }

  /** For a valid shape the running byte counts only grow towards `ByteSize`. */
  lemma ByteSizePrefixes(s: Shape)
    ensures ValidShape(s) ==>
      var e0, e1 := Extent(s.n0), Extent(s.n1);
      CellBytes * e0 <= CellBytes * e0 * e1 <= ByteSize(s)
  {
    if ValidShape(s) {
      ProductGrows(CellBytes * Extent(s.n0), Extent(s.n1));
      ProductGrows(CellBytes * Extent(s.n0) * Extent(s.n1), Extent(s.n2));
    }
  }

  /**
   * `np.zeros(size, dtype=np.int32)`: the extents are checked left to right,
   * a negative one failing and a byte count beyond `IntpMax` failing; on
   * success the image has exactly the requested shape and every cell is 0.
   */
  function Zeros(s: Shape): (r: Result<Image, AllocError>)
    ensures r.Success? <==> ValidShape(s) && ByteSize(s) <= IntpMax
    ensures s.n0 < 0 ==> r == Failure(NegativeDimension)
    ensures s.n0 >= 0 && s.n1 < 0 && CellBytes * Extent(s.n0) <= IntpMax ==> r == Failure(NegativeDimension)
    ensures s.n0 >= 0 && s.n1 >= 0 && s.n2 < 0 && CellBytes * Extent(s.n0) * Extent(s.n1) <= IntpMax ==>
      r == Failure(NegativeDimension)
    ensures ValidShape(s) && ByteSize(s) > IntpMax ==> r == Failure(ArrayTooBig)
    ensures r == Failure(NegativeDimension) ==> !ValidShape(s)
    ensures r == Failure(NegativeDimension) <==>
      || s.n0 < 0
      || (s.n0 >= 0 && s.n1 < 0 && CellBytes * Extent(s.n0) <= IntpMax)
      || (s.n0 >= 0 && s.n1 >= 0 && s.n2 < 0 && CellBytes * Extent(s.n0) * Extent(s.n1) <= IntpMax)
    ensures r.Success? ==> WellFormed(r.value) && r.value.shape == s
    ensures r.Success? ==> forall x :: InBounds(x, s) ==> Cell(r.value, x) == 0
  {
    ByteSizePrefixes(s);
    var b0 :- CheckAxis(CellBytes, s.n0);
    var b1 :- CheckAxis(b0, s.n1);
    var _ :- CheckAxis(b1, s.n2);
    Success(Image(s, seq(s.n0, _ => seq(s.n1, _ => seq(s.n2, _ => 0)))))
  }

  /** `arr[i, j, k] = value`: one cell replaced, the shape and every other cell kept. */
  function Store(img: Image, x: Index, value: int): (r: Image)
    requires WellFormed(img) && InBounds(x, img.shape)
    ensures WellFormed(r) && r.shape == img.shape
    ensures Cell(r, x) == value
    ensures forall y :: InBounds(y, img.shape) && y != x ==> Cell(r, y) == Cell(img, y)
  {
    var plane := img.voxels[x.i];
    var row := plane[x.j];
    Image(img.shape, img.voxels[x.i := plane[x.j := row[x.k := value]]])
  }
}
