/**
 * The integer tail of `get_ants_voxel_value_at_physical_point`: once the
 * physical point has been rounded to an index triple, the index is checked
 * against the image shape and the stored cell is returned.
 */
module VoxelLookup {
  import opened Wrappers
  import opened Volume
  import opened Gradient

  /** The `ValueError` raised for an index outside the grid, with the index and the shape it reports. */
  datatype LookupError = OutOfBounds(index: Index, shape: Shape)

  /** Bounds-checked read of `arr[idx[0], idx[1], idx[2]]`. */
  function VoxelValueAt(img: Image, idx: Index): (r: Result<int, LookupError>)
    requires WellFormed(img)
    ensures r.Failure? <==>
      || idx.i < 0 || idx.i >= img.shape.n0
      || idx.j < 0 || idx.j >= img.shape.n1
      || idx.k < 0 || idx.k >= img.shape.n2
    ensures r.Failure? ==> r.error == OutOfBounds(idx, img.shape)
    ensures r.Success? ==> InBounds(idx, img.shape) && r.value == img.voxels[idx.i][idx.j][idx.k]
  {
    if !InBounds(idx, img.shape) then
      Failure(OutOfBounds(idx, img.shape))
    else
      Success(Cell(img, idx))
  }

  /** On a gradient image an in-bounds lookup yields the voxel's gradient value. */
  lemma LookupGradient(img: Image, idx: Index)
    requires IsGradient(img) && InBounds(idx, img.shape)
    ensures VoxelValueAt(img, idx) == Success(idx.i + 100 * idx.j + 10000 * idx.k)
  {
  }

  /**
   * The point of the encoding: on a gradient image with `size[0] <= 100` and
   * `size[1] <= 100`, the value read back identifies the voxel it came from.
   */
  lemma LookupIdentifiesVoxel(img: Image, idx: Index)
    requires IsGradient(img) && img.shape.n0 <= 100 && img.shape.n1 <= 100
    requires InBounds(idx, img.shape)
    ensures VoxelValueAt(img, idx).Success?
    ensures DecodeGradient(VoxelValueAt(img, idx).value) == idx
  {
    DecodeEncode(idx);
  }
}
