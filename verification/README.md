# Gradient test volumes, bounds-checked voxel lookup and value search

This project models the integer grid logic of `aind-anatomical-utils`: the
gradient test image built by `create_gradient_ants_image`, the bounds check
and cell read at the end of `get_ants_voxel_value_at_physical_point`, and
`find_indices_equal_to`, which lists the positions of a value in an array.

An image is a value `Image(shape, voxels)`: the shape tuple `img.shape` and
the contents of `img.numpy()` as nested sequences `voxels[i][j][k]` of
unbounded integers. Voxels are addressed by `Index(i, j, k)`.

- `Volume` (`volume.dfy`): shapes, indices, images, the bounds predicate,
  row-major order, `np.zeros` with its shape checks, and the single-cell
  store `arr[i, j, k] = value`.
- `Gradient` (`gradient.dfy`): the gradient encoding `i + 100*j + 10000*k`,
  the fill loop with its `np.int32` overflow error, and the decoding
  `(v mod 100, (v div 100) mod 100, v div 10000)` with both round trips.
- `VoxelLookup` (`lookup.dfy`): the bounds-checked read, failing with the
  index and the shape exactly when some axis is outside `[0, size[axis])`.
- `Search` (`search.dfy`): the row-major scan returning every matching
  index, with soundness, completeness, strict ordering, count, and the
  uniqueness of any result meeting that contract.
- `Wrappers` (`wrappers.dfy`): the `Result` type standing for the raised errors.

Errors the Python code raises become `Failure` values:
- `AllocFailed(NegativeDimension)` and `AllocFailed(ArrayTooBig)`: `np.zeros`
  scans the extents left to right, refusing a negative one and refusing a
  shape whose byte count (4 bytes per `np.int32` cell times every non-zero
  extent) exceeds the largest `npy_intp` of a 64-bit platform.
- `Int32Overflow(at)`: the first voxel, in loop order, whose value does not
  fit in an `np.int32` cell, as NumPy 2 raises `OverflowError` on that store.
- `OutOfBounds(index, shape)`: the `ValueError` of the lookup, which carries
  the index and the shape, as its message at tests/conftest.py:99 does.

## Model

| member | source | states |
|---|---|---|
| Volume.Zeros | tests/conftest.py:41 | `np.zeros(size, dtype=np.int32)` succeeds exactly when no extent is negative and the byte count fits in `npy_intp`; a negative extent gives `NegativeDimension` when the byte count of the extents before it still fits, otherwise a failure is `ArrayTooBig`, including a negative extent after extents whose byte count already overflows; on success the image has exactly the requested shape and every cell is 0 |
| Volume.Store | tests/conftest.py:45 | storing into one cell keeps the shape, sets that cell, and leaves every other cell as it was |
| Gradient.CreateGradient | tests/conftest.py:13-45 | `size` defaults to `(10, 20, 30)`; fails exactly when an extent is negative, the array is too big for `npy_intp`, or the grid is non-empty and its last value exceeds the `np.int32` maximum; an allocation failure is passed on unchanged, any failure after `np.zeros` succeeds is `Int32Overflow`, and it names the first voxel in loop order whose value overflows; on success the image has shape `size` and every in-bounds cell holds `i + 100*j + 10000*k` (the loop invariant keeps every cell not yet reached at 0) |
| Gradient.FillGradient | tests/conftest.py:42-45 | the triple loop over a zero-filled image fails exactly when the grid is non-empty and its last value exceeds the `np.int32` maximum, always with `Int32Overflow` at the first voxel in loop order whose value overflows; otherwise the shape is kept and every in-bounds cell holds `i + 100*j + 10000*k` |
| Gradient.GradientBounds | tests/conftest.py:45 | every in-bounds gradient value lies in `[0, (size[0]-1) + 100*(size[1]-1) + 10000*(size[2]-1)]` |
| Gradient.DecodeEncode | tests/conftest.py:21-22 | for `0 <= i, j < 100` and `k >= 0`, decoding the value of `(i, j, k)` gives back `(i, j, k)` |
| Gradient.EncodeDecode | tests/conftest.py:21-22 | every non-negative value decodes to an index with `i, j < 100` whose gradient value is that value |
| Gradient.GradientInjective | tests/conftest.py:13-22 | with `size[0] <= 100` and `size[1] <= 100`, two in-bounds voxels with the same value are the same voxel |
| Gradient.GradientCollides | tests/conftest.py:21-22 | with `size[0] > 100` (and at least two rows), or with `size[1] > 100` (and at least two layers), two distinct in-bounds voxels share a value, so the identification promise needs both bounds |
| Gradient.DefaultSizeIdentifiable | tests/conftest.py:15-22 | the default size `(10, 20, 30)` passes `np.zeros`'s checks, fills without `np.int32` overflow, and meets both bounds under which every voxel is identified by its value |
| VoxelLookup.VoxelValueAt | tests/conftest.py:96-103 | the lookup fails exactly when some axis has `idx[a] < 0` or `idx[a] >= size[a]`, reporting that index and the shape; otherwise it returns the cell `arr[idx]` |
| VoxelLookup.LookupGradient | tests/conftest.py:102-103 | on a gradient image an in-bounds lookup returns `i + 100*j + 10000*k` |
| VoxelLookup.LookupIdentifiesVoxel | tests/conftest.py:96-103 | on a gradient image with `size[0], size[1] <= 100`, decoding the value read at an in-bounds index gives that index back |
| Search.FindIndicesEqualTo | src/aind_anatomical_utils/utils.py:6-8 | every returned index is in bounds with cell `v`; every in-bounds cell equal to `v` is returned; the result is strictly increasing in row-major order; its length is the number of matching cells; it is empty exactly when `v` does not occur |
| Search.ListingCount | src/aind_anatomical_utils/utils.py:8 | a sound, complete, strictly increasing listing has exactly one entry per matching cell |
| Search.ListingUnique | src/aind_anatomical_utils/utils.py:8 | two results that are sound, complete and strictly increasing are the same sequence, so the contract fixes the result |
| Search.IncreasingCard | src/aind_anatomical_utils/utils.py:8 | a strictly increasing listing has no duplicates |
| Search.GradientSearch | src/aind_anatomical_utils/utils.py:6-8 | on a gradient image with `size[0], size[1] <= 100`, searching for the value of an in-bounds voxel returns exactly that one voxel |

## Left out

- The physical-point to continuous-index transform (tests/conftest.py:86-91) and the rounding `int(round(x))` (tests/conftest.py:94): floating-point arithmetic and a general matrix inverse through `np.linalg.inv`; the model starts from the already rounded integer index.
- The orientation code of an image (tests/conftest.py:106-122): it calls `AnatomicalHeader.orientation_code`, and `aind_anatomical_utils/anatomical_volume.py` is not part of this model. The inverse mapping from code to direction matrix is not modelled either.
- The direction matrix from `DICOMOrientImageFilter.GetDirectionCosinesFromOrientation` and the image header built by `ants.from_numpy` (origin, spacing, direction; tests/conftest.py:48-56): third-party code whose semantics are not visible here; an image is only its shape and its cells.
- The conversion `float(...)` of the value read (tests/conftest.py:103): every `np.int32` value is exact as a double, so the lookup returns the integer. This assumes `img.numpy()` gives back the `np.int32` cells passed to `ants.from_numpy`; if the image stored them as `float32`, values above 2^24 would not be exact, and the ANTs storage is not part of this model.
- VoxelLookup.VoxelValueAt: "the lookup leaves every cell unchanged" is not a separate clause; the image is an immutable value, so a read cannot change it.
- Gradient.CreateGradient: "each cell is written exactly once" is not stated as a write count; the invariant that every cell not yet reached still holds 0, together with the final contents, is what is proved.
- Gradient.CreateGradient: a `MemoryError` from `np.zeros` when a shape that passes the size check still cannot be allocated is not modelled; it depends on the machine's memory. The size check assumes a 64-bit `npy_intp`.
- Gradient.CreateGradient: an extent too large to convert to `npy_intp` is reported as `ArrayTooBig` or `NegativeDimension`; NumPy rejects it earlier, while converting the shape, with a different message.
- Gradient.CreateGradient: the NumPy 1.x behaviour of wrapping an out-of-range value into `np.int32` (with a deprecation warning) is not modelled; the model follows NumPy 2, which raises.
- Search.FindIndicesEqualTo: fixed to arrays of three dimensions holding integers; the source accepts any numpy array and dtype.
