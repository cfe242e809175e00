# bdv-fusion cell loading, mipmap descriptors and array pixel types in Dafny

This project models the core of bdv-fusion. bdv-fusion is a set of
BigDataViewer image loaders that read a large volume one cell at a time,
from one image file per cell, from an HDF5 dataset of `long` arrays, or by
fusing stitching tiles. The model covers five areas:

- **Per-cell array loaders.**
  - The storage locator each loader derives from a cell's level and offset.
  - The zero buffer of exactly `product(dimensions)` entries.
  - Filling that buffer from a zero-extended source image. Only the `IOException` of a missing or unopenable file is caught, and it leaves the zero buffer. The grid division's exception comes out before anything is allocated, a pixel type the buffer does not hold ends the generic loader's copy with `ClassCastException`, and the HDF5 loader's negative fallback length throws `NegativeArraySizeException`.
  - The cached placeholder array, which is reused or grown but never shrunk.
  - The tile-by-tile overwrite of the stitching loader, where the last writer wins. A tile that opens with pixels other than 16-bit ends it with `ClassCastException`.
- **Mipmap pyramid descriptors.**
  - Per-level resolutions and transforms, with diagonal `s` and translation `0.5 * (s - 1)`.
  - The level count and the cache priority `numLevels - 1 - level`.
  - The `getNumScales` shift loop.
  - The HDF5 axis reversal.
- **Source metadata and loader dispatch.**
  - Map-to-slot conversion of the per-level dimensions.
  - The calibration of the stored matrix.
  - The switch on the image type tag.
- **Transform serialisation.**
  - Big-endian packing of 64-bit words and its inverse.
  - The `'@'`-prefixed raw framing versus the deflated framing, under Base64 (section 4 of RFC 4648) and zlib (RFC 1950).
  - The whitespace-token text layout of thin-plate splines.
  - `encode`, `buildTransform` and `getTransform`.
- **Array-valued pixel types.**
  - The `i == index * length` bookkeeping of `AbstractArrayType`.
  - The element-wise operations of `LongArrayType` over `min(length, c.length)` slots.
  - The validity flag of the volatile wrappers.

**How the model is built**

- **Loops and imperative code.** Code that fills buffers in loops or updates fields is modelled as Dafny classes and methods with loop invariants. Each method is proved against a specification function, such as `CellFiles.CellContents`, `LongArrayTypes.Combined` or `SerializableTransform3Ds.Parsed`. The properties the source promises are then proved about those functions as lemmas.
- **Java integer arithmetic.** Java `int` and `long` arithmetic is written out: wrap-around, truncating division, `1 << i` and `>>`.
- **Exceptions.** Java exceptions are values of `Wrappers.JavaException` inside a `Result`.
- **Inheritance.** A subclass holds its superclass part as a field. `LongArrayType` holds `base: AbstractArrayType` and the volatile types hold `t`. The shadowed `dataAccess` of `FloatArrayType` is a second field, `own`.
- **Oracles.** Code outside the repository becomes function parameters:
  - image opening and the ImageJ type conversions;
  - the HDF5 block reader;
  - tile resampling;
  - `img.update(c)`;
  - Base64, deflate and inflate.

  Where a round trip depends on the codecs, the lemma takes the hypothesis `Codecs`: decoding inverts encoding, and inflating into a buffer of the original size inverts deflating.

## Model

Source cells give paths relative to the repository root.

| member | source | states |
|---|---|---|
| CellFiles.Open | src/main/java/org/janelia/bdv/fusion/AbstractCellFileArrayLoader.java:125-132 | a locator that names no existing file, or an image that does not open, yields no image; otherwise the stored image |
| CellFiles.ProductOfCellDims | src/main/java/org/janelia/bdv/fusion/AbstractCellFileArrayLoader.java:118-120 | for cell dimensions the cache hands out, the Java `int` product is the exact volume of the cell |
| CellFiles.NumEntities | src/main/java/org/janelia/bdv/fusion/AbstractCellFileArrayLoader.java:118-120 | the `numEntities *= d` loop computes the start value times the product of the dimensions, wrapped to 32 bits |
| CellFiles.CellContents | src/main/java/org/janelia/bdv/fusion/AbstractCellFileArrayLoader.java:142-150 | the cell read from the zero-extended image has exactly one entry per cell position |
| CellFiles.CellContentsAt | src/main/java/org/janelia/bdv/fusion/AbstractCellFileArrayLoader.java:142-150 | cell position `p` holds the image's value at `p` when `p` lies in the image, and 0 where the cell overhangs it |
| CellFiles.CellContentsOutside | src/main/java/org/janelia/bdv/fusion/AbstractCellFileArrayLoader.java:144-147 | an empty image extends to an all-zero cell |
| CellFiles.LoadedCell | src/main/java/org/janelia/bdv/fusion/AbstractCellFileArrayLoader.java:121-157 | the returned buffer has `product(dimensions)` entries; it is all zero when opening failed and is the zero-extended cell otherwise |
| CellFiles.CopyPositionwise | src/main/java/org/janelia/bdv/fusion/AbstractCellFileArrayLoader.java:149-150 | the pair-cursor loop leaves the buffer equal to the zero-extended cell |
| CellFiles.CopyFlat | src/main/java/org/janelia/bdv/fusion/CellFileUnsignedShortArrayLoader.java:157-160 | the two-cursor flat walk leaves the buffer equal to the zero-extended cell, exactly as the positionwise copy does |
| CellFiles.NextPlaceholderLength | src/main/java/org/janelia/bdv/fusion/AbstractCellFileArrayLoader.java:167-168 | the placeholder length never decreases, always covers the request, and changes only to exactly the requested length |
| CellFiles.ReusedOrGrown | src/main/java/org/janelia/bdv/fusion/AbstractCellFileArrayLoader.java:167-168 | a large enough placeholder is returned as it is; otherwise a fresh invalid zero array of exactly the requested length |
| CellFiles.GridFailure | src/main/java/org/janelia/bdv/fusion/AbstractCellFileArrayLoader.java:105-113 | the divisions `min[d] / cellSize[d]`, evaluated left to right, succeed exactly when the row has three non-zero entries; otherwise `ArithmeticException` when one of the entries present is zero, and `ArrayIndexOutOfBoundsException` when the row is short with no zero before its end |
| CellFiles.GridIndex | src/main/java/org/janelia/bdv/fusion/AbstractCellFileArrayLoader.java:111-113 | `min / cellSize` on longs is the grid cell containing `min`, truncated toward zero for negative offsets |
| CellFiles.GridIndexBounds | src/main/java/org/janelia/bdv/fusion/AbstractCellFileArrayLoader.java:111-113 | Java's truncating quotient brackets the offset between consecutive multiples of the cell size |
| CellFiles.GridAndPixelLocator | src/main/java/org/janelia/bdv/fusion/AbstractCellFileArrayLoader.java:107-116 | the seven format arguments are the level, the three grid indices and the three pixel offsets, in that order |
| CellFiles.GridLocator | src/main/java/org/janelia/bdv/fusion/CellFileFloatArrayLoader.java:100-106 | the four format arguments are the level and the three grid indices |
| CellFiles.PixelLocator | src/main/java/org/janelia/bdv/fusion/CellFileUnsignedShortArrayLoader.java:108-114 | the four format arguments are the level and the three pixel offsets; the cell size plays no part |
| CellFiles.PixelLocatorInjective | src/main/java/org/janelia/bdv/fusion/CellFileUnsignedShortArrayLoader.java:108-114 | cells at different offsets of one level have different locators |
| CellFiles.GridLocatorSharedCell | src/main/java/org/janelia/bdv/fusion/CellFileFloatArrayLoader.java:100-106 | offsets in the same grid cell on every axis give the same grid locator |
| CellFiles.ConvertedTo | src/main/java/org/janelia/bdv/fusion/CellFileUnsignedByteArrayLoader.java:127-133 | a missing image stays missing; an image of the wanted type is used as it is; any other image is converted, not rejected |
| CellFiles.OfKind | src/main/java/org/janelia/bdv/fusion/CellFileUnsignedShortArrayLoader.java:129-132 | only an image of the wanted type is used; a missing image and an image of another type both count as failures |
| AbstractCellFileArrayLoaders.AbstractCellFileArrayLoader.constructor | src/main/java/org/janelia/bdv/fusion/AbstractCellFileArrayLoader.java:85-95 | the placeholder starts as an invalid array of length 1; the loader records the image types its pixel type stands for |
| AbstractCellFileArrayLoaders.AbstractCellFileArrayLoader.LoadArray | src/main/java/org/janelia/bdv/fusion/AbstractCellFileArrayLoader.java:97-158 | a cell-size row with a zero or missing entry ends the call with the exception of the grid division; an opened image of another pixel type throws `ClassCastException` unless the cell has no voxels; otherwise a fresh valid buffer of `product(dimensions)` entries, holding the zero-extended cell of the file named by the seven-argument locator, or all zeros when it does not open |
| AbstractCellFileArrayLoaders.AbstractCellFileArrayLoader.EmptyArray | src/main/java/org/janelia/bdv/fusion/AbstractCellFileArrayLoader.java:160-171 | the placeholder is returned and kept when long enough; otherwise it is replaced by an invalid array of exactly `product(dimensions)` entries |
| CellFileUnsignedByteArrayLoaders.CellFileUnsignedByteArrayLoader.constructor | src/main/java/org/janelia/bdv/fusion/CellFileUnsignedByteArrayLoader.java:82-87 | the placeholder starts as an invalid zero array of length 1 |
| CellFileUnsignedByteArrayLoaders.CellFileUnsignedByteArrayLoader.GetBytesPerElement | src/main/java/org/janelia/bdv/fusion/CellFileUnsignedByteArrayLoader.java:89-93 | one byte per element |
| CellFileUnsignedByteArrayLoaders.CellFileUnsignedByteArrayLoader.LoadArray | src/main/java/org/janelia/bdv/fusion/CellFileUnsignedByteArrayLoader.java:95-162 | a cell-size row with a zero or missing entry ends the call with the exception of the grid division; otherwise a fresh valid `byte` buffer of `product(dimensions)` entries: the zero-extended cell of the gray-8 conversion of the file named by the seven-argument locator, or all zeros |
| CellFileUnsignedByteArrayLoaders.CellFileUnsignedByteArrayLoader.EmptyArray | src/main/java/org/janelia/bdv/fusion/CellFileUnsignedByteArrayLoader.java:165-174 | the reuse-or-grow rule for the invalid placeholder |
| CellFileUnsignedShortArrayLoaders.CellFileUnsignedShortArrayLoader.constructor | src/main/java/org/janelia/bdv/fusion/CellFileUnsignedShortArrayLoader.java:83-90 | the placeholder starts as an invalid zero array of length 1 |
| CellFileUnsignedShortArrayLoaders.CellFileUnsignedShortArrayLoader.GetBytesPerElement | src/main/java/org/janelia/bdv/fusion/CellFileUnsignedShortArrayLoader.java:92-96 | two bytes per element |
| CellFileUnsignedShortArrayLoaders.CellFileUnsignedShortArrayLoader.LoadArray | src/main/java/org/janelia/bdv/fusion/CellFileUnsignedShortArrayLoader.java:98-167 | a fresh valid `short` buffer of `product(dimensions)` entries: the zero-extended cell of the file named by the pixel-offset locator when it is a gray-16 image, and all zeros otherwise |
| CellFileUnsignedShortArrayLoaders.CellFileUnsignedShortArrayLoader.EmptyArray | src/main/java/org/janelia/bdv/fusion/CellFileUnsignedShortArrayLoader.java:170-179 | the reuse-or-grow rule for the invalid placeholder |
| CellFileFloatArrayLoaders.CellFileFloatArrayLoader.constructor | src/main/java/org/janelia/bdv/fusion/CellFileFloatArrayLoader.java:77-82 | the placeholder starts as an invalid zero array of length 1 |
| CellFileFloatArrayLoaders.CellFileFloatArrayLoader.GetBytesPerElement | src/main/java/org/janelia/bdv/fusion/CellFileFloatArrayLoader.java:84-88 | four bytes per element |
| CellFileFloatArrayLoaders.CellFileFloatArrayLoader.LoadArray | src/main/java/org/janelia/bdv/fusion/CellFileFloatArrayLoader.java:90-154 | a cell-size row with a zero or missing entry ends the call with the exception of the grid division; otherwise a fresh valid `float` buffer of `product(dimensions)` entries: the zero-extended cell of the gray-32 conversion of the file named by the grid locator, or all zeros |
| CellFileFloatArrayLoaders.CellFileFloatArrayLoader.EmptyArray | src/main/java/org/janelia/bdv/fusion/CellFileFloatArrayLoader.java:157-166 | the reuse-or-grow rule for the invalid placeholder |
| H5LongArrayArrayLoaders.SlotInRange | src/main/java/org/janelia/bdv/fusion/H5LongArrayArrayLoader.java:55-60 | every element of every voxel of a block has a slot in the flat array |
| H5LongArrayArrayLoaders.SlotDecode | src/main/java/org/janelia/bdv/fusion/H5LongArrayArrayLoader.java:55-60 | a slot of the flat array gives back its voxel and its element number |
| H5LongArrayArrayLoaders.SlotEncode | src/main/java/org/janelia/bdv/fusion/H5LongArrayArrayLoader.java:55-60 | every slot of the flat array is the slot of the voxel and element it decodes to |
| H5LongArrayArrayLoaders.ReadBlock | src/main/java/org/janelia/bdv/fusion/H5LongArrayArrayLoader.java:55-60 | a block that lies inside the dataset is read, with one entry per element of each voxel of the block; `None` stands for a failed read, here a block outside the dataset |
| H5LongArrayArrayLoaders.WholeDatasetBlock | src/test/java/org/janelia/bdv/fusion/H5LongArraySetupImageLoaderTest.java:103-109 | reading the whole dataset as one block gives back the longs in the order they were written, x fastest and array element innermost |
| H5LongArrayArrayLoaders.CellBlockAt | src/main/java/org/janelia/bdv/fusion/H5LongArrayArrayLoader.java:55-60 | in the block a cell reads, element `e` of cell position `p` is element `e` of dataset voxel `min + p` |
| H5LongArrayArrayLoaders.ReaderOfDataset | src/main/java/org/janelia/bdv/fusion/H5LongArrayArrayLoader.java:55-60 | when the reader is the block read of a dataset and the cell lies in it, the block `loadArray` stores holds, at element `e` of cell position `p`, element `e` of dataset voxel `min + p` |
| H5LongArrayArrayLoaders.CellBlockSize | src/main/java/org/janelia/bdv/fusion/H5LongArrayArrayLoader.java:55-56 | the requested size is the cell's dimensions in reversed axis order, followed by the whole array length |
| H5LongArrayArrayLoaders.CellBlockOffset | src/main/java/org/janelia/bdv/fusion/H5LongArrayArrayLoader.java:57-58 | the requested offset is the cell's minimum in reversed axis order, followed by element 0 |
| H5LongArrayArrayLoaders.FallbackLengthExact | src/main/java/org/janelia/bdv/fusion/H5LongArrayArrayLoader.java:70 | the fallback length `d0 * d1 * d2 * arrayLength` in `int` arithmetic is the wrapped exact product, and the exact product when that fits |
| H5LongArrayArrayLoaders.H5LongArrayArrayLoader.constructor | src/main/java/org/janelia/bdv/fusion/H5LongArrayArrayLoader.java:27-37 | `arrayLength` is the `(int)` cast of the last dataset dimension; the placeholder starts as an invalid zero array of length 1 |
| H5LongArrayArrayLoaders.H5LongArrayArrayLoader.GetBytesPerElement | src/main/java/org/janelia/bdv/fusion/H5LongArrayArrayLoader.java:39-43 | `8 * arrayLength`, exact whenever it fits in an `int` |
| H5LongArrayArrayLoaders.H5LongArrayArrayLoader.LoadArray | src/main/java/org/janelia/bdv/fusion/H5LongArrayArrayLoader.java:46-74 | the block read at the reversed size and offset, in a fresh valid array; when the read fails, a zero array of the fallback length, or `NegativeArraySizeException` when that length wraps negative |
| H5LongArrayArrayLoaders.H5LongArrayArrayLoader.EmptyArray | src/main/java/org/janelia/bdv/fusion/H5LongArrayArrayLoader.java:79-88 | the reuse-or-grow rule with the requested length `arrayLength * product(dimensions)` |
| StitchingVolatileShortArrayLoaders.Stitched | src/main/java/org/janelia/bdv/fusion/StitchingVolatileShortArrayLoader.java:54-88 | the fused cell has one entry per position of the cell, in flat order |
| StitchingVolatileShortArrayLoaders.LastWriterWins | src/main/java/org/janelia/bdv/fusion/StitchingVolatileShortArrayLoader.java:63-88 | a position takes its value from the last opened tile in list order whose box contains it |
| StitchingVolatileShortArrayLoaders.UncoveredStaysZero | src/main/java/org/janelia/bdv/fusion/StitchingVolatileShortArrayLoader.java:54-88 | a position that no opened tile covers keeps its initial 0 |
| StitchingVolatileShortArrayLoaders.UnreadableTileSkipped | src/main/java/org/janelia/bdv/fusion/StitchingVolatileShortArrayLoader.java:66-67 | a tile whose image does not open changes nothing, wherever it sits in the list |
| StitchingVolatileShortArrayLoaders.CursorStep | src/main/java/org/janelia/bdv/fusion/StitchingVolatileShortArrayLoader.java:78-86 | step k of the source and target cursors is the same global position, inside both the tile and the cell |
| StitchingVolatileShortArrayLoaders.OtherSlot | src/main/java/org/janelia/bdv/fusion/StitchingVolatileShortArrayLoader.java:78-86 | the target cursor visits each cell slot at most once, so the walk is one to one |
| StitchingVolatileShortArrayLoaders.CopyIntersection | src/main/java/org/janelia/bdv/fusion/StitchingVolatileShortArrayLoader.java:78-86 | after one tile, exactly the cell slots inside its intersection hold the tile's samples; every other slot is unchanged |
| StitchingVolatileShortArrayLoaders.StitchingVolatileShortArrayLoader.constructor | src/main/java/org/janelia/bdv/fusion/StitchingVolatileShortArrayLoader.java:35-39 | the placeholder starts as an invalid zero array of length 1 |
| StitchingVolatileShortArrayLoaders.StitchingVolatileShortArrayLoader.GetBytesPerElement | src/main/java/org/janelia/bdv/fusion/StitchingVolatileShortArrayLoader.java:41-45 | two bytes per element |
| StitchingVolatileShortArrayLoaders.StitchingVolatileShortArrayLoader.LoadArray | src/main/java/org/janelia/bdv/fusion/StitchingVolatileShortArrayLoader.java:47-91 | `ClassCastException` when some candidate tile opens with pixels other than 16-bit; otherwise a fresh valid buffer equal to the fused cell of the candidate tiles |
| StitchingVolatileShortArrayLoaders.StitchingVolatileShortArrayLoader.EmptyArray | src/main/java/org/janelia/bdv/fusion/StitchingVolatileShortArrayLoader.java:93-102 | the reuse-or-grow rule for the invalid placeholder |
| CellGeometry.Intersect | src/main/java/org/janelia/bdv/fusion/StitchingVolatileShortArrayLoader.java:69-70 | a position lies in the intersection exactly when it lies in both boxes |
| CellGeometry.FlatIndexCoord | src/main/java/org/janelia/bdv/fusion/AbstractCellFileArrayLoader.java:142-150 | the coordinate of a position's flat slot is the position itself |
| CellGeometry.CoordFlatIndex | src/main/java/org/janelia/bdv/fusion/AbstractCellFileArrayLoader.java:142-150 | every slot of a buffer is the flat slot of a position of its extent |
| CellGeometry.FlatIndexInRange | src/main/java/org/janelia/bdv/fusion/AbstractCellFileArrayLoader.java:142-150 | every position of an extent has a slot inside a buffer of that volume |
| CellGeometry.FlatIndexInjective | src/main/java/org/janelia/bdv/fusion/AbstractCellFileArrayLoader.java:142-150 | two positions of one extent share a slot only when they are equal |
| Mipmaps.Identity | src/main/java/org/janelia/bdv/fusion/AbstractCellFileImageLoader.java:84 | the new transform has ones on the diagonal and zeros elsewhere |
| Mipmaps.Set | src/main/java/org/janelia/bdv/fusion/AbstractCellFileImageLoader.java:87-88 | `set(v, r, c)` changes entry `(r, c)` to `v` and nothing else |
| Mipmaps.Resolutions | src/main/java/org/janelia/bdv/fusion/AbstractCellFileImageLoader.java:80-82 | resolution `d` of a level is its downsample factor `d` |
| Mipmaps.LevelTransformStep | src/main/java/org/janelia/bdv/fusion/AbstractCellFileImageLoader.java:84-89 | each axis of the loop sets the scale `f` at `(d, d)` and the offset `0.5 * (f - 1)` at `(d, 3)` |
| Mipmaps.LevelTransformCenters | src/main/java/org/janelia/bdv/fusion/AbstractCellFileImageLoader.java:87-88 | a coarse voxel lands at the centre of the fine voxels it covers; axes without a factor stay unchanged |
| Mipmaps.UnitFactorsIdentity | src/main/java/org/janelia/bdv/fusion/AbstractCellFileImageLoader.java:87-88 | a factor of 1 on every axis gives the identity transform |
| Mipmaps.Priority | src/main/java/org/janelia/bdv/fusion/AbstractCellFileImageLoader.java:121 | the priority value of a level lies in `[0, numLevels)`; the coarsest level gets 0 and level 0, the finest, the largest value |
| AbstractCellFileImageLoaders.ResolutionTable | src/main/java/org/janelia/bdv/fusion/AbstractCellFileImageLoader.java:77-82 | one resolution row per level, each the factors of that level |
| AbstractCellFileImageLoaders.AbstractCellFileImageLoader.constructor | src/main/java/org/janelia/bdv/fusion/AbstractCellFileImageLoader.java:63-93 | level `i` gets the resolutions of `downsampleFactors[i]` and the matching scale-and-centre transform; the cache is created for `dimensions.length` levels |
| AbstractCellFileImageLoaders.AbstractCellFileImageLoader.PrepareCachedImage | src/main/java/org/janelia/bdv/fusion/AbstractCellFileImageLoader.java:112-127 | level `L` is requested with `dimensions[L]`, `cellDimensions[L]`, the given strategy and priority `numLevels - 1 - L` |
| AbstractCellFileImageLoaders.AbstractCellFileImageLoader.NumMipmapLevels | src/main/java/org/janelia/bdv/fusion/AbstractCellFileImageLoader.java:141-145 | the number of levels equals the number of level dimensions, resolution rows and transforms |
| CellFileUnsignedShortImageLoaders.LevelScale | src/main/java/org/janelia/bdv/fusion/CellFileUnsignedShortImageLoader.java:79 | Java's `1 << i` is an `int`: `2^i` for the levels below 31 and `Integer.MIN_VALUE` at level 31 |
| CellFileUnsignedShortImageLoaders.Uniform | src/main/java/org/janelia/bdv/fusion/CellFileUnsignedShortImageLoader.java:81 | the same scale on all three axes |
| CellFileUnsignedShortImageLoaders.ScaleAndCentre | src/main/java/org/janelia/bdv/fusion/CellFileUnsignedShortImageLoader.java:83-92 | the six `set` calls put the scale on the diagonal and `0.5 * (si - 1)` in the translation column, the subtraction wrapping as an `int` |
| CellFileUnsignedShortImageLoaders.UniformTransform | src/main/java/org/janelia/bdv/fusion/CellFileUnsignedShortImageLoader.java:83-92 | unless `si - 1` wraps, the six `set` calls build exactly the scale-and-centre transform of the uniform resolutions |
| CellFileUnsignedShortImageLoaders.Level31Offset | src/main/java/org/janelia/bdv/fusion/CellFileUnsignedShortImageLoader.java:79-89 | at level 31 the scale is negative and the wrapped subtraction gives it the offset `0.5 * Integer.MAX_VALUE` |
| CellFileUnsignedShortImageLoaders.ShrNDiv | src/main/java/org/janelia/bdv/fusion/CellFileUnsignedShortImageLoader.java:106 | shifting right `n` times is floor division by `2^n` |
| CellFileUnsignedShortImageLoaders.CellFileUnsignedShortImageLoader.constructor | src/main/java/org/janelia/bdv/fusion/CellFileUnsignedShortImageLoader.java:64-99 | level `i` gets resolution `1 << i` on every axis and the transform of the six `set` calls, with the wrapped offset; below level 31 that is the uniform scale-and-centre transform; the array loader gets the format and the cell dimensions |
| CellFileUnsignedShortImageLoaders.CellFileUnsignedShortImageLoader.GetNumScales | src/main/java/org/janelia/bdv/fusion/CellFileUnsignedShortImageLoader.java:102-110 | the least `n >= 1` at which the level no longer exceeds a tile on both axes |
| CellFileUnsignedShortImageLoaders.CellFileUnsignedShortImageLoader.PrepareCachedImage | src/main/java/org/janelia/bdv/fusion/CellFileUnsignedShortImageLoader.java:117-131 | level `L` is requested with its dimensions, its cell dimensions and priority `numLevels - 1 - L` |
| CellFileUnsignedShortImageLoaders.CellFileUnsignedShortImageLoader.GetImage | src/main/java/org/janelia/bdv/fusion/CellFileUnsignedShortImageLoader.java:145-152 | a blocking request for setup 0 at the given timepoint and level |
| CellFileUnsignedShortImageLoaders.CellFileUnsignedShortImageLoader.GetVolatileImage | src/main/java/org/janelia/bdv/fusion/CellFileUnsignedShortImageLoader.java:154-161 | a volatile request for setup 0 at the given timepoint and level |
| CellFileUnsignedShortImageLoaders.CellFileUnsignedShortImageLoader.NumMipmapLevels | src/main/java/org/janelia/bdv/fusion/CellFileUnsignedShortImageLoader.java:175-179 | the number of levels equals the number of level dimensions and transforms |
| CellFileUnsignedShortImageLoaders.CellFileUnsignedShortImageLoader.SetCache | src/main/java/org/janelia/bdv/fusion/CellFileUnsignedShortImageLoader.java:181-184 | the cache is replaced |
| H5LongArraySetupImageLoaders.ReadResolution | src/main/java/org/janelia/bdv/fusion/H5LongArraySetupImageLoader.java:54-66 | a missing attribute gives `(1, 1, 1)`; otherwise the first three entries in reversed order; a shorter attribute throws |
| H5LongArraySetupImageLoaders.Dimension | src/main/java/org/janelia/bdv/fusion/H5LongArraySetupImageLoader.java:98-103 | the x, y, z extent is the HDF5 extent of the first three axes reversed |
| H5LongArraySetupImageLoaders.DimensionReversal | src/main/java/org/janelia/bdv/fusion/H5LongArraySetupImageLoader.java:98-103 | reversing twice restores the HDF5 order |
| H5LongArraySetupImageLoaders.ArrayLength | src/main/java/org/janelia/bdv/fusion/H5LongArraySetupImageLoader.java:105 | the array length is the fourth HDF5 dimension whenever it fits in an `int` |
| H5LongArraySetupImageLoaders.PixelTypeLength | src/main/java/org/janelia/bdv/fusion/H5LongArraySetupImageLoader.java:68-82 | the pixel types take the last HDF5 dimension as their length |
| H5LongArraySetupImageLoaders.PixelTypeMatchesArrayLength | src/main/java/org/janelia/bdv/fusion/H5LongArraySetupImageLoader.java:68-105 | for a four-dimensional dataset the pixel types and the loader agree on the array length |
| H5LongArraySetupImageLoaders.DiagonalTransformScales | src/main/java/org/janelia/bdv/fusion/H5LongArraySetupImageLoader.java:107-111 | the only transform scales each axis by its resolution and has no translation |
| H5LongArraySetupImageLoaders.H5LongArraySetupImageLoader.constructor | src/main/java/org/janelia/bdv/fusion/H5LongArraySetupImageLoader.java:84-118 | the resolution, the reversed dimension, the array length, the diagonal transform, a loader over the same reader, and a single-level cache |
| H5LongArraySetupImageLoaders.H5LongArraySetupImageLoader.GetMipmapResolutions | src/main/java/org/janelia/bdv/fusion/H5LongArraySetupImageLoader.java:120-124 | the one resolution row |
| H5LongArraySetupImageLoaders.H5LongArraySetupImageLoader.NumMipmapLevels | src/main/java/org/janelia/bdv/fusion/H5LongArraySetupImageLoader.java:126-130 | exactly one level, matching the one resolution row and the one transform |
| H5LongArraySetupImageLoaders.H5LongArraySetupImageLoader.PrepareCachedImage | src/main/java/org/janelia/bdv/fusion/H5LongArraySetupImageLoader.java:132-144 | the whole volume with the block dimension at priority 0, whatever the level |
| H5LongArraySetupImageLoaders.H5LongArraySetupImageLoader.GetMipmapTransforms | src/main/java/org/janelia/bdv/fusion/H5LongArraySetupImageLoader.java:146-150 | the one diagonal transform |
| H5LongArraySetupImageLoaders.H5LongArraySetupImageLoader.SetCache | src/main/java/org/janelia/bdv/fusion/H5LongArraySetupImageLoader.java:152-156 | the cache is replaced |
| H5LongArraySetupImageLoaders.H5LongArraySetupImageLoader.GetImage | src/main/java/org/janelia/bdv/fusion/H5LongArraySetupImageLoader.java:164-171 | a blocking request for this loader's own setup |
| H5LongArraySetupImageLoaders.H5LongArraySetupImageLoader.GetVolatileImage | src/main/java/org/janelia/bdv/fusion/H5LongArraySetupImageLoader.java:173-180 | a volatile request for this loader's own setup |
| CellFileImageMetaDatas.Slots | src/main/java/org/janelia/bdv/fusion/CellFileImageMetaData.java:70-76 | slot `k` holds the entry for key `k` and is empty exactly when the key is absent |
| CellFileImageMetaDatas.SlotsRoundTrip | src/main/java/org/janelia/bdv/fusion/CellFileImageMetaData.java:70-76 | no entry is lost or invented when the keys are level numbers |
| CellFileImageMetaDatas.MapToSlots | src/main/java/org/janelia/bdv/fusion/CellFileImageMetaData.java:72-75 | a fresh array of `numScales` slots filled key by key; a negative size or a key outside the array throws |
| CellFileImageMetaDatas.CalibratedTransform | src/main/java/org/janelia/bdv/fusion/CellFileImageMetaData.java:91-105 | only `(1, 1)` is multiplied by `vd1 / vd0` and `(2, 2)` by `vd2 / vd0`; every other entry is the stored one; too short rows or voxel sizes throw |
| CellFileImageMetaDatas.IsotropicKeepsTransform | src/main/java/org/janelia/bdv/fusion/CellFileImageMetaData.java:99-100 | equal voxel sizes leave the stored matrix unchanged |
| CellFileImageMetaDatas.DefaultTransformIsIdentity | src/main/java/org/janelia/bdv/fusion/CellFileImageMetaData.java:40-49 | the default matrix and voxel size give the identity transform |
| CellFileImageMetaDatas.CellFileImageMetaData.constructor | src/main/java/org/janelia/bdv/fusion/CellFileImageMetaData.java:34-49 | no levels, the identity matrix, display range 0 to 0xffff, and voxel size (1, 1, 1) in "nm" |
| CellFileImageMetaDatas.CellFileImageMetaData.GetUrlFormat | src/main/java/org/janelia/bdv/fusion/CellFileImageMetaData.java:52-55 | the stored cell file name pattern |
| CellFileImageMetaDatas.CellFileImageMetaData.GetImageType | src/main/java/org/janelia/bdv/fusion/CellFileImageMetaData.java:56-59 | the stored pixel type name |
| CellFileImageMetaDatas.CellFileImageMetaData.GetDisplayRangeMin | src/main/java/org/janelia/bdv/fusion/CellFileImageMetaData.java:61-64 | the stored lower display bound |
| CellFileImageMetaDatas.CellFileImageMetaData.GetDisplayRangeMax | src/main/java/org/janelia/bdv/fusion/CellFileImageMetaData.java:65-68 | the stored upper display bound |
| CellFileImageMetaDatas.CellFileImageMetaData.GetImageDimensions | src/main/java/org/janelia/bdv/fusion/CellFileImageMetaData.java:70-76 | level `k`'s image dimensions in slot `k` of an array of `numScales` slots |
| CellFileImageMetaDatas.CellFileImageMetaData.GetCellDimensions | src/main/java/org/janelia/bdv/fusion/CellFileImageMetaData.java:78-84 | level `k`'s cell dimensions in slot `k` of an array of `numScales` slots |
| CellFileImageMetaDatas.CellFileImageMetaData.GetVoxelDimensions | src/main/java/org/janelia/bdv/fusion/CellFileImageMetaData.java:86-89 | the stored unit and sizes |
| CellFileImageMetaDatas.CellFileImageMetaData.GetTransform | src/main/java/org/janelia/bdv/fusion/CellFileImageMetaData.java:91-105 | the calibrated transform, leaving the stored matrix untouched |
| CellFileImageLoaderFactories.CreateImageLoader | src/main/java/org/janelia/bdv/fusion/CellFileImageLoaderFactory.java:8-34 | "GRAY8" and "GRAY16" select their loaders, and every other tag selects the float loader; every branch passes the same four arguments in the same order |
| CellFileImageLoaderFactories.TagSelectsLoader | src/main/java/org/janelia/bdv/fusion/CellFileImageLoaderFactory.java:10-33 | every loader is reached from its own tag |
| CellFileImageLoaderFactories.SameLoaderIffSameClass | src/main/java/org/janelia/bdv/fusion/CellFileImageLoaderFactory.java:10-33 | two tags choose the same loader exactly when both are "GRAY8", both are "GRAY16", or neither is either |
| JavaText.NextWhitespace | src/main/java/net/imglib2/realtransform/io/SerializableTransform3D.java:159 | the first whitespace character at or after the start, or the end of the text |
| JavaText.DropTrailingEmpty | src/main/java/net/imglib2/realtransform/io/SerializableTransform3D.java:159 | `split` removes exactly the trailing empty strings |
| JavaText.SplitJoinSpaced | src/main/java/net/imglib2/realtransform/io/SerializableTransform3D.java:159 | splitting on `\s+` gives back the tokens that were written one space apart |
| JavaText.IntToString | src/main/java/net/imglib2/realtransform/io/SerializableTransform3D.java:239-240 | an appended `int` is a single token |
| JavaText.ParseInt | src/main/java/net/imglib2/realtransform/io/SerializableTransform3D.java:163-164 | a parsed value fits in an `int`; a failure is a `NumberFormatException` naming the input |
| JavaText.ParseIntToString | src/main/java/net/imglib2/realtransform/io/SerializableTransform3D.java:163-164 | `parseInt` reads back every `int` that `append` writes |
| SerializableTransform3Ds.WordRoundTrip | src/main/java/net/imglib2/realtransform/io/SerializableTransform3D.java:98-109 | the eight big-endian bytes of a word reassemble to the word |
| SerializableTransform3Ds.Pack | src/main/java/net/imglib2/realtransform/io/SerializableTransform3D.java:97-109 | the raw buffer has exactly `8 * n` bytes |
| SerializableTransform3Ds.UnpackPack | src/main/java/net/imglib2/realtransform/io/SerializableTransform3D.java:138-152 | unpacking inverts packing exactly |
| SerializableTransform3Ds.PutWordBytes | src/main/java/net/imglib2/realtransform/io/SerializableTransform3D.java:101-108 | one pass writes the word's eight bytes after `j`, most significant first, and nothing else |
| SerializableTransform3Ds.PackWords | src/main/java/net/imglib2/realtransform/io/SerializableTransform3D.java:97-109 | the packing loop fills a fresh buffer with every word's bytes in order |
| SerializableTransform3Ds.UnpackWords | src/main/java/net/imglib2/realtransform/io/SerializableTransform3D.java:138-152 | `n` words, each from the next eight bytes; a negative `n` or too few bytes throw |
| SerializableTransform3Ds.EncodeBase64 | src/main/java/net/imglib2/realtransform/io/SerializableTransform3D.java:95-119 | `'@'` plus the Base64 of the raw bytes when deflating does not shrink them, and the Base64 of the deflated bytes otherwise; a buffer size that overflows an `int` throws |
| SerializableTransform3Ds.DecodeBase64 | src/main/java/net/imglib2/realtransform/io/SerializableTransform3D.java:121-153 | the words or the exception of the decoding steps: the `'@'` branch skips inflation, and the other branch inflates into `8 * n` bytes |
| SerializableTransform3Ds.FrameRoundTrip | src/main/java/net/imglib2/realtransform/io/SerializableTransform3D.java:95-153 | whichever branch `encodeBase64` takes, `decodeBase64` with the word count gives the words back |
| SerializableTransform3Ds.RawRoundTrip | src/main/java/net/imglib2/realtransform/io/SerializableTransform3D.java:115-127 | the `'@'` branch round-trips |
| SerializableTransform3Ds.ZippedRoundTrip | src/main/java/net/imglib2/realtransform/io/SerializableTransform3D.java:110-137 | the deflated branch round-trips |
| SerializableTransform3Ds.Rethrown | src/main/java/net/imglib2/realtransform/io/SerializableTransform3D.java:181-185 | a data format failure becomes a `NumberFormatException` with the given message; every other exception passes through |
| SerializableTransform3Ds.ReadMatrix | src/main/java/net/imglib2/realtransform/io/SerializableTransform3D.java:186-190 | the matrix is filled row by row from the decoded values |
| SerializableTransform3Ds.ReadTranslation | src/main/java/net/imglib2/realtransform/io/SerializableTransform3D.java:191-195 | the translation is the values that follow the matrix |
| SerializableTransform3Ds.ReadAffine | src/main/java/net/imglib2/realtransform/io/SerializableTransform3D.java:186-195 | the matrix and translation are the affine part of the decoded block |
| SerializableTransform3Ds.ReadLandmarks | src/main/java/net/imglib2/realtransform/io/SerializableTransform3D.java:210-215 | the source landmarks are read landmark by landmark |
| SerializableTransform3Ds.ReadWeights | src/main/java/net/imglib2/realtransform/io/SerializableTransform3D.java:218-224 | the knot weights are the `nLm * ndims` values that follow |
| SerializableTransform3Ds.InitAffine | src/main/java/net/imglib2/realtransform/io/SerializableTransform3D.java:168-185 | "null" means no affine part; otherwise the decoded matrix and translation, or the rethrown decoding failure |
| SerializableTransform3Ds.InitLandmarks | src/main/java/net/imglib2/realtransform/io/SerializableTransform3D.java:198-224 | the decoded source landmarks and knot weights, or the rethrown decoding failure |
| SerializableTransform3Ds.InitTps | src/main/java/net/imglib2/realtransform/io/SerializableTransform3D.java:155-228 | the spline the text describes, or the exception `initTps` throws on it |
| SerializableTransform3Ds.WriteRows | src/main/java/net/imglib2/realtransform/io/SerializableTransform3D.java:248-253 | the rows of a matrix are written one after another |
| SerializableTransform3Ds.FillAffineBuffer | src/main/java/net/imglib2/realtransform/io/SerializableTransform3D.java:245-258 | the affine buffer is the matrix row by row, then the translation |
| SerializableTransform3Ds.FillLandmarkBuffer | src/main/java/net/imglib2/realtransform/io/SerializableTransform3D.java:261-273 | the landmark buffer is the coordinates landmark by landmark, then the knot weights |
| SerializableTransform3Ds.ToDataString | src/main/java/net/imglib2/realtransform/io/SerializableTransform3D.java:230-274 | the tokens "ThinPlateSplineR2LogR", `ndims`, `nLm`, "null" or the affine block, then the landmark block, one space apart |
| SerializableTransform3Ds.AffineBlockRoundTrip | src/main/java/net/imglib2/realtransform/io/SerializableTransform3D.java:186-195 | the affine part reads back from the block written at lines 245-258 |
| SerializableTransform3Ds.LandmarkBlockRoundTrip | src/main/java/net/imglib2/realtransform/io/SerializableTransform3D.java:207-224 | the landmarks and the knot weights read back from the block written at lines 261-273 |
| SerializableTransform3Ds.SplitDataString | src/main/java/net/imglib2/realtransform/io/SerializableTransform3D.java:159 | the written text splits back into its five fields |
| SerializableTransform3Ds.TpsRoundTrip | src/main/java/net/imglib2/realtransform/io/SerializableTransform3D.java:155-274 | `initTps` reads back exactly the spline `toDataString` wrote |
| SerializableTransform3Ds.SerializableTransform3D.constructor | src/main/java/net/imglib2/realtransform/io/SerializableTransform3D.java:35 | every field is null |
| SerializableTransform3Ds.SerializableTransform3D.Create | src/main/java/net/imglib2/realtransform/io/SerializableTransform3D.java:37-41 | as intended: the transform is stored and encoded by the corrected `encode`; an exception of `encode` escapes |
| SerializableTransform3Ds.SerializableTransform3D.CreateAsWritten | src/main/java/net/imglib2/realtransform/io/SerializableTransform3D.java:37-41 | as written: the transform is stored and encoded by the as-written `encode`, so a null transform throws `NullPointerException`; any other exception of `encode` escapes as well |
| SerializableTransform3Ds.SerializableTransform3D.Encode | src/main/java/net/imglib2/realtransform/io/SerializableTransform3D.java:69-90 | the fields `encode` writes for a spline, an affine transform or (as intended) no transform |
| SerializableTransform3Ds.SerializableTransform3D.EncodeAsWritten | src/main/java/net/imglib2/realtransform/io/SerializableTransform3D.java:69-90 | as written: a null transform sets both strings to "" and throws `NullPointerException`; any other transform is encoded as by the corrected `encode`; the transform itself is unchanged |
| SerializableTransform3Ds.EncodeNullAsWrittenThrows | src/main/java/net/imglib2/realtransform/io/SerializableTransform3D.java:69-77 | on a null transform the as-written `encode` throws `NullPointerException`, where the corrected one succeeds |
| SerializableTransform3Ds.EncodeNullBuildsIdentity | src/main/java/net/imglib2/realtransform/io/SerializableTransform3D.java:57-75 | after the corrected `encode` of a null transform, `buildTransform` gives the identity translation |
| SerializableTransform3Ds.SerializableTransform3D.BuildTransform | src/main/java/net/imglib2/realtransform/io/SerializableTransform3D.java:51-67 | the spline class name builds a spline, "" the identity, and any other tag an affine transform |
| SerializableTransform3Ds.SerializableTransform3D.GetTransform | src/main/java/net/imglib2/realtransform/io/SerializableTransform3D.java:43-49 | the transient transform when there is one, otherwise the transform built from the fields |
| SerializableTransform3Ds.EncodeBuildRoundTrip | src/main/java/net/imglib2/realtransform/io/SerializableTransform3D.java:51-90 | building from what `encode` writes gives the transform back; `encode` fails exactly on transforms it cannot cast |
| SerializableTransform3Ds.AffineTransform3DRoundTrip | src/main/java/net/imglib2/realtransform/io/SerializableTransform3D.java:61-66 | an `AffineTransform3D` survives serialisation unchanged |
| AbstractArrayTypes.MoveKeepsAligned | src/main/java/net/imglib2/type/numeric/array/AbstractArrayType.java:97-123 | moving by `k` pixels keeps `i == index * length`, in wrapped `int` arithmetic |
| AbstractArrayTypes.MoveBackRestores | src/main/java/net/imglib2/type/numeric/array/AbstractArrayType.java:104-123 | `incIndex(k)` then `decIndex(k)` returns to the same slot and pixel |
| AbstractArrayTypes.AbstractArrayType.FromImg | src/main/java/net/imglib2/type/numeric/array/AbstractArrayType.java:58-63 | a fresh type is at pixel 0, slot 0, with no access yet |
| AbstractArrayTypes.AbstractArrayType.FromAccess | src/main/java/net/imglib2/type/numeric/array/AbstractArrayType.java:65-71 | a fresh type is at pixel 0, slot 0, over the given access and with no image |
| AbstractArrayTypes.AbstractArrayType.GetEntitiesPerPixel | src/main/java/net/imglib2/type/numeric/array/AbstractArrayType.java:73-77 | `length / 1` entities per pixel |
| AbstractArrayTypes.AbstractArrayType.UpdateContainer | src/main/java/net/imglib2/type/numeric/array/AbstractArrayType.java:79-83 | the access becomes the one the image hands out; without an image, a `NullPointerException` |
| AbstractArrayTypes.UpdatedIndex | src/main/java/net/imglib2/type/numeric/array/AbstractArrayType.java:85-89 | as intended: the new pixel is `k` and the slot is its first one, so `i == index * length` (wrapped to an `int`) holds again |
| AbstractArrayTypes.UpdateIndexAsWrittenIgnoresTarget | src/main/java/net/imglib2/type/numeric/array/AbstractArrayType.java:85-89 | as written, `updateIndex(3)` leaves a fresh type of length 1 at pixel 0; the intended update moves it to pixel 3 |
| AbstractArrayTypes.AbstractArrayType.UpdateIndexAsWritten | src/main/java/net/imglib2/type/numeric/array/AbstractArrayType.java:85-89 | as written: the assignment goes to the parameter, so the slot and the pixel stay what they were |
| AbstractArrayTypes.AbstractArrayType.UpdateIndex | src/main/java/net/imglib2/type/numeric/array/AbstractArrayType.java:85-89 | as intended: the type points at pixel `k`, slot `k * length` wrapped to an `int`, and keeps its access |
| AbstractArrayTypes.AbstractArrayType.GetIndex | src/main/java/net/imglib2/type/numeric/array/AbstractArrayType.java:91-95 | the current pixel index |
| AbstractArrayTypes.AbstractArrayType.IncIndex | src/main/java/net/imglib2/type/numeric/array/AbstractArrayType.java:97-102 | `i` moves by `length` and `index` by 1, keeping the alignment |
| AbstractArrayTypes.AbstractArrayType.IncIndexBy | src/main/java/net/imglib2/type/numeric/array/AbstractArrayType.java:104-109 | `i` moves by `k * length` and `index` by `k`, keeping the alignment |
| AbstractArrayTypes.AbstractArrayType.DecIndex | src/main/java/net/imglib2/type/numeric/array/AbstractArrayType.java:111-116 | `i` moves back by `length` and `index` by 1, keeping the alignment |
| AbstractArrayTypes.AbstractArrayType.DecIndexBy | src/main/java/net/imglib2/type/numeric/array/AbstractArrayType.java:118-123 | `i` moves back by `k * length` and `index` by `k`, keeping the alignment |
| LongArrayTypes.Combined | src/main/java/net/imglib2/type/numeric/array/LongArrayType.java:159-220 | an element-wise operation keeps the length of the access it updates |
| LongArrayTypes.FirstZero | src/main/java/net/imglib2/type/numeric/array/LongArrayType.java:211-220 | the number of divisions `div` completes before the first zero divisor |
| LongArrayTypes.SubUndoesAdd | src/main/java/net/imglib2/type/numeric/array/LongArrayType.java:178-209 | `sub(c)` after `add(c)` restores every slot, through wrap-around |
| LongArrayTypes.CopyMakesEqual | src/main/java/net/imglib2/type/numeric/array/LongArrayType.java:159-165 | after `set(c)` the combined run equals `c`'s values |
| LongArrayTypes.HashStep | src/main/java/net/imglib2/type/numeric/array/LongArrayType.java:126-129 | one pass of the hash loop is `31 * h + elementHash` in `int` arithmetic |
| LongArrayTypes.SmallElementHash | src/main/java/net/imglib2/type/numeric/array/LongArrayType.java:127 | the element hash of a small non-negative long is the long itself |
| LongArrayTypes.LongArrayType.FromValues | src/main/java/net/imglib2/type/numeric/array/LongArrayType.java:57-61 | a variable at pixel 0 whose value is the given array |
| LongArrayTypes.LongArrayType.FromImg | src/main/java/net/imglib2/type/numeric/array/LongArrayType.java:51-55 | a type on the image, with no access until `updateContainer` |
| LongArrayTypes.LongArrayType.FromAccess | src/main/java/net/imglib2/type/numeric/array/LongArrayType.java:63-67 | a type over the given access, at pixel 0 |
| LongArrayTypes.LongArrayType.WithLength | src/main/java/net/imglib2/type/numeric/array/LongArrayType.java:69-73 | a variable of `length` zeros over a fresh array |
| LongArrayTypes.LongArrayType.DuplicateTypeOnSameNativeImg | src/main/java/net/imglib2/type/numeric/array/LongArrayType.java:95-99 | a new type on the same image with the same length |
| LongArrayTypes.LongArrayType.Get | src/main/java/net/imglib2/type/numeric/array/LongArrayType.java:107-110 | absolute slot `i + k`; out of range or with no access, the Java exception |
| LongArrayTypes.LongArrayType.Set | src/main/java/net/imglib2/type/numeric/array/LongArrayType.java:112-115 | absolute slot `i + k` takes the value and nothing else changes; out of range or with no access, the Java exception |
| LongArrayTypes.LongArrayType.Copy | src/main/java/net/imglib2/type/numeric/array/LongArrayType.java:149-157 | a fresh variable whose `length` values are slots `i .. i + length - 1` |
| LongArrayTypes.LongArrayType.SetFrom | src/main/java/net/imglib2/type/numeric/array/LongArrayType.java:159-165 | the first `min(length, c.length)` values become `c`'s, and all other slots are unchanged |
| LongArrayTypes.LongArrayType.Add | src/main/java/net/imglib2/type/numeric/array/LongArrayType.java:178-187 | element-wise wrapped addition over the first `min(length, c.length)` values |
| LongArrayTypes.LongArrayType.Sub | src/main/java/net/imglib2/type/numeric/array/LongArrayType.java:200-209 | element-wise wrapped subtraction over the first `min(length, c.length)` values |
| LongArrayTypes.LongArrayType.Mul | src/main/java/net/imglib2/type/numeric/array/LongArrayType.java:189-198 | element-wise wrapped multiplication over the first `min(length, c.length)` values |
| LongArrayTypes.LongArrayType.Div | src/main/java/net/imglib2/type/numeric/array/LongArrayType.java:211-220 | element-wise truncating division; a zero divisor throws after the divisions before it have been written |
| LongArrayTypes.LongArrayType.ValueEquals | src/main/java/net/imglib2/type/numeric/array/LongArrayType.java:167-176 | true exactly when the lengths agree and every value agrees |
| LongArrayTypes.LongArrayType.FillAsWritten | src/main/java/net/imglib2/type/numeric/array/LongArrayType.java:222-236 | as written: the slots from `2i` on take the value up to `2i + length - 1` or the end of the access, whichever comes first; `ArrayIndexOutOfBoundsException` unless the length is 0 or all `length` slots exist |
| LongArrayTypes.LongArrayType.SetZeroAsWritten | src/main/java/net/imglib2/type/numeric/array/LongArrayType.java:230-236 | as written: slots `2i .. 2i + length - 1` that exist become 0; `ArrayIndexOutOfBoundsException` when some do not |
| LongArrayTypes.LongArrayType.SetOneAsWritten | src/main/java/net/imglib2/type/numeric/array/LongArrayType.java:222-228 | as written: slots `2i .. 2i + length - 1` that exist become 1; `ArrayIndexOutOfBoundsException` when some do not |
| LongArrayTypes.LongArrayType.SetZero | src/main/java/net/imglib2/type/numeric/array/LongArrayType.java:230-236 | the current pixel's values become 0 and nothing else changes |
| LongArrayTypes.LongArrayType.SetOne | src/main/java/net/imglib2/type/numeric/array/LongArrayType.java:222-228 | the current pixel's values become 1 and nothing else changes |
| LongArrayTypes.SetZeroAsWrittenMissesElement | src/main/java/net/imglib2/type/numeric/array/LongArrayType.java:230-236 | as written, `setZero` on the type at slot 1 of `[3, 4, 5]` leaves its value 4 in place; the intended fill clears slot 1 |
| LongArrayTypes.LongArrayType.HashCodeAsWritten | src/main/java/net/imglib2/type/numeric/array/LongArrayType.java:117-132 | as written: 0 for length 0, otherwise the `31 * h + elementHash` fold over slots `0 .. length - 1`, whatever pixel the type points at |
| LongArrayTypes.HashCodeAsWrittenIgnoresPosition | src/main/java/net/imglib2/type/numeric/array/LongArrayType.java:123-129 | as written, a type at slot 1 of `[5, 7]` and a type at slot 0 of `[7]` hold the same value but hash differently |
| LongArrayTypes.LongArrayType.HashCode | src/main/java/net/imglib2/type/numeric/array/LongArrayType.java:117-132 | 0 for length 0, otherwise the `31 * h + elementHash` fold over the current pixel's values |
| LongArrayTypes.LongArrayType.CreateVariable | src/main/java/net/imglib2/type/numeric/array/LongArrayType.java:137-141 | a zero variable of one value, whatever this type's length |
| LongArrayTypes.LongArrayType.CreateVariableOf | src/main/java/net/imglib2/type/numeric/array/LongArrayType.java:144-147 | a zero variable of `length` values |
| VolatileArrays.VolatileArray.Wrap | src/main/java/org/janelia/bdv/fusion/CellFileUnsignedByteArrayLoader.java:161 | the volatile array holds the given buffer with the given flag |
| VolatileArrays.VolatileArray.Zeros | src/main/java/org/janelia/bdv/fusion/CellFileUnsignedByteArrayLoader.java:84 | a fresh zero buffer of the given length with the given flag |
| VolatileLongArrayTypes.VolatileLongArrayType.FromImg | src/main/java/net/imglib2/type/numeric/array/VolatileLongArrayType.java:72-76 | a type on an image starts invalid, with no access |
| VolatileLongArrayTypes.VolatileLongArrayType.FromAccess | src/main/java/net/imglib2/type/numeric/array/VolatileLongArrayType.java:79-83 | the validity is the access's flag, and there is no image |
| VolatileLongArrayTypes.VolatileLongArrayType.FromValues | src/main/java/net/imglib2/type/numeric/array/VolatileLongArrayType.java:86-89 | a valid variable whose value is the given array |
| VolatileLongArrayTypes.VolatileLongArrayType.WithLength | src/main/java/net/imglib2/type/numeric/array/VolatileLongArrayType.java:92-95 | a valid variable of `length` zeros |
| VolatileLongArrayTypes.VolatileLongArrayType.Set | src/main/java/net/imglib2/type/numeric/array/VolatileLongArrayType.java:97-100 | `set(v, k)` on the wrapped type |
| VolatileLongArrayTypes.VolatileLongArrayType.UpdateContainer | src/main/java/net/imglib2/type/numeric/array/VolatileLongArrayType.java:102-108 | the wrapped access becomes the updated one and the validity its flag; without an image, a `NullPointerException` |
| VolatileLongArrayTypes.VolatileLongArrayType.DuplicateTypeOnSameNativeImg | src/main/java/net/imglib2/type/numeric/array/VolatileLongArrayType.java:110-114 | a new invalid type sharing the image and the length |
| VolatileLongArrayTypes.VolatileLongArrayType.CreateVariable | src/main/java/net/imglib2/type/numeric/array/VolatileLongArrayType.java:116-120 | a valid zero variable of the same length |
| VolatileLongArrayTypes.VolatileLongArrayType.SetFrom | src/main/java/net/imglib2/type/numeric/array/VolatileLongArrayType.java:126 | the wrapped type takes `c`'s values and the validity becomes `c`'s |
| VolatileLongArrayTypes.VolatileLongArrayType.Copy | src/main/java/net/imglib2/type/numeric/array/VolatileLongArrayType.java:122-128 | a fresh variable with the same length, values and validity |
| VolatileLongArrayTypes.VolatileLongArrayType.CreateSuitableNativeImg | src/main/java/net/imglib2/type/numeric/array/VolatileLongArrayType.java:130-135 | always `UnsupportedOperationException` |
| VolatileFloatArrayTypes.Copied | src/main/java/net/imglib2/type/numeric/array/FloatArrayType.java:160-166 | copying a run keeps the array's length |
| VolatileFloatArrayTypes.CopiedRun | src/main/java/net/imglib2/type/numeric/array/FloatArrayType.java:160-166 | after `set(c)` the target run holds `c`'s values and every other slot is unchanged |
| VolatileFloatArrayTypes.WrappedFloatArrayType.FromImg | src/main/java/net/imglib2/type/numeric/array/VolatileFloatArrayType.java:55-58 | a type on an image, with neither access set |
| VolatileFloatArrayTypes.WrappedFloatArrayType.FromAccess | src/main/java/net/imglib2/type/numeric/array/VolatileFloatArrayType.java:60-63 | as intended: the access `get` and `set` use is the given one |
| VolatileFloatArrayTypes.WrappedFloatArrayType.FromAccessAsWritten | src/main/java/net/imglib2/type/numeric/array/FloatArrayType.java:51-69 | as written: the access lands in the superclass's `dataAccess`, while the re-declared field that `get` and `set` read stays null; pixel 0, no image |
| VolatileFloatArrayTypes.WrappedFloatArrayType.SetAccess | src/main/java/net/imglib2/type/numeric/array/VolatileFloatArrayType.java:65-68 | the access `get` and `set` use becomes the given one |
| VolatileFloatArrayTypes.WrappedFloatArrayType.Get | src/main/java/net/imglib2/type/numeric/array/FloatArrayType.java:109-112 | absolute slot `i + k` of the type's own access; the Java exception when it is missing or the slot is out of range |
| VolatileFloatArrayTypes.WrappedFloatArrayType.Set | src/main/java/net/imglib2/type/numeric/array/FloatArrayType.java:114-117 | absolute slot `i + k` of the type's own access takes the value; the Java exception when it is missing or the slot is out of range |
| VolatileFloatArrayTypes.WrappedFloatArrayType.SetFrom | src/main/java/net/imglib2/type/numeric/array/FloatArrayType.java:160-166 | the first `min(length, c.length)` values become `c`'s, or the `NullPointerException` a missing access causes |
| VolatileFloatArrayTypes.VolatileFloatArrayType.FromImg | src/main/java/net/imglib2/type/numeric/array/VolatileFloatArrayType.java:72-76 | a type on an image starts invalid, with no access |
| VolatileFloatArrayTypes.VolatileFloatArrayType.FromAccess | src/main/java/net/imglib2/type/numeric/array/VolatileFloatArrayType.java:79-83 | as intended: the validity is the access's flag and `get`/`set` read that access |
| VolatileFloatArrayTypes.VolatileFloatArrayType.FromAccessAsWritten | src/main/java/net/imglib2/type/numeric/array/VolatileFloatArrayType.java:79-83 | as written: the validity is the access's flag and there is no image, but the wrapped type's `get`/`set` have no access |
| VolatileFloatArrayTypes.VolatileFloatArrayType.FromValues | src/main/java/net/imglib2/type/numeric/array/VolatileFloatArrayType.java:86-89 | as intended: a valid variable whose value is the given array |
| VolatileFloatArrayTypes.VolatileFloatArrayType.WithLength | src/main/java/net/imglib2/type/numeric/array/VolatileFloatArrayType.java:92-95 | as intended: a valid variable of `length` zeros |
| VolatileFloatArrayTypes.VolatileFloatArrayType.WithLengthAsWritten | src/main/java/net/imglib2/type/numeric/array/VolatileFloatArrayType.java:86-95 | as written: a valid variable of `length` values at pixel 0 whose wrapped type's `get`/`set` have no access |
| VolatileFloatArrayTypes.VolatileFloatArrayType.Set | src/main/java/net/imglib2/type/numeric/array/VolatileFloatArrayType.java:102-105 | `set(f, k)` on the wrapped type |
| VolatileFloatArrayTypes.VolatileFloatArrayType.UpdateContainer | src/main/java/net/imglib2/type/numeric/array/VolatileFloatArrayType.java:107-113 | the wrapped access becomes the updated one and the validity its flag; without an image, a `NullPointerException` |
| VolatileFloatArrayTypes.VolatileFloatArrayType.DuplicateTypeOnSameNativeImg | src/main/java/net/imglib2/type/numeric/array/VolatileFloatArrayType.java:115-119 | a new invalid type sharing the image and the length |
| VolatileFloatArrayTypes.VolatileFloatArrayType.CreateVariable | src/main/java/net/imglib2/type/numeric/array/VolatileFloatArrayType.java:121-125 | as intended: a valid zero variable of the same length |
| VolatileFloatArrayTypes.VolatileFloatArrayType.CreateVariableAsWritten | src/main/java/net/imglib2/type/numeric/array/VolatileFloatArrayType.java:121-125 | as written: a fresh valid variable of the same length, with no image and no access for `get`/`set` |
| VolatileFloatArrayTypes.VolatileFloatArrayType.SetFrom | src/main/java/net/imglib2/type/numeric/array/VolatileFloatArrayType.java:131 | the wrapped type takes `c`'s values and, on success, the validity becomes `c`'s |
| VolatileFloatArrayTypes.VolatileFloatArrayType.Copy | src/main/java/net/imglib2/type/numeric/array/VolatileFloatArrayType.java:127-133 | as intended: a fresh variable with the same length, values and validity |
| VolatileFloatArrayTypes.VolatileFloatArrayType.CopyAsWritten | src/main/java/net/imglib2/type/numeric/array/VolatileFloatArrayType.java:127-133 | as written: `NullPointerException` whenever there is a value to copy; a type of length 0 gives a length-0 variable with the same validity |
| VolatileFloatArrayTypes.VolatileFloatArrayType.CreateSuitableNativeImg | src/main/java/net/imglib2/type/numeric/array/VolatileFloatArrayType.java:135-140 | always `UnsupportedOperationException` |
| JavaInt.Wrap32 | src/main/java/net/imglib2/type/numeric/array/AbstractArrayType.java:97-123 | an `int` congruent to the exact value modulo 2^32, equal to it when it fits |
| JavaInt.Wrap64 | src/main/java/net/imglib2/type/numeric/array/LongArrayType.java:178-198 | a `long` congruent to the exact value modulo 2^64, equal to it when it fits |
| JavaInt.Div | src/main/java/net/imglib2/type/numeric/array/LongArrayType.java:211-220 | Java's quotient, truncated toward zero, for either sign of dividend and divisor |
| JavaInt.Shl1 | src/main/java/org/janelia/bdv/fusion/CellFileUnsignedShortImageLoader.java:79 | `1 << i` is `2^i` below 31 and always an `int` |

## Left out

- `VolatileGlobalCellCache`, `CachedCellImg`, `VolatileImgCells` and `CacheHints` belong to BigDataViewer. They appear only as the arguments this repository passes them (`Mipmaps.CellCache`, `Mipmaps.CacheRequest`). The linked types of `getImage` and `getVolatileImage` are not modelled.
- File existence, `IJ.openImage`, `ImagePlusImgs.from`, `ImageConverter` and the HDF5 reader are I/O. Each is an oracle parameter: a storage map, a conversion function, or a block reader.
- `H5LongArrayArrayLoaders.ReadBlock`: `None` stands for a read whose flat array is `null`, the one case the loader's fallback handles. The model maps a block outside the dataset to `None`. What `readMDArrayBlockWithOffset` does for such a block is foreign code and is not modelled; it presumably throws.
- `AbstractCellFileArrayLoaders.AbstractCellFileArrayLoader.LoadArray`: which image types `ImagePlusImgs.from` presents as `T` is a constructor parameter (`pixelKinds`), not derived from ImageJ.
- `Utils.workaroundImagePlusNSlices` is I/O-side repair of an `ImagePlus`. It is taken to leave the image unchanged.
- `String.format( cellFormat, ... )` is represented by its argument tuple (`CellFiles.Locator`). The file name pattern itself is not modelled.
- Stitching resampling is an abstract `sample(tile, p)`: interpolation, `RealViews.affine` and the tile's `Translation3D` are floating point and foreign.
- `StitchingVolatileShortArrayLoaders.StitchingVolatileShortArrayLoader.LoadArray`: the pixel type of each opened tile is an oracle parameter, `kindOf`. Which types `ImagePlusImgs.from` turns into `UnsignedShortType` is taken to be exactly the 16-bit gray images.
- `TileOperations.findTilesWithinSubregion` and `TileInfo.getBoundaries` are external. The candidate tiles and their boxes are inputs.
- `StitchingVolatileShortArrayLoaders.StitchingVolatileShortArrayLoader.LoadArray` requires every candidate tile to overlap the cell. That is what `findTilesWithinSubregion` promises, and an empty `Intervals.intersect` is never iterated.
- The `LoadArray` methods of the file loaders and the stitching loader require `CellFiles.ValidCellDims`: three non-negative extents whose product fits in an `int`. These are what the cache hands a loader. They also require a level inside `cellSizes` and three pixel offsets, which the cache's cell grid supplies; a zero or missing cell-size entry is modelled as the exception it throws. `H5LongArrayArrayLoaders.H5LongArrayArrayLoader.LoadArray` does not, and models the negative fallback length.
- `AbstractCellFileImageLoaders.AbstractCellFileImageLoader.constructor` requires one factor row per level with at most three factors. Java would otherwise throw `ArrayIndexOutOfBoundsException` from the factor index or from `AffineTransform3D.set`, which is not modelled.
- `H5LongArraySetupImageLoaders.H5LongArraySetupImageLoader.constructor` requires a readable resolution attribute and four dataset dimensions. The exception a shorter attribute throws is modelled by `ReadResolution`, not by the constructor.
- `CellFileUnsignedShortImageLoaders.CellFileUnsignedShortImageLoader.GetNumScales` requires one non-negative tile side, which makes the loop end. Repeated shifting brings a side down to 0, or to -1 if it is negative. With both tile sides negative the Java loop can therefore run forever, for example with both tile sides at -2 or below. Other negative tile sides, such as -1 against a negative side, still end, and the model does not cover them.
- `CellFileImageMetaDatas.CellFileImageMetaData.GetTransform`: requires a non-zero first voxel size. `CellFileImageMetaDatas.CalibratedTransform` has the same requirement. Java's double division would give an infinity or NaN, which reals do not have.
- All `double` values are Dafny reals, with exact arithmetic. Float rounding is not modelled.
- `SerializableTransform3Ds.EncodeBase64` requires a source of at most `INT_MAX` words, the bound every Java array has.
- `SerializableTransform3Ds.ToDataString` and `SerializableTransform3Ds.SerializableTransform3D.Encode` require `EncodeReady`: the spline's arrays have their declared shapes and its blocks fit in an `int`. Splines built by `ThinPlateR2LogRSplineKernelTransform` always satisfy this.
- `ThinPlateR2LogRSplineKernelTransform` and `AffineTransform3D` are records, with doubles as their 64-bit words (`Double.doubleToLongBits` and back). NaN canonicalisation is not modelled.
- `Deflater`, `Inflater` and Base64 are oracle functions. The round trips assume the `Codecs` hypothesis.
- Gson serialisation of the fields is not modelled.
- `Integer.parseInt` accepts only ASCII digits here. Java also accepts other Unicode decimal digits.
- The `LongArrayTypes.LongArrayType` operations, and `VolatileLongArrayTypes.VolatileLongArrayType.SetFrom` and `Copy`, require the type to be positioned on an existing pixel, and for two types, distinct arrays. A Java call on an overlapping pair reads values it has already written. That aliasing is not modelled.
- `VolatileFloatArrayTypes.WrappedFloatArrayType.SetFrom`: once both accesses exist, requires positioned types over distinct arrays. The `ArrayIndexOutOfBoundsException` of a pixel past the end, after the slots before it are copied, and the aliasing of one array are not modelled.
- `VolatileFloatArrayTypes.VolatileFloatArrayType.SetFrom`: the same requirement as the wrapped `SetFrom`, for the same reason.
- `VolatileFloatArrayTypes.VolatileFloatArrayType.Copy`: requires a positioned type. The `ArrayIndexOutOfBoundsException` of a pixel whose slots do not all exist is not modelled.
- `LongArrayTypes.LongArrayType.WithLength` requires a non-negative length. So do `LongArrayTypes.LongArrayType.CreateVariableOf`, `VolatileLongArrayTypes.VolatileLongArrayType.WithLength` and `CreateVariable`, and `VolatileFloatArrayTypes.VolatileFloatArrayType.WithLength`, `WithLengthAsWritten`, `CreateVariable`, `CreateVariableAsWritten` and `CopyAsWritten`. The `NegativeArraySizeException` is not modelled.
- `mul(float)`, `mul(double)` and `DoubleArrayType` use floating-point arithmetic and are left out. Every `createSuitableNativeImg` that uses a foreign factory is left out too. The volatile ones, which always throw, are modelled.
- Of `FloatArrayType`, only what `VolatileFloatArrayType` relies on is modelled: the shadowing `dataAccess`, `get`, `set` and `set(c)`. Float values are opaque 32-bit patterns.
- `AbstractVolatileNativeNumericType` is not part of this model. Its `set(c)` is taken to be `t.set(c.t)` followed by taking over `c`'s validity flag.
- `VolatileFloatArrayType.size()` calls `t.size()`, which `FloatArrayType` does not declare. It is left out.
- `CellFileImageLoaderFactory` passes four arguments to the unsigned-short image loader, whose constructor takes three. It also calls `getDownsampleFactors`, which `CellFileImageMetaData` does not declare.
  - The factory is modelled as the tuple of its arguments.
  - The unsigned-short loader is modelled by its own three-argument constructor.
- `CellFileFloatImageLoader`, `StitchingUnsignedShortLoader` and `CellFileUnsignedByteImageLoader` are not modelled. They are thin wrappers whose constructor calls do not match the constructors shown.
- The viewer, UI, `bigwarp` drivers, `PropagateLandmarkChanges` and `WarpedJsonImageLoader` are not modelled.
- Nothing in the core is concurrent. Console printing in the catch blocks is dropped.
- The unsigned-short array loader's documentation speaks of column, row and slice indices, but the code passes pixel offsets. The model follows the code.

## Findings

| source | as written | input that shows it | evidently intended | confidence | as-written member | corrected member |
|---|---|---|---|---|---|---|
| src/main/java/net/imglib2/type/numeric/array/LongArrayType.java:222-236 | `setZero`/`setOne` loop `j` over `[i, i + length)` and call `set(v, j)`, which adds `i` again, so slots `2i .. 2i + length - 1` are written, and the first of them past the end throws `ArrayIndexOutOfBoundsException` | a type at `i == 1`, length 1, over `[3, 4, 5]`: `setZero` clears slot 2 and slot 1 keeps 4; at `i == 2`, length 1, it throws although slot 2 exists | the current pixel's slots `i .. i + length - 1` | high, not executed | LongArrayTypes.LongArrayType.FillAsWritten, LongArrayTypes.LongArrayType.SetZeroAsWritten, LongArrayTypes.LongArrayType.SetOneAsWritten, LongArrayTypes.SetZeroAsWrittenMissesElement | LongArrayTypes.LongArrayType.SetZero, LongArrayTypes.LongArrayType.SetOne |
| src/main/java/net/imglib2/type/numeric/array/LongArrayType.java:117-132 | `hashCode` reads `dataAccess.getValue(j)` for `j < length`, ignoring `i` | over `[5, 7]` with length 1, the pixel at `i == 1` hashes the value 5 | the hash of slots `i .. i + length - 1`, so that value-equal types hash alike | high, not executed | LongArrayTypes.LongArrayType.HashCodeAsWritten, LongArrayTypes.HashCodeAsWrittenIgnoresPosition | LongArrayTypes.LongArrayType.HashCode |
| src/main/java/net/imglib2/type/numeric/array/AbstractArrayType.java:85-89 | `updateIndex(i)` assigns `i * length` to its parameter `i`, which shadows the field, and leaves the fields unchanged | `updateIndex(3)` on a fresh type of length 1 leaves `index == 0` | `index = k` and `i = k * length` | high, not executed | AbstractArrayTypes.AbstractArrayType.UpdateIndexAsWritten, AbstractArrayTypes.UpdateIndexAsWrittenIgnoresTarget | AbstractArrayTypes.AbstractArrayType.UpdateIndex, AbstractArrayTypes.UpdatedIndex |
| src/main/java/net/imglib2/realtransform/io/SerializableTransform3D.java:69-90 | the null-transform branch sets both strings to "" and then falls through to `transform.getClass()` | `new SerializableTransform3D(null)` throws `NullPointerException` | return after recording the identity, which `buildTransform` already handles for "" | medium, not executed | SerializableTransform3Ds.SerializableTransform3D.EncodeAsWritten, SerializableTransform3Ds.SerializableTransform3D.CreateAsWritten, SerializableTransform3Ds.EncodeNullAsWrittenThrows | SerializableTransform3Ds.SerializableTransform3D.Encode, SerializableTransform3Ds.SerializableTransform3D.Create, SerializableTransform3Ds.EncodeNullBuildsIdentity |
| src/main/java/net/imglib2/type/numeric/array/FloatArrayType.java:51 | `FloatArrayType` re-declares `dataAccess`, so the super constructor fills the hidden field while `get`/`set` read the new one, which stays null | `new VolatileFloatArrayType(1).copy()` throws `NullPointerException` in `set(c)` | one access field, as in `LongArrayType` | high, not executed | VolatileFloatArrayTypes.VolatileFloatArrayType.CopyAsWritten, VolatileFloatArrayTypes.VolatileFloatArrayType.CreateVariableAsWritten, VolatileFloatArrayTypes.VolatileFloatArrayType.WithLengthAsWritten, VolatileFloatArrayTypes.WrappedFloatArrayType.FromAccessAsWritten | VolatileFloatArrayTypes.VolatileFloatArrayType.Copy, VolatileFloatArrayTypes.VolatileFloatArrayType.CreateVariable, VolatileFloatArrayTypes.VolatileFloatArrayType.WithLength, VolatileFloatArrayTypes.WrappedFloatArrayType.FromAccess |
