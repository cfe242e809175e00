/** `H5LongArrayArrayLoader`: cells of an HDF5 dataset of `long` arrays. The
    dataset's extent is stored slowest axis first (z, y, x, element), so a
    cell of extent `(d0, d1, d2)` at `(m0, m1, m2)` is read as the block of
    size `[d2, d1, d0, arrayLength]` at offset `[m2, m1, m0, 0]`; its
    row-major order puts the array element innermost and x next, which is
    the order of the `LongArrayType` pixels the cell backs. */
module H5LongArrayArrayLoaders {
  import opened Wrappers
  import opened JavaInt
  import opened CellGeometry
  import opened VolatileArrays
  import opened CellFiles

  /** A four-dimensional HDF5 dataset of longs: a volume of `extent` voxels
      (x, y, z), each an array of `arrayLength` longs, stored in row-major
      order of the HDF5 axes (z, y, x, element). */
  datatype Dataset = Dataset(extent: Vec3, arrayLength: int, data: seq<int>)
  {
    /** The dataset's dimensions as `getDimensions` reports them. */
    function Dims(): seq<int> { [extent.z, extent.y, extent.x, arrayLength] }

    predicate WellFormed()
    {
      NonNegative(extent) && arrayLength > 0 && |data| == arrayLength * Volume(extent)
    }
  }

  /** The row-major slot of element `e` of voxel `p`. */
  function Slot(p: Vec3, e: int, extent: Vec3, length: int): int
  {
    e + length * FlatIndex(p, extent)
  }

  lemma SlotInRange(p: Vec3, e: int, extent: Vec3, length: int)
    requires InExtent(p, extent) && 0 <= e < length
    ensures 0 <= Slot(p, e, extent, length) < length * Volume(extent)
  {
    FlatIndexInRange(p, extent);
    MulLeMono(FlatIndex(p, extent), Volume(extent) - 1, length);
    MulLeMono(0, FlatIndex(p, extent), length);
  }

  /** Slots and (voxel, element) pairs correspond one to one. */
  lemma SlotDecode(p: Vec3, e: int, extent: Vec3, length: int)
    requires InExtent(p, extent) && 0 <= e < length
    ensures Slot(p, e, extent, length) % length == e
    ensures Coord(Slot(p, e, extent, length) / length, extent) == p
  {
    DivModUnique(Slot(p, e, extent, length), length, FlatIndex(p, extent), e);
    FlatIndexCoord(p, extent);
  }

  lemma SlotEncode(k: int, extent: Vec3, length: int)
    requires NonNegative(extent) && length > 0 && 0 <= k < length * Volume(extent)
    ensures InExtent(Coord(k / length, extent), extent)
    ensures Slot(Coord(k / length, extent), k % length, extent, length) == k
  {
    var j := k / length;
    if j >= Volume(extent) {
      MulLeMono(Volume(extent), j, length);
      assert false;
    }
    CoordFlatIndex(j, extent);
  }

  /** Element `e` of voxel `p` of the dataset. */
  function At(ds: Dataset, p: Vec3, e: int): int
    requires ds.WellFormed() && InExtent(p, ds.extent) && 0 <= e < ds.arrayLength
  {
    SlotInRange(p, e, ds.extent, ds.arrayLength);
    ds.data[Slot(p, e, ds.extent, ds.arrayLength)]
  }

  /** A block of `size` at `offset` (both in HDF5 axis order) lies in the
      dataset and holds at least one element per voxel. */
  predicate BlockFits(ds: Dataset, size: seq<int>, offset: seq<int>)
  {
    && |size| == 4 && |offset| == 4
    && (forall a :: 0 <= a < 4 ==> 0 <= size[a] && 0 <= offset[a] && offset[a] + size[a] <= ds.Dims()[a])
    && size[3] > 0
  }

  /** `readMDArrayBlockWithOffset( dataset, size, offset ).getAsFlatArray()`
      on a dataset: the block in row-major order of the HDF5 axes. `None`
      stands for a read whose flat array is `null`; the model takes a block
      that does not lie in the dataset to be such a read, which the reader's
      own behaviour there need not match. */
  function ReadBlock(ds: Dataset, size: seq<int>, offset: seq<int>): (r: Option<seq<int>>)
    requires ds.WellFormed()
    ensures r.Some? <==> BlockFits(ds, size, offset)
    ensures r.Some? ==> |r.value| == size[3] * Volume(Vec3(size[2], size[1], size[0]))
  {
    if !BlockFits(ds, size, offset) then None
    else
      var ext := Vec3(size[2], size[1], size[0]);
      var o := Vec3(offset[2], offset[1], offset[0]);
      assert Volume(ext) >= 0 by { CellContentsNonNeg(ext); }
      assert size[3] * Volume(ext) >= 0 by { MulLeMono(0, Volume(ext), size[3]); }
      Some(seq(size[3] * Volume(ext), k requires 0 <= k < size[3] * Volume(ext) =>
        SlotEncode(k, ext, size[3]);
        At(ds, o.Plus(Coord(k / size[3], ext)), offset[3] + k % size[3])))
  }

  /** Reading the whole dataset as one block returns the longs in the order
      they were written: flat iteration over the volume with x fastest and
      the array element innermost. */
  lemma {:induction false} WholeDatasetBlock(ds: Dataset)
    requires ds.WellFormed()
    ensures ReadBlock(ds, ds.Dims(), [0, 0, 0, 0]) == Some(ds.data)
  {
    var r := ReadBlock(ds, ds.Dims(), [0, 0, 0, 0]);
    assert BlockFits(ds, ds.Dims(), [0, 0, 0, 0]);
    var L := ds.arrayLength;
    assert Vec3(ds.Dims()[2], ds.Dims()[1], ds.Dims()[0]) == ds.extent;
    assert |r.value| == |ds.data|;
    forall k | 0 <= k < |ds.data|
      ensures r.value[k] == ds.data[k]
    {
      SlotEncode(k, ds.extent, L);
      assert ds.extent.Plus(Vec3(0, 0, 0)) == ds.extent;
      assert Vec3(0, 0, 0).Plus(Coord(k / L, ds.extent)) == Coord(k / L, ds.extent);
    }
    assert r.value == ds.data;
  }

  /** In the block a cell reads, the slot of element `e` of cell position
      `p` holds element `e` of the dataset voxel `min + p`. */
  lemma CellBlockAt(ds: Dataset, dims: Vec3, min: Vec3, p: Vec3, e: int)
    requires ds.WellFormed() && NonNegative(dims) && NonNegative(min)
    requires BlockFits(ds, CellBlockSize(dims, ds.arrayLength), CellBlockOffset(min))
    requires InExtent(p, dims) && 0 <= e < ds.arrayLength
    ensures InExtent(min.Plus(p), ds.extent)
    ensures 0 <= Slot(p, e, dims, ds.arrayLength) < |ReadBlock(ds, CellBlockSize(dims, ds.arrayLength), CellBlockOffset(min)).value|
    ensures ReadBlock(ds, CellBlockSize(dims, ds.arrayLength), CellBlockOffset(min)).value[Slot(p, e, dims, ds.arrayLength)]
         == At(ds, min.Plus(p), e)
  {
    var k := Slot(p, e, dims, ds.arrayLength);
    SlotInRange(p, e, dims, ds.arrayLength);
    SlotDecode(p, e, dims, ds.arrayLength);
  }

  /** When the loader's reader is the block read of dataset `ds`, the
      block `loadArray` stores for a cell that lies in the dataset holds, at
      the slot of element `e` of cell position `p`, element `e` of the
      dataset voxel `min + p`. */
  lemma ReaderOfDataset(ds: Dataset, read: (seq<int>, seq<int>) -> Option<seq<int>>,
                        dims: Vec3, min: Vec3, p: Vec3, e: int)
    requires ds.WellFormed() && NonNegative(dims) && NonNegative(min)
    requires forall size, offset :: read(size, offset) == ReadBlock(ds, size, offset)
    requires BlockFits(ds, CellBlockSize(dims, ds.arrayLength), CellBlockOffset(min))
    requires InExtent(p, dims) && 0 <= e < ds.arrayLength
    ensures read(CellBlockSize(dims, ds.arrayLength), CellBlockOffset(min)).Some?
    ensures var block := read(CellBlockSize(dims, ds.arrayLength), CellBlockOffset(min)).value;
      && 0 <= Slot(p, e, dims, ds.arrayLength) < |block|
      && InExtent(min.Plus(p), ds.extent)
      && block[Slot(p, e, dims, ds.arrayLength)] == At(ds, min.Plus(p), e)
  {
    CellBlockAt(ds, dims, min, p, e);
  }

  /** The block size the loader requests: HDF5 axis order, the whole array. */
  function CellBlockSize(dims: Vec3, arrayLength: int): (r: seq<int>)
    ensures |r| == 4 && Vec3(r[2], r[1], r[0]) == dims && r[3] == arrayLength
  {
    [dims.z, dims.y, dims.x, arrayLength]
  }

  /** The block offset the loader requests: HDF5 axis order, element 0. */
  function CellBlockOffset(min: Vec3): (r: seq<int>)
    ensures |r| == 4 && Vec3(r[2], r[1], r[0]) == min && r[3] == 0
  {
    [min.z, min.y, min.x, 0]
  }

  /** `dimensions[ 0 ] * dimensions[ 1 ] * dimensions[ 2 ] * arrayLength` in
      Java `int` arithmetic, evaluated left to right. */
  function FallbackLength(dims: Vec3, arrayLength: int): int
  {
    Wrap32(Wrap32(Wrap32(dims.x * dims.y) * dims.z) * arrayLength)
  }

  /** Wrapping each intermediate product wraps the exact product; when that
      fits an `int` the fallback buffer has exactly one entry per long of the
      cell. */
  lemma FallbackLengthExact(dims: Vec3, arrayLength: int)
    ensures FallbackLength(dims, arrayLength) == Wrap32(arrayLength * Volume(dims))
    ensures IsInt(arrayLength * Volume(dims)) ==> FallbackLength(dims, arrayLength) == arrayLength * Volume(dims)
  {
    Wrap32Mul(dims.x * dims.y, dims.z);
    Wrap32Mul(dims.x * dims.y * dims.z, arrayLength);
    assert dims.x * dims.y * dims.z * arrayLength == arrayLength * Volume(dims);
  }

  class H5LongArrayArrayLoader {
    var theEmptyArray: VolatileArray<int>
    /** `reader.int64()` bound to `dataset`: the flat array of the block of
        a size at an offset, or `None` when `getAsFlatArray` is `null`. */
    const read: (seq<int>, seq<int>) -> Option<seq<int>>
    const dataset: string
    const arrayLength: int

    ghost predicate Valid()
      reads this
    {
      !theEmptyArray.valid && theEmptyArray.data.Length >= 1 && IsInt(arrayLength)
    }

    /** `datasetDims` is what `reader.object().getDimensions( dataset )`
        returns. */
    constructor (read: (seq<int>, seq<int>) -> Option<seq<int>>, dataset: string, datasetDims: seq<int>)
      requires |datasetDims| >= 1
      ensures Valid() && fresh(theEmptyArray) && fresh(theEmptyArray.data)
      ensures theEmptyArray.data.Length == 1 && theEmptyArray.data[0] == 0
      ensures this.read == read && this.dataset == dataset
      ensures arrayLength == Wrap32(datasetDims[|datasetDims| - 1])
    {
      theEmptyArray := new VolatileArray.Zeros(1, 0, false);
      this.read := read;
      this.dataset := dataset;
      arrayLength := Wrap32(datasetDims[|datasetDims| - 1]);
    }

    /** `8 * arrayLength` in Java `int` arithmetic. */
    function GetBytesPerElement(): (r: int)
      ensures IsInt(r)
      ensures 0 <= arrayLength <= 0x0fff_ffff ==> r == 8 * arrayLength
    {
      Wrap32(8 * arrayLength)
    }

    /** `loadArray`: the block the reader returns for the reversed size and
        offset, or a zero buffer for the whole cell when it returns `null`;
        flagged valid either way. A fallback length that wraps negative makes
        `new long[]` throw. */
    method LoadArray(timepoint: int, setup: int, level: int, dimensions: seq<int>, min: seq<int>)
      returns (r: Result<VolatileArray<int>, JavaException>)
      requires |dimensions| >= 3 && |min| >= 3
      ensures var slice := read(CellBlockSize(ToVec3(dimensions), arrayLength), CellBlockOffset(ToVec3(min)));
        match slice
        case Some(block) => r.Ok? && r.value.data[..] == block
        case None =>
          var n := FallbackLength(ToVec3(dimensions), arrayLength);
          if n < 0 then r == Err(NegativeArraySize)
          else r.Ok? && r.value.data[..] == seq(n, _ => 0)
      ensures r.Ok? ==> fresh(r.value) && fresh(r.value.data) && r.value.valid
    {
      var slice := read([dimensions[2], dimensions[1], dimensions[0], arrayLength], [min[2], min[1], min[0], 0]);
      var data: array<int>;
      if slice.Some? {
        var block := slice.value;
        data := new int[|block|](k requires 0 <= k < |block| => block[k]);
      } else {
        var n := FallbackLength(ToVec3(dimensions), arrayLength);
        if n < 0 {
          return Err(NegativeArraySize);
        }
        data := new int[n](_ => 0);
      }
      var a := new VolatileArray.Wrap(data, true);
      r := Ok(a);
    }

    method EmptyArray(dimensions: seq<int>) returns (r: VolatileArray<int>)
      requires Valid()
      modifies this
      ensures Valid() && r == theEmptyArray
      ensures theEmptyArray.data.Length ==
        NextPlaceholderLength(old(theEmptyArray.data.Length), Wrap32(arrayLength * Product(dimensions)))
      ensures old(theEmptyArray.data.Length) >= Wrap32(arrayLength * Product(dimensions)) ==>
        theEmptyArray == old(theEmptyArray)
      ensures old(theEmptyArray.data.Length) < Wrap32(arrayLength * Product(dimensions)) ==>
        && fresh(theEmptyArray) && fresh(theEmptyArray.data)
        && forall k :: 0 <= k < theEmptyArray.data.Length ==> theEmptyArray.data[k] == 0
    {
      var numEntities := NumEntities(dimensions, arrayLength);
      theEmptyArray := ReusedOrGrown(theEmptyArray, numEntities, 0);
      r := theEmptyArray;
    }
  }
}
