/** `AbstractCellFileArrayLoader`: the generic file-per-cell loader. A cell
    is addressed by level, grid index and pixel offset; its buffer has one
    entry per voxel, starts out zero, and is filled position by position
    from the zero-extended image when the file exists and opens. Only the
    `IOException` of a missing or unopenable file is caught, leaving the
    zero buffer; the grid division's exception comes out before anything is
    allocated, and an image of another pixel type makes the copy throw. */
module AbstractCellFileArrayLoaders {
  import opened Wrappers
  import opened JavaInt
  import opened CellGeometry
  import opened VolatileArrays
  import opened CellFiles

  class AbstractCellFileArrayLoader<T> {
    const cellFormat: string
    const cellSizes: seq<seq<int>>
    /** The zero entry of the arrays the factory creates. */
    const zero: T
    /** The image types `ImagePlusImgs.from` presents as `T` (for
        `UnsignedShortType`, `GRAY16`). */
    const pixelKinds: set<ImageKind>
    var emptyArray: VolatileArray<T>

    /** The cached placeholder is flagged invalid and is never empty. */
    ghost predicate Valid()
      reads this
    {
      !emptyArray.valid && emptyArray.data.Length >= 1
    }

    constructor (cellFormat: string, cellSizes: seq<seq<int>>, zero: T, pixelKinds: set<ImageKind>)
      ensures Valid() && fresh(emptyArray) && fresh(emptyArray.data)
      ensures emptyArray.data.Length == 1 && emptyArray.data[0] == zero
      ensures this.cellFormat == cellFormat && this.cellSizes == cellSizes && this.zero == zero
      ensures this.pixelKinds == pixelKinds
    {
      this.pixelKinds := pixelKinds;
      this.cellFormat := cellFormat;
      this.cellSizes := cellSizes;
      this.zero := zero;
      emptyArray := new VolatileArray.Zeros(1, zero, false);
    }

    /** `loadArray`: a fresh valid buffer of `product(dimensions)` entries
        that holds the zero-extended image of the located file, or only
        zeros when the file is missing or does not open. A cell-size row
        the grid indices cannot be computed from ends the call with the
        exception the divisions throw, before anything is allocated. An
        opened image whose type is not `T` makes the first `set` of the copy
        throw `ClassCastException`, which escapes; a cell without voxels
        copies nothing and so does not throw. */
    method LoadArray(timepoint: int, setup: int, level: int, dimensions: seq<int>, min: seq<int>, store: Storage<T>)
      returns (r: Result<VolatileArray<T>, JavaException>)
      requires 0 <= level < |cellSizes|
      requires |min| >= 3 && ValidCellDims(dimensions)
      ensures GridFailure(cellSizes[level]).Some? ==> r == Err(GridFailure(cellSizes[level]).value)
      ensures GridFailure(cellSizes[level]).None? ==>
        var file := Open(store, GridAndPixelLocator(level, cellSizes[level], min));
        if file.Some? && file.value.kind !in pixelKinds && Product(dimensions) > 0 then r == Err(ClassCast)
        else
          && r.Ok? && fresh(r.value) && fresh(r.value.data) && r.value.valid
          && r.value.data.Length == Product(dimensions)
          && r.value.data[..] == LoadedCell(file, ToVec3(dimensions), zero)
    {
      var cellSize := cellSizes[level];
      var failure := GridFailure(cellSize);
      if failure.Some? {
        return Err(failure.value);
      }
      var cellString := GridAndPixelLocator(level, cellSize, min);
      var numEntities := NumEntities(dimensions, 1);
      ProductOfCellDims(dimensions);
      var data := new VolatileArray.Zeros(numEntities, zero, true);
      var dims := ToVec3(dimensions);
      if cellString !in store {
        // IOException( "file does not exist" ), caught
      } else if store[cellString].None? {
        // IOException( "imp == null" ), caught
      } else {
        var imp := store[cellString].value;
        if imp.kind !in pixelKinds && numEntities > 0 {
          // `pair.getB().set( pair.getA() )` on a pixel of another type
          return Err(ClassCast);
        }
        CopyPositionwise(data.data, imp, dims, zero);
      }
      r := Ok(data);
    }

    /** `emptyArray`: the cached invalid placeholder, grown to
        `product(dimensions)` entries when it is too short. */
    method EmptyArray(dimensions: seq<int>) returns (r: VolatileArray<T>)
      requires Valid()
      modifies this
      ensures Valid() && r == emptyArray
      ensures emptyArray.data.Length ==
        NextPlaceholderLength(old(emptyArray.data.Length), Wrap32(Product(dimensions)))
      ensures old(emptyArray.data.Length) >= Wrap32(Product(dimensions)) ==> emptyArray == old(emptyArray)
      ensures old(emptyArray.data.Length) < Wrap32(Product(dimensions)) ==>
        && fresh(emptyArray) && fresh(emptyArray.data)
        && forall k :: 0 <= k < emptyArray.data.Length ==> emptyArray.data[k] == zero
    {
      var numEntities := NumEntities(dimensions, 1);
      emptyArray := ReusedOrGrown(emptyArray, numEntities, zero);
      r := emptyArray;
    }
  }
}
