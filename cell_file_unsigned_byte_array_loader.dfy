/** `CellFileUnsignedByteArrayLoader`: the file-per-cell loader for 8-bit
    cells. The locator has seven arguments (level, grid column/row/slice,
    pixel x/y/z), so a cell format can follow either stitching export
    convention; an image that is not 8-bit gray is converted first, and the
    result is flagged valid whether or not loading succeeded. */
module CellFileUnsignedByteArrayLoaders {
  import opened Wrappers
  import opened JavaInt
  import opened CellGeometry
  import opened VolatileArrays
  import opened CellFiles

  type byte = bv8

  class CellFileUnsignedByteArrayLoader {
    var theEmptyArray: VolatileArray<byte>
    const cellFormat: string
    const cellSizes: seq<seq<int>>

    ghost predicate Valid()
      reads this
    {
      !theEmptyArray.valid && theEmptyArray.data.Length >= 1
    }

    constructor (cellFormat: string, cellSizes: seq<seq<int>>)
      ensures Valid() && fresh(theEmptyArray) && fresh(theEmptyArray.data)
      ensures theEmptyArray.data.Length == 1 && theEmptyArray.data[0] == 0
      ensures this.cellFormat == cellFormat && this.cellSizes == cellSizes
    {
      theEmptyArray := new VolatileArray.Zeros(1, 0, false);
      this.cellFormat := cellFormat;
      this.cellSizes := cellSizes;
    }

    function GetBytesPerElement(): (r: int)
      ensures r == 1
    {
      1
    }

    /** `loadArray`. `toGray8` stands for `ImageConverter.convertToGray8`. */
    method LoadArray(timepoint: int, setup: int, level: int, dimensions: seq<int>, min: seq<int>,
                     store: Storage<byte>, toGray8: Image<byte> -> Image<byte>)
      returns (r: Result<VolatileArray<byte>, JavaException>)
      requires 0 <= level < |cellSizes|
      requires |min| >= 3 && ValidCellDims(dimensions)
      ensures GridFailure(cellSizes[level]).Some? ==> r == Err(GridFailure(cellSizes[level]).value)
      ensures GridFailure(cellSizes[level]).None? ==>
        && r.Ok? && fresh(r.value) && fresh(r.value.data) && r.value.valid
        && r.value.data.Length == Product(dimensions)
        && r.value.data[..] == LoadedCell(
             ConvertedTo(Open(store, GridAndPixelLocator(level, cellSizes[level], min)), Gray8, toGray8),
             ToVec3(dimensions), 0)
    {
      var cellSize := cellSizes[level];
      var failure := GridFailure(cellSize);
      if failure.Some? {
        return Err(failure.value);
      }
      var cellString := GridAndPixelLocator(level, cellSize, min);
      var numEntities := NumEntities(dimensions, 1);
      ProductOfCellDims(dimensions);
      var data := new byte[numEntities](_ => 0);
      if cellString !in store {
        // IOException( "file does not exist" ), caught
      } else if store[cellString].None? {
        // IOException( "imp == null" ), caught
      } else {
        var imp := store[cellString].value;
        if imp.kind != Gray8 {
          imp := toGray8(imp);
        }
        CopyPositionwise(data, imp, ToVec3(dimensions), 0);
      }
      var loaded := new VolatileArray.Wrap(data, true);
      r := Ok(loaded);
    }

    method EmptyArray(dimensions: seq<int>) returns (r: VolatileArray<byte>)
      requires Valid()
      modifies this
      ensures Valid() && r == theEmptyArray
      ensures theEmptyArray.data.Length ==
        NextPlaceholderLength(old(theEmptyArray.data.Length), Wrap32(Product(dimensions)))
      ensures old(theEmptyArray.data.Length) >= Wrap32(Product(dimensions)) ==> theEmptyArray == old(theEmptyArray)
      ensures old(theEmptyArray.data.Length) < Wrap32(Product(dimensions)) ==>
        && fresh(theEmptyArray) && fresh(theEmptyArray.data)
        && forall k :: 0 <= k < theEmptyArray.data.Length ==> theEmptyArray.data[k] == 0
    {
      var numEntities := NumEntities(dimensions, 1);
      theEmptyArray := ReusedOrGrown(theEmptyArray, numEntities, 0);
      r := theEmptyArray;
    }
  }
}
