/** `CellFileUnsignedShortArrayLoader`: the file-per-cell loader for 16-bit
    cells. The locator has four arguments (level and the cell's pixel
    x/y/z); the cell size is looked up but not used. Only 16-bit gray images
    are accepted, and the copy walks source and target in the same flat
    order. */
module CellFileUnsignedShortArrayLoaders {
  import opened Wrappers
  import opened JavaInt
  import opened CellGeometry
  import opened VolatileArrays
  import opened CellFiles

  type short = bv16

  class CellFileUnsignedShortArrayLoader {
    var theEmptyArray: VolatileArray<short>
    const cellFormat: string
    const cellSizes: seq<seq<int>>

    ghost predicate Valid()
      reads this
    {
      !theEmptyArray.valid && theEmptyArray.data.Length >= 1
    }

    constructor (cellFormat: string, cellSizes: seq<seq<int>>)
      ensures Valid() && fresh(theEmptyArray) && fresh(theEmptyArray.data)
      ensures theEmptyArray.data.Length == 1 && theEmptyArray.data[0] == 0
      ensures this.cellFormat == cellFormat && this.cellSizes == cellSizes
    {
      theEmptyArray := new VolatileArray.Zeros(1, 0, false);
      this.cellFormat := cellFormat;
      this.cellSizes := cellSizes;
    }

    function GetBytesPerElement(): (r: int)
      ensures r == 2
    {
      2
    }

    /** `loadArray`. `Utils.workaroundImagePlusNSlices` is taken to leave the
        image's extent as the store records it. */
    method LoadArray(timepoint: int, setup: int, level: int, dimensions: seq<int>, min: seq<int>,
                     store: Storage<short>)
      returns (r: VolatileArray<short>)
      requires 0 <= level < |cellSizes|
      requires |min| >= 3 && ValidCellDims(dimensions)
      ensures fresh(r) && fresh(r.data) && r.valid
      ensures r.data.Length == Product(dimensions)
      ensures r.data[..] == LoadedCell(OfKind(Open(store, PixelLocator(level, min)), Gray16), ToVec3(dimensions), 0)
    {
      var cellSize := cellSizes[level];
      var cellString := PixelLocator(level, min);
      var numEntities := NumEntities(dimensions, 1);
      ProductOfCellDims(dimensions);
      var data := new short[numEntities](_ => 0);
      if cellString !in store {
        // IOException( "file does not exist" ), caught
      } else if store[cellString].None? || store[cellString].value.kind != Gray16 {
        // IOException( "imp == null or wrong type" ), caught
      } else {
        CopyFlat(data, store[cellString].value, ToVec3(dimensions), 0);
      }
      r := new VolatileArray.Wrap(data, true);
    }

    method EmptyArray(dimensions: seq<int>) returns (r: VolatileArray<short>)
      requires Valid()
      modifies this
      ensures Valid() && r == theEmptyArray
      ensures theEmptyArray.data.Length ==
        NextPlaceholderLength(old(theEmptyArray.data.Length), Wrap32(Product(dimensions)))
      ensures old(theEmptyArray.data.Length) >= Wrap32(Product(dimensions)) ==> theEmptyArray == old(theEmptyArray)
      ensures old(theEmptyArray.data.Length) < Wrap32(Product(dimensions)) ==>
        && fresh(theEmptyArray) && fresh(theEmptyArray.data)
        && forall k :: 0 <= k < theEmptyArray.data.Length ==> theEmptyArray.data[k] == 0
    {
      var numEntities := NumEntities(dimensions, 1);
      theEmptyArray := ReusedOrGrown(theEmptyArray, numEntities, 0);
      r := theEmptyArray;
    }
  }
}
