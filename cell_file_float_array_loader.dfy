/** `CellFileFloatArrayLoader`: the file-per-cell loader for 32-bit float
    cells. The locator has four arguments (level and grid column/row/slice);
    an image that is not 32-bit gray is converted first. Floats are held as
    their 32-bit patterns; the copy moves them unchanged. */
module CellFileFloatArrayLoaders {
  import opened Wrappers
  import opened JavaInt
  import opened CellGeometry
  import opened VolatileArrays
  import opened CellFiles

  /** The bit pattern of a Java `float`; `0.0f` is the all-zero pattern. */
  type float = bv32

  class CellFileFloatArrayLoader {
    var theEmptyArray: VolatileArray<float>
    const cellFormat: string
    const cellSizes: seq<seq<int>>

    ghost predicate Valid()
      reads this
    {
      !theEmptyArray.valid && theEmptyArray.data.Length >= 1
    }

    constructor (cellFormat: string, cellSizes: seq<seq<int>>)
      ensures Valid() && fresh(theEmptyArray) && fresh(theEmptyArray.data)
      ensures theEmptyArray.data.Length == 1 && theEmptyArray.data[0] == 0
      ensures this.cellFormat == cellFormat && this.cellSizes == cellSizes
    {
      theEmptyArray := new VolatileArray.Zeros(1, 0, false);
      this.cellFormat := cellFormat;
      this.cellSizes := cellSizes;
    }

    function GetBytesPerElement(): (r: int)
      ensures r == 4
    {
      4
    }

    /** `loadArray`. `toGray32` stands for `ImageConverter.convertToGray32`. */
    method LoadArray(timepoint: int, setup: int, level: int, dimensions: seq<int>, min: seq<int>,
                     store: Storage<float>, toGray32: Image<float> -> Image<float>)
      returns (r: Result<VolatileArray<float>, JavaException>)
      requires 0 <= level < |cellSizes|
      requires |min| >= 3 && ValidCellDims(dimensions)
      ensures GridFailure(cellSizes[level]).Some? ==> r == Err(GridFailure(cellSizes[level]).value)
      ensures GridFailure(cellSizes[level]).None? ==>
        && r.Ok? && fresh(r.value) && fresh(r.value.data) && r.value.valid
        && r.value.data.Length == Product(dimensions)
        && r.value.data[..] == LoadedCell(
             ConvertedTo(Open(store, GridLocator(level, cellSizes[level], min)), Gray32, toGray32),
             ToVec3(dimensions), 0)
    {
      var cellSize := cellSizes[level];
      var failure := GridFailure(cellSize);
      if failure.Some? {
        return Err(failure.value);
      }
      var cellString := GridLocator(level, cellSize, min);
      var numEntities := NumEntities(dimensions, 1);
      ProductOfCellDims(dimensions);
      var data := new float[numEntities](_ => 0);
      if cellString !in store {
        // IOException( "file does not exist" ), caught
      } else if store[cellString].None? {
        // IOException( "imp == null" ), caught
      } else {
        var imp := store[cellString].value;
        if imp.kind != Gray32 {
          imp := toGray32(imp);
        }
        CopyPositionwise(data, imp, ToVec3(dimensions), 0);
      }
      var loaded := new VolatileArray.Wrap(data, true);
      r := Ok(loaded);
    }

    method EmptyArray(dimensions: seq<int>) returns (r: VolatileArray<float>)
      requires Valid()
      modifies this
      ensures Valid() && r == theEmptyArray
      ensures theEmptyArray.data.Length ==
        NextPlaceholderLength(old(theEmptyArray.data.Length), Wrap32(Product(dimensions)))
      ensures old(theEmptyArray.data.Length) >= Wrap32(Product(dimensions)) ==> theEmptyArray == old(theEmptyArray)
      ensures old(theEmptyArray.data.Length) < Wrap32(Product(dimensions)) ==>
        && fresh(theEmptyArray) && fresh(theEmptyArray.data)
        && forall k :: 0 <= k < theEmptyArray.data.Length ==> theEmptyArray.data[k] == 0
    {
      var numEntities := NumEntities(dimensions, 1);
      theEmptyArray := ReusedOrGrown(theEmptyArray, numEntities, 0);
      r := theEmptyArray;
    }
  }
}
