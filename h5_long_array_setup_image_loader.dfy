/** `H5LongArraySetupImageLoader`: a single-level source of `LongArrayType`
    pixels read from a four-dimensional HDF5 dataset. The dataset's axes are
    stored slowest first (z, y, x, element); the loader reverses the three
    spatial axes and its resolution attribute into x, y, z order. */
module H5LongArraySetupImageLoaders {
  import opened Wrappers
  import opened JavaInt
  import opened Mipmaps
  import opened H5LongArrayArrayLoaders

  /** `readResolution`: the dataset's `resolution` attribute in x, y, z
      order, or `{ 1, 1, 1 }` when the dataset has none. An attribute with
      fewer than three values makes the read of `h5res[ 2 ]` throw. */
  function ReadResolution(attribute: Option<seq<real>>): (r: Result<seq<real>, JavaException>)
    ensures attribute.None? ==> r == Ok([1.0, 1.0, 1.0])
    ensures attribute.Some? && |attribute.value| < 3 ==> r == Err(ArrayIndexOutOfBounds)
    ensures attribute.Some? && |attribute.value| >= 3 ==>
      r.Ok? && |r.value| == 3 && forall d :: 0 <= d < 3 ==> r.value[d] == attribute.value[2 - d]
  {
    match attribute
    case None => Ok([1.0, 1.0, 1.0])
    case Some(h5res) => if |h5res| < 3 then Err(ArrayIndexOutOfBounds) else Ok([h5res[2], h5res[1], h5res[0]])
  }

  /** The spatial extent in x, y, z order of a dataset with HDF5 extent
      `h5dim` (z, y, x, element). */
  function Dimension(h5dim: seq<int>): (r: seq<int>)
    requires |h5dim| >= 3
    ensures |r| == 3 && forall d :: 0 <= d < 3 ==> r[d] == h5dim[2 - d]
  {
    [h5dim[2], h5dim[1], h5dim[0]]
  }

  /** Reversing twice restores the HDF5 order of the spatial axes. */
  lemma DimensionReversal(h5dim: seq<int>)
    requires |h5dim| >= 3
    ensures Dimension(Dimension(h5dim)) == h5dim[..3]
  {
  }

  /** The number of longs per pixel the loader reads: `(int) h5dim[ 3 ]`. */
  function ArrayLength(h5dim: seq<int>): (r: int)
    requires |h5dim| >= 4
    ensures IsInt(h5dim[3]) ==> r == h5dim[3]
  {
    Wrap32(h5dim[3])
  }

  /** The length of the pixel types `createLongArrayType` and
      `createVolatileLongArrayType` build: `(int)` of the last dimension. */
  function PixelTypeLength(h5dim: seq<int>): (r: int)
    requires |h5dim| >= 1
    ensures IsInt(h5dim[|h5dim| - 1]) ==> r == h5dim[|h5dim| - 1]
  {
    Wrap32(h5dim[|h5dim| - 1])
  }

  /** For a four-dimensional dataset the pixel types and the loader agree on
      the number of longs per pixel. */
  lemma PixelTypeMatchesArrayLength(h5dim: seq<int>)
    requires |h5dim| == 4
    ensures PixelTypeLength(h5dim) == ArrayLength(h5dim)
  {
  }

  /** The transform of the only level: the resolution on the diagonal. */
  function DiagonalTransform(res: seq<real>): (t: Transform)
    requires |res| == 3
  {
    Set(Set(Set(Identity(), res[0], 0, 0), res[1], 1, 1), res[2], 2, 2)
  }

  /** The level transform scales each axis by its resolution and does not
      translate. */
  lemma DiagonalTransformScales(res: seq<real>, p: seq<real>)
    requires |res| == 3 && |p| == 3
    ensures forall d :: 0 <= d < 3 ==> DiagonalTransform(res).m[d][3] == 0.0
    ensures forall d :: 0 <= d < 3 ==> Apply(DiagonalTransform(res), p)[d] == res[d] * p[d]
  {
    var t := DiagonalTransform(res);
    assert t.m[0] == [res[0], 0.0, 0.0, 0.0];
    assert t.m[1] == [0.0, res[1], 0.0, 0.0];
    assert t.m[2] == [0.0, 0.0, res[2], 0.0];
  }

  class H5LongArraySetupImageLoader {
    const resolution: seq<real>
    const dimension: seq<int>
    const blockDimension: seq<int>
    const arrayLength: int
    const mipmapTransform: Transform
    var cache: CellCache
    const loader: H5LongArrayArrayLoader
    const setupId: int
    /** The lengths of the pixel type and volatile pixel type of the setup. */
    const typeLength: int

    /** `h5dim` is what `getDimensions( dataset )` returns, `attribute` the
        `resolution` attribute when the dataset has one, and `read` the
        dataset's block reader. */
    constructor (read: (seq<int>, seq<int>) -> Option<seq<int>>, dataset: string, h5dim: seq<int>,
                 attribute: Option<seq<real>>, setupId: int, blockDimension: seq<int>)
      requires |h5dim| >= 4 && ReadResolution(attribute).Ok?
      ensures this.setupId == setupId && this.blockDimension == blockDimension
      ensures resolution == ReadResolution(attribute).value
      ensures dimension == Dimension(h5dim) && arrayLength == ArrayLength(h5dim)
      ensures typeLength == PixelTypeLength(h5dim)
      ensures mipmapTransform == DiagonalTransform(resolution)
      ensures fresh(loader) && loader.Valid() && loader.read == read && loader.arrayLength == Wrap32(h5dim[|h5dim| - 1])
      ensures cache == CellCache([1, 10])
    {
      typeLength := Wrap32(h5dim[|h5dim| - 1]);
      this.setupId := setupId;
      var res := ReadResolution(attribute).value;
      resolution := res;
      dimension := [h5dim[2], h5dim[1], h5dim[0]];
      arrayLength := Wrap32(h5dim[3]);
      var t := Identity();
      t := Set(t, res[0], 0, 0);
      t := Set(t, res[1], 1, 1);
      t := Set(t, res[2], 2, 2);
      mipmapTransform := t;
      this.blockDimension := blockDimension;
      loader := new H5LongArrayArrayLoader(read, dataset, h5dim);
      cache := CellCache([1, 10]);
    }

    function GetMipmapResolutions(): (r: seq<seq<real>>)
      ensures r == [resolution]
    {
      [resolution]
    }

    function NumMipmapLevels(): (n: int)
      ensures n == |GetMipmapResolutions()| == |GetMipmapTransforms()| == 1
    {
      1
    }

    /** `prepareCachedImage`: the whole volume at priority 0, whatever the
        level. */
    function PrepareCachedImage(timepointId: int, setupId: int, level: int, loadingStrategy: LoadingStrategy): (r: CacheRequest)
      ensures r.timepoint == timepointId && r.setup == setupId && r.level == level && r.strategy == loadingStrategy
      ensures r.priority == Priority(NumMipmapLevels(), 0) == 0
      ensures r.dimensions == dimension && r.cellDimensions == blockDimension
    {
      CacheRequest(timepointId, setupId, level, loadingStrategy, 0, dimension, blockDimension)
    }

    function GetMipmapTransforms(): (r: seq<Transform>)
      ensures r == [mipmapTransform]
    {
      [mipmapTransform]
    }

    method SetCache(cache: CellCache)
      modifies this
      ensures this.cache == cache
    {
      this.cache := cache;
    }

    /** `getImage`: a blocking view of this loader's own setup. */
    function GetImage(timepointId: int, level: int): (r: CacheRequest)
      ensures r == PrepareCachedImage(timepointId, setupId, level, Blocking)
      ensures r.strategy == Blocking && r.setup == setupId
    {
      PrepareCachedImage(timepointId, setupId, level, Blocking)
    }

    /** `getVolatileImage`: a volatile view of this loader's own setup. */
    function GetVolatileImage(timepointId: int, level: int): (r: CacheRequest)
      ensures r == PrepareCachedImage(timepointId, setupId, level, Volatile)
      ensures r.strategy == Volatile && r.setup == setupId
    {
      PrepareCachedImage(timepointId, setupId, level, Volatile)
    }
  }
}
