/** `AbstractCellFileImageLoader`: the mipmap description of a file-per-cell
    source with arbitrary integer downsample factors per level and axis,
    and the cache request of a level. */
module AbstractCellFileImageLoaders {
  import opened Mipmaps

  /** The resolutions of every level, one row per level. */
  function ResolutionTable(downsampleFactors: seq<seq<int>>, n: int): (r: seq<seq<real>>)
    requires 0 <= n <= |downsampleFactors|
    ensures |r| == n
    ensures forall i :: 0 <= i < n ==> r[i] == Resolutions(downsampleFactors[i])
  {
    seq(n, i requires 0 <= i < n => Resolutions(downsampleFactors[i]))
  }

  /** Every level has at most one factor per axis of a 3D transform. */
  predicate FactorsFit(downsampleFactors: seq<seq<int>>, n: int)
  {
    n <= |downsampleFactors| && forall i :: 0 <= i < n ==> |downsampleFactors[i]| <= 3
  }

  class AbstractCellFileImageLoader {
    const mipmapResolutions: seq<seq<real>>
    const mipmapTransforms: seq<Transform>
    const dimensions: seq<seq<int>>
    const cellDimensions: seq<seq<int>>
    var cache: CellCache

    /** One resolution row and one transform per level. */
    ghost predicate Valid()
    {
      |mipmapResolutions| == |mipmapTransforms| == |dimensions|
    }

    /** The constructor: level `i` gets the resolutions `downsampleFactors[i]`
        and the scale-and-centre transform of those resolutions. */
    constructor (dimensions: seq<seq<int>>, cellDimensions: seq<seq<int>>, downsampleFactors: seq<seq<int>>)
      requires FactorsFit(downsampleFactors, |dimensions|)
      ensures Valid()
      ensures this.dimensions == dimensions && this.cellDimensions == cellDimensions
      ensures mipmapResolutions == ResolutionTable(downsampleFactors, |dimensions|)
      ensures |mipmapTransforms| == |dimensions|
      ensures forall i :: 0 <= i < |dimensions| ==> mipmapTransforms[i] == LevelTransform(mipmapResolutions[i])
      ensures cache == CellCache([|dimensions|, 10])
    {
      this.dimensions := dimensions;
      this.cellDimensions := cellDimensions;
      var numScales := |dimensions|;
      var transforms: seq<Transform> := [];
      var resolutions: seq<seq<real>> := [];
      var i := 0;
      while i < numScales
        invariant 0 <= i <= numScales
        invariant resolutions == ResolutionTable(downsampleFactors, i)
        invariant |transforms| == i
        invariant forall j :: 0 <= j < i ==> transforms[j] == LevelTransform(resolutions[j])
      {
        var res: seq<real> := [];
        var d := 0;
        while d < |downsampleFactors[i]|
          invariant 0 <= d <= |downsampleFactors[i]|
          invariant res == Resolutions(downsampleFactors[i][..d])
        {
          res := res + [downsampleFactors[i][d] as real];
          d := d + 1;
        }
        assert downsampleFactors[i][..d] == downsampleFactors[i];
        var t := Identity();
        assert t == LevelTransform([]) by { UnitFactorsIdentity([]); }
        d := 0;
        while d < |res|
          invariant 0 <= d <= |res|
          invariant t == LevelTransform(res[..d])
        {
          LevelTransformStep(res, d);
          t := Set(t, res[d], d, d);
          t := Set(t, 0.5 * (res[d] - 1.0), d, 3);
          d := d + 1;
        }
        assert res[..d] == res;
        resolutions := resolutions + [res];
        transforms := transforms + [t];
        i := i + 1;
      }
      mipmapResolutions := resolutions;
      mipmapTransforms := transforms;
      cache := CellCache([numScales, 10]);
    }

    /** `prepareCachedImage`: level `level` is cached with the level's image
        and cell dimensions at priority `numLevels - 1 - level`. */
    function PrepareCachedImage(timepointId: int, setupId: int, level: int, loadingStrategy: LoadingStrategy): (r: CacheRequest)
      requires 0 <= level < |dimensions| && level < |cellDimensions|
      ensures r.timepoint == timepointId && r.setup == setupId && r.level == level
      ensures r.strategy == loadingStrategy && r.priority == Priority(|dimensions|, level)
      ensures r.dimensions == dimensions[level] && r.cellDimensions == cellDimensions[level]
    {
      CacheRequest(timepointId, setupId, level, loadingStrategy, |dimensions| - 1 - level,
                   dimensions[level], cellDimensions[level])
    }

    function GetMipmapResolutions(): seq<seq<real>> { mipmapResolutions }

    function GetMipmapTransforms(): seq<Transform> { mipmapTransforms }

    /** As many levels as there are level dimensions, and one transform each. */
    function NumMipmapLevels(): (n: int)
      requires Valid()
      ensures n == |mipmapTransforms| == |GetMipmapResolutions()|
      ensures n == |dimensions|
    {
      |dimensions|
    }
  }
}
