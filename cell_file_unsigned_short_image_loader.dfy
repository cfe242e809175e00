/** `CellFileUnsignedShortImageLoader`: a 16-bit file-per-cell source whose
    level `i` is downsampled by `1 << i` on every axis, with the level count
    estimator `getNumScales` and the two cached views (blocking and
    volatile) of setup 0. */
module CellFileUnsignedShortImageLoaders {
  import opened JavaInt
  import opened Mipmaps
  import opened CellGeometry
  import opened CellFileUnsignedShortArrayLoaders

  /** The scale of level `i`: Java's `1 << i`, which for `i = 31` is the
      negative `Integer.MIN_VALUE`. */
  function LevelScale(i: int): (s: int)
    ensures IsInt(s)
    ensures 0 <= i < 31 ==> s == Pow2(i) && s >= 1
    ensures i == 31 ==> s == INT_MIN
  {
    Shl1(i)
  }

  /** The same scale `s` on all three axes. */
  function Uniform(s: int): (r: seq<real>)
    ensures |r| == 3 && forall d :: 0 <= d < 3 ==> r[d] == s as real
  {
    [s as real, s as real, s as real]
  }

  /** The six `set` calls of the constructor for the `int` scale `si`: `si`
      on the diagonal and `0.5 * ( si - 1 )` in the translation column, where
      `si - 1` is an `int` subtraction and so wraps for `Integer.MIN_VALUE`. */
  function ScaleAndCentre(si: int): (t: Transform)
    ensures forall r, c :: 0 <= r < 3 && 0 <= c < 4 ==>
      t.m[r][c] == if c == r then si as real
                   else if c == 3 then 0.5 * (Wrap32(si - 1) as real)
                   else IdentityEntry(r, c)
  {
    var f := si as real;
    var off := 0.5 * (Wrap32(si - 1) as real);
    Set(Set(Set(Set(Set(Set(Identity(), f, 0, 0), f, 1, 1), f, 2, 2), off, 0, 3), off, 1, 3), off, 2, 3)
  }

  /** Unless the subtraction wraps, the constructor's transform is the
      scale-and-centre transform of the uniform resolution. */
  lemma UniformTransform(s: int)
    requires IsInt(s) && s != INT_MIN
    ensures ScaleAndCentre(s) == LevelTransform(Uniform(s))
  {
    var a := ScaleAndCentre(s);
    var b := LevelTransform(Uniform(s));
    forall r | 0 <= r < 3
      ensures a.m[r] == b.m[r]
    {
      assert forall c :: 0 <= c < 4 ==> a.m[r][c] == b.m[r][c];
    }
  }

  /** At level 31 the wrapped subtraction gives the negative scale a
      positive offset of `0.5 * Integer.MAX_VALUE`. */
  lemma Level31Offset()
    ensures LevelScale(31) < 0
    ensures forall r :: 0 <= r < 3 ==> ScaleAndCentre(LevelScale(31)).m[r][3] == 0.5 * (INT_MAX as real)
  {
  }

  /** Java `x >> n` on a `long`, one position at a time as `>>= 1` does. */
  function ShrN(x: int, n: nat): int
  {
    if n == 0 then x else Shr1(ShrN(x, n - 1))
  }

  /** Whether level `n` is still larger than a tile on both axes. */
  predicate Exceeds(width: int, height: int, tileWidth: int, tileHeight: int, n: nat)
  {
    ShrN(width, n) > tileWidth && ShrN(height, n) > tileHeight
  }

  /** Shifting right `n` times is floor division by `2^n`, so the level
      count compares `width / 2^n` and `height / 2^n` with the tile. */
  lemma {:induction false} ShrNDiv(x: int, n: nat)
    ensures ShrN(x, n) == x / Pow2(n)
  {
    if n > 0 {
      ShrNDiv(x, n - 1);
      DivDiv(x, Pow2(n - 1), 2);
    }
  }

  lemma DivDiv(x: int, a: int, b: int)
    requires a > 0 && b > 0
    ensures x / a / b == x / (a * b)
  {
    var q, r := x / a, x % a;
    var q', r' := q / b, q % b;
    assert x == (q' * b + r') * a + r;
    assert x == q' * (a * b) + (r' * a + r);
    MulLeMono(r', b - 1, a);
    DivModUnique(x, a * b, q', r' * a + r);
  }

  class CellFileUnsignedShortImageLoader {
    const mipmapResolutions: seq<seq<real>>
    const mipmapTransforms: seq<Transform>
    const dimensions: seq<seq<int>>
    const cellDimensions: seq<seq<int>>
    var cache: CellCache
    const loader: CellFileUnsignedShortArrayLoader

    ghost predicate Valid()
    {
      |mipmapResolutions| == |mipmapTransforms| == |dimensions|
    }

    /** Level `i` gets resolution `1 << i` on every axis and the matching
        scale-and-centre transform. */
    constructor (cellFormat: string, dimensions: seq<seq<int>>, cellDimensions: seq<seq<int>>)
      ensures Valid() && fresh(loader)
      ensures this.dimensions == dimensions && this.cellDimensions == cellDimensions
      ensures forall i :: 0 <= i < |dimensions| ==>
        && mipmapResolutions[i] == Uniform(LevelScale(i))
        && mipmapTransforms[i] == ScaleAndCentre(LevelScale(i))
      ensures forall i :: 0 <= i < |dimensions| && i < 31 ==>
        mipmapTransforms[i] == LevelTransform(Uniform(LevelScale(i)))
      ensures loader.cellFormat == cellFormat && loader.cellSizes == cellDimensions && loader.Valid()
      ensures cache == CellCache([1, 1, |dimensions|, 10])
    {
      this.dimensions := dimensions;
      this.cellDimensions := cellDimensions;
      var numScales := |dimensions|;
      var transforms: seq<Transform> := [];
      var resolutions: seq<seq<real>> := [];
      var i := 0;
      while i < numScales
        invariant 0 <= i <= numScales
        invariant |resolutions| == |transforms| == i
        invariant forall j :: 0 <= j < i ==>
          resolutions[j] == Uniform(LevelScale(j)) && transforms[j] == ScaleAndCentre(LevelScale(j))
      {
        var si := Shl1(i);
        var si' := si as real;
        // the six `set` calls, with `mipmapOffset = 0.5 * ( si - 1 )`
        var mipmapTransform := ScaleAndCentre(si);
        resolutions := resolutions + [[si', si', si']];
        transforms := transforms + [mipmapTransform];
        i := i + 1;
      }
      mipmapResolutions := resolutions;
      mipmapTransforms := transforms;
      forall i | 0 <= i < numScales && i < 31
        ensures transforms[i] == LevelTransform(Uniform(LevelScale(i)))
      {
        UniformTransform(LevelScale(i));
      }
      loader := new CellFileUnsignedShortArrayLoader(cellFormat, cellDimensions);
      cache := CellCache([1, 1, numScales, 10]);
    }

    /** `getNumScales`: the number of levels until either side of the
        downsampled image (`width >> n`, `height >> n`) no longer exceeds the
        tile, counted from 1. The height is only shifted once the width test
        has passed. */
    static method GetNumScales(width: int, height: int, tileWidth: int, tileHeight: int) returns (i: int)
      requires 0 <= tileWidth || 0 <= tileHeight
      ensures i >= 1 && !Exceeds(width, height, tileWidth, tileHeight, i)
      ensures forall n :: 1 <= n < i ==> Exceeds(width, height, tileWidth, tileHeight, n)
    {
      i := 1;
      assert ShrN(width, 1) == Shr1(width) && ShrN(height, 1) == Shr1(height);
      var w, h := width, height;
      w := Shr1(w);
      var more := w > tileWidth;
      if more {
        h := Shr1(h);
        more := h > tileHeight;
      }
      while more
        invariant i >= 1 && w == ShrN(width, i) && (more ==> h == ShrN(height, i))
        invariant more == Exceeds(width, height, tileWidth, tileHeight, i)
        invariant forall n :: 1 <= n < i ==> Exceeds(width, height, tileWidth, tileHeight, n)
        decreases if 0 <= tileWidth then Abs(w) else Abs(h)
      {
        i := i + 1;
        w := Shr1(w);
        more := w > tileWidth;
        if more {
          h := Shr1(h);
          more := h > tileHeight;
        }
      }
    }

    /** `prepareCachedImage`. */
    function PrepareCachedImage(timepointId: int, setupId: int, level: int, loadingStrategy: LoadingStrategy): (r: CacheRequest)
      requires 0 <= level < |dimensions| && level < |cellDimensions|
      ensures r.timepoint == timepointId && r.setup == setupId && r.level == level
      ensures r.strategy == loadingStrategy && r.priority == Priority(|dimensions|, level)
      ensures r.dimensions == dimensions[level] && r.cellDimensions == cellDimensions[level]
    {
      CacheRequest(timepointId, setupId, level, loadingStrategy, |dimensions| - 1 - level,
                   dimensions[level], cellDimensions[level])
    }

    /** `getImage`: a blocking view of setup 0. */
    function GetImage(timepointId: int, level: int): (r: CacheRequest)
      requires 0 <= level < |dimensions| && level < |cellDimensions|
      ensures r == PrepareCachedImage(timepointId, 0, level, Blocking)
      ensures r.strategy == Blocking && r.setup == 0
    {
      PrepareCachedImage(timepointId, 0, level, Blocking)
    }

    /** `getVolatileImage`: a volatile view of setup 0. */
    function GetVolatileImage(timepointId: int, level: int): (r: CacheRequest)
      requires 0 <= level < |dimensions| && level < |cellDimensions|
      ensures r == PrepareCachedImage(timepointId, 0, level, Volatile)
      ensures r.strategy == Volatile && r.setup == 0
    {
      PrepareCachedImage(timepointId, 0, level, Volatile)
    }

    function GetMipmapResolutions(): seq<seq<real>> { mipmapResolutions }

    function GetMipmapTransforms(): seq<Transform> { mipmapTransforms }

    function NumMipmapLevels(): (n: int)
      requires Valid()
      ensures n == |mipmapTransforms| == |GetMipmapResolutions()|
      ensures n == |dimensions|
    {
      |dimensions|
    }

    method SetCache(cache: CellCache)
      modifies this
      ensures this.cache == cache
    {
      this.cache := cache;
    }
  }
}
