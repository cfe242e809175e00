/** What the image loaders hand BigDataViewer per resolution level: the
    level's 3x4 affine transform (an `AffineTransform3D`, held here as its
    twelve entries), the resolution per axis, the cache priority of the
    level and the request for a cached cell image. Downsampled levels are
    scaled by their factor and shifted by half a fine voxel per extra
    voxel, so that each coarse voxel sits at the centre of the fine voxels
    it stands for. */
module Mipmaps {

  datatype Affine3D = Affine3D(m: seq<seq<real>>)

  predicate WellFormed(t: Affine3D)
  {
    |t.m| == 3 && forall r :: 0 <= r < 3 ==> |t.m[r]| == 4
  }

  type Transform = t: Affine3D | WellFormed(t)
    witness Affine3D([[1.0, 0.0, 0.0, 0.0], [0.0, 1.0, 0.0, 0.0], [0.0, 0.0, 1.0, 0.0]])

  function IdentityEntry(r: int, c: int): real
  {
    if r == c then 1.0 else 0.0
  }

  /** `new AffineTransform3D()`. */
  function Identity(): (t: Transform)
    ensures forall r, c :: 0 <= r < 3 && 0 <= c < 4 ==> t.m[r][c] == IdentityEntry(r, c)
  {
    Affine3D(seq(3, r => seq(4, c => IdentityEntry(r, c))))
  }

  /** `t.set( v, r, c )`. */
  function Set(t: Transform, v: real, r: int, c: int): (t': Transform)
    requires 0 <= r < 3 && 0 <= c < 4
    ensures t'.m[r][c] == v
    ensures forall r', c' :: 0 <= r' < 3 && 0 <= c' < 4 && (r', c') != (r, c) ==> t'.m[r'][c'] == t.m[r'][c']
  {
    Affine3D(t.m[r := t.m[r][c := v]])
  }

  /** `t.apply( p )`: the transformed position of `p`. */
  function Apply(t: Transform, p: seq<real>): (q: seq<real>)
    requires |p| == 3
    ensures |q| == 3
  {
    seq(3, r requires 0 <= r < 3 =>
      t.m[r][0] * p[0] + t.m[r][1] * p[1] + t.m[r][2] * p[2] + t.m[r][3])
  }

  /** Integer downsample factors as the `double` resolutions of a level. */
  function Resolutions(factors: seq<int>): (r: seq<real>)
    ensures |r| == |factors|
    ensures forall d :: 0 <= d < |r| ==> r[d] == factors[d] as real
  {
    seq(|factors|, d requires 0 <= d < |factors| => factors[d] as real)
  }

  /** The transform of a level with resolutions `res` (at most one per
      axis): on each listed axis the scale `res[d]` and the shift
      `0.5 * ( res[d] - 1 )`; the remaining entries are those of the
      identity. */
  function LevelTransform(res: seq<real>): (t: Transform)
    requires |res| <= 3
  {
    Affine3D(seq(3, r requires 0 <= r < 3 => seq(4, c =>
      if r < |res| && c == r then res[r]
      else if r < |res| && c == 3 then 0.5 * (res[r] - 1.0)
      else IdentityEntry(r, c))))
  }

  /** Extending the resolutions by one axis is what the two `set` calls of
      the constructor loop do. */
  lemma LevelTransformStep(res: seq<real>, d: int)
    requires 0 <= d < |res| <= 3
    ensures LevelTransform(res[..d + 1]) ==
      Set(Set(LevelTransform(res[..d]), res[d], d, d), 0.5 * (res[d] - 1.0), d, 3)
  {
    var a := LevelTransform(res[..d + 1]);
    var b := Set(Set(LevelTransform(res[..d]), res[d], d, d), 0.5 * (res[d] - 1.0), d, 3);
    forall r | 0 <= r < 3
      ensures a.m[r] == b.m[r]
    {
      assert forall c :: 0 <= c < 4 ==> a.m[r][c] == b.m[r][c];
    }
  }

  /** Each coarse voxel `p` is placed at the centre of the fine voxels it
      covers: on an axis with factor `f`, coarse index `k` stands for fine
      indices `k*f .. k*f + f - 1`, whose midpoint the transform yields.
      Axes without a factor are left as they are. */
  lemma LevelTransformCenters(res: seq<real>, p: seq<real>)
    requires |res| <= 3 && |p| == 3
    ensures forall d :: 0 <= d < |res| ==>
      Apply(LevelTransform(res), p)[d] == (res[d] * p[d] + (res[d] * p[d] + res[d] - 1.0)) / 2.0
    ensures forall d :: |res| <= d < 3 ==> Apply(LevelTransform(res), p)[d] == p[d]
  {
  }

  /** A factor of 1 on every axis gives the identity transform. */
  lemma UnitFactorsIdentity(res: seq<real>)
    requires |res| <= 3 && forall d :: 0 <= d < |res| ==> res[d] == 1.0
    ensures LevelTransform(res) == Identity()
  {
    var a, b := LevelTransform(res), Identity();
    forall r | 0 <= r < 3
      ensures a.m[r] == b.m[r]
    {
      assert forall c :: 0 <= c < 4 ==> a.m[r][c] == b.m[r][c];
    }
  }

  /** The `CacheHints` priority value of a level: `numLevels - 1 - level`.
      The finest level gets the largest value and the coarsest gets 0; what
      the cache does with that value is not part of this model. */
  function Priority(numLevels: int, level: int): (p: int)
    ensures 0 <= level < numLevels ==> 0 <= p < numLevels
    ensures level == numLevels - 1 ==> p == 0
    ensures level == 0 ==> p == numLevels - 1
  {
    numLevels - 1 - level
  }

  datatype LoadingStrategy = Blocking | Volatile

  /** `new VolatileGlobalCellCache( ... )`, recorded by its arguments. */
  datatype CellCache = CellCache(args: seq<int>)

  /** What `prepareCachedImage` hands the cache: the cell's address
      (timepoint, setup, level), the `CacheHints` (strategy and priority) and
      the image and cell dimensions of `VolatileImgCells`. */
  datatype CacheRequest = CacheRequest(
    timepoint: int, setup: int, level: int,
    strategy: LoadingStrategy, priority: int,
    dimensions: seq<int>, cellDimensions: seq<int>)
}
