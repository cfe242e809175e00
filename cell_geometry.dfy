/** Three-dimensional cell geometry shared by the loaders: extents, the flat
    (x fastest, then y, then z) layout that imglib2 array images and their
    flat cursors use, and closed integer boxes with their intersection, as
    `Intervals.intersect` computes it. */
module CellGeometry {
  import opened JavaInt

  datatype Vec3 = Vec3(x: int, y: int, z: int)
  {
    function Plus(o: Vec3): Vec3 { Vec3(x + o.x, y + o.y, z + o.z) }
    function Minus(o: Vec3): Vec3 { Vec3(x - o.x, y - o.y, z - o.z) }
  }

  /** The first three entries of a Java coordinate array. */
  function ToVec3(s: seq<int>): Vec3
    requires |s| >= 3
  {
    Vec3(s[0], s[1], s[2])
  }

  predicate NonNegative(d: Vec3) { d.x >= 0 && d.y >= 0 && d.z >= 0 }

  function Volume(d: Vec3): int { d.x * d.y * d.z }

  /** `p` lies in the extent `[0, d)` on every axis. */
  predicate InExtent(p: Vec3, d: Vec3)
  {
    0 <= p.x < d.x && 0 <= p.y < d.y && 0 <= p.z < d.z
  }

  /** Position of `p` in the flat buffer of an extent `d`, x running fastest. */
  function FlatIndex(p: Vec3, d: Vec3): int
  {
    p.x + d.x * (p.y + d.y * p.z)
  }

  /** The position held by flat slot `k` of an extent `d`. */
  function Coord(k: int, d: Vec3): Vec3
  {
    if d.x <= 0 || d.y <= 0 then Vec3(0, 0, 0)
    else Vec3(k % d.x, (k / d.x) % d.y, (k / d.x) / d.y)
  }

  lemma MulLeMono(a: int, b: int, c: int)
    requires 0 <= c && a <= b
    ensures c * a <= c * b
  {
  }

  lemma DivModUnique(k: int, d: int, q: int, r: int)
    requires 0 <= r < d && k == q * d + r
    ensures k / d == q && k % d == r
  {
    var q', r' := k / d, k % d;
    assert k == q' * d + r' && 0 <= r' < d;
    assert (q - q') * d == r' - r;
    if q - q' >= 1 {
      MulLeMono(1, q - q', d);
    } else if q - q' <= -1 {
      MulLeMono(q - q', -1, d);
    }
  }

  /** Every position of an extent has a slot inside the buffer. */
  lemma FlatIndexInRange(p: Vec3, d: Vec3)
    requires InExtent(p, d)
    ensures 0 <= FlatIndex(p, d) < Volume(d)
  {
    var inner := p.y + d.y * p.z;
    MulLeMono(p.z, d.z - 1, d.y);
    assert d.y * (d.z - 1) == d.y * d.z - d.y;
    assert 0 <= inner <= d.y * d.z - 1;
    MulLeMono(inner, d.y * d.z - 1, d.x);
    assert d.x * (d.y * d.z - 1) == d.x * (d.y * d.z) - d.x;
    assert d.x * (d.y * d.z) == Volume(d);
    assert 0 <= d.x * inner;
  }

  /** The slots of a buffer and the positions of its extent correspond one to
      one: `Coord` inverts `FlatIndex`. */
  lemma FlatIndexCoord(p: Vec3, d: Vec3)
    requires InExtent(p, d)
    ensures Coord(FlatIndex(p, d), d) == p
  {
    var k := FlatIndex(p, d);
    var inner := p.y + d.y * p.z;
    assert k == inner * d.x + p.x;
    DivModUnique(k, d.x, inner, p.x);
    assert inner == p.z * d.y + p.y;
    DivModUnique(inner, d.y, p.z, p.y);
  }

  /** `FlatIndex` inverts `Coord` on the slots of a buffer. */
  lemma CoordFlatIndex(k: int, d: Vec3)
    requires NonNegative(d) && 0 <= k < Volume(d)
    ensures InExtent(Coord(k, d), d) && FlatIndex(Coord(k, d), d) == k
  {
    PositiveExtent(d);
    var q := k / d.x;
    var px, py, pz := k % d.x, q % d.y, q / d.y;
    assert Coord(k, d) == Vec3(px, py, pz);
    DivMod(k, d.x);
    DivMod(q, d.y);
    VolumeAssoc(d);
    QuotientBelow(k, d.x, d.y * d.z);
    QuotientBelow(q, d.y, d.z);
    var inner := py + d.y * pz;
    assert inner == q;
    assert FlatIndex(Vec3(px, py, pz), d) == px + d.x * inner;
  }

  lemma DivMod(k: int, a: int)
    requires 0 < a
    ensures k == a * (k / a) + k % a && 0 <= k % a < a
  {
  }

  lemma VolumeAssoc(d: Vec3)
    ensures Volume(d) == d.x * (d.y * d.z)
  {
  }

  /** A non-negative extent with room for a slot is positive on every axis. */
  lemma PositiveExtent(d: Vec3)
    requires NonNegative(d) && 0 < Volume(d)
    ensures d.x > 0 && d.y > 0 && d.z > 0
  {
  }

  /** `k < a * m` puts the quotient `k / a` below `m`. */
  lemma QuotientBelow(k: int, a: int, m: int)
    requires 0 <= k && 0 < a && k < a * m
    ensures 0 <= k / a < m
  {
    var q := k / a;
    assert a * q + k % a == k && 0 <= k % a;
    if q >= m {
      MulLeMono(m, q, a);
    }
  }

  /** Two positions of one extent share a slot only if they are equal. */
  lemma FlatIndexInjective(p: Vec3, q: Vec3, d: Vec3)
    requires InExtent(p, d) && InExtent(q, d)
    requires FlatIndex(p, d) == FlatIndex(q, d)
    ensures p == q
  {
    FlatIndexCoord(p, d);
    FlatIndexCoord(q, d);
  }

  /** A closed box `[lo, hi]` of integer positions, as imglib2 intervals are. */
  datatype Box = Box(lo: Vec3, hi: Vec3)
  {
    predicate Contains(p: Vec3)
    {
      lo.x <= p.x <= hi.x && lo.y <= p.y <= hi.y && lo.z <= p.z <= hi.z
    }

    predicate IsEmpty() { hi.x < lo.x || hi.y < lo.y || hi.z < lo.z }

    /** Number of positions per axis. */
    function Size(): Vec3 { Vec3(hi.x - lo.x + 1, hi.y - lo.y + 1, hi.z - lo.z + 1) }
  }

  /** The box of a cell that starts at `min` and has extent `dims`. */
  function CellBox(min: Vec3, dims: Vec3): Box
  {
    Box(min, Vec3(min.x + dims.x - 1, min.y + dims.y - 1, min.z + dims.z - 1))
  }

  /** `Intervals.intersect`: the larger minimum and the smaller maximum per axis. */
  function Intersect(a: Box, b: Box): (r: Box)
    ensures forall p: Vec3 :: r.Contains(p) <==> a.Contains(p) && b.Contains(p)
  {
    Box(Vec3(Max(a.lo.x, b.lo.x), Max(a.lo.y, b.lo.y), Max(a.lo.z, b.lo.z)),
        Vec3(Min(a.hi.x, b.hi.x), Min(a.hi.y, b.hi.y), Min(a.hi.z, b.hi.z)))
  }

  /** A position is in a non-empty box exactly when its offset from the box's
      corner lies in the box's extent. */
  lemma BoxExtent(b: Box, p: Vec3)
    ensures b.Contains(p) <==> InExtent(p.Minus(b.lo), b.Size())
  {
  }

  lemma CellBoxExtent(min: Vec3, dims: Vec3, p: Vec3)
    ensures CellBox(min, dims).Contains(p) <==> InExtent(p.Minus(min), dims)
  {
  }

  /** A non-empty box has a non-negative size. */
  lemma NonEmptySize(b: Box)
    requires !b.IsEmpty()
    ensures NonNegative(b.Size()) && Volume(b.Size()) > 0
  {
    var s := b.Size();
    assert s.x >= 1 && s.y >= 1 && s.z >= 1;
    MulLeMono(1, s.y, s.x);
    MulLeMono(1, s.z, s.x * s.y);
  }
}
