/** `StitchingVolatileShortArrayLoader`: a 16-bit cell fused from the
    stitching tiles that overlap it. The cell starts out zero; every tile
    whose image opens overwrites the part of the cell its box covers, tile
    after tile, so a voxel ends up with the value of the last opened tile
    that covers it. A tile that opens with pixels other than 16-bit throws
    `ClassCastException` instead. */
module StitchingVolatileShortArrayLoaders {
  import opened Wrappers
  import opened JavaInt
  import opened CellGeometry
  import opened VolatileArrays
  import opened CellFiles

  type short = bv16

  /** A stitching tile as the loader uses it: its image file and the closed
      box `getBoundaries()` reports, in global pixel coordinates. */
  datatype TileInfo = TileInfo(file: string, bounds: Box)

  /** The value the cell holds at global position `p` once `tiles` have been
      processed: that of the last tile that opens and whose intersection
      with the cell holds `p`, and 0 when there is none. `readable` are the
      files `IJ.openImage` opens; `sample( tile, p )` is the tile's
      interpolated, translated image at `p`. */
  function StitchedAt(tiles: seq<TileInfo>, readable: set<string>, sample: (TileInfo, Vec3) -> short,
                      cell: Box, p: Vec3): short
    decreases |tiles|
  {
    if tiles == [] then 0
    else
      var t := tiles[|tiles| - 1];
      if t.file in readable && Intersect(t.bounds, cell).Contains(p) then sample(t, p)
      else StitchedAt(tiles[..|tiles| - 1], readable, sample, cell, p)
  }

  /** The whole cell of extent `dims` at `min` in flat order. */
  function Stitched(tiles: seq<TileInfo>, readable: set<string>, sample: (TileInfo, Vec3) -> short,
                    min: Vec3, dims: Vec3): (r: seq<short>)
    requires NonNegative(dims)
    ensures |r| == Volume(dims)
  {
    CellContentsNonNeg(dims);
    seq(Volume(dims), k => StitchedAt(tiles, readable, sample, CellBox(min, dims), min.Plus(Coord(k, dims))))
  }

  /** Tiles are applied in list order: a cell position covered by an opened
      tile takes that tile's value as long as no later opened tile covers
      it. */
  lemma {:induction false} LastWriterWins(tiles: seq<TileInfo>, readable: set<string>,
                                          sample: (TileInfo, Vec3) -> short, cell: Box, p: Vec3, j: int)
    requires cell.Contains(p) && 0 <= j < |tiles|
    requires tiles[j].file in readable && tiles[j].bounds.Contains(p)
    requires forall i :: j < i < |tiles| ==> !(tiles[i].file in readable && tiles[i].bounds.Contains(p))
    ensures StitchedAt(tiles, readable, sample, cell, p) == sample(tiles[j], p)
  {
    if j < |tiles| - 1 {
      var init := tiles[..|tiles| - 1];
      assert forall i :: j < i < |init| ==> init[i] == tiles[i];
      LastWriterWins(init, readable, sample, cell, p, j);
    }
  }

  /** A position that no opened tile covers keeps its initial 0. */
  lemma {:induction false} UncoveredStaysZero(tiles: seq<TileInfo>, readable: set<string>,
                                              sample: (TileInfo, Vec3) -> short, cell: Box, p: Vec3)
    requires forall i :: 0 <= i < |tiles| ==> !(tiles[i].file in readable && tiles[i].bounds.Contains(p))
    ensures StitchedAt(tiles, readable, sample, cell, p) == 0
  {
    if tiles != [] {
      var init := tiles[..|tiles| - 1];
      assert forall i :: 0 <= i < |init| ==> init[i] == tiles[i];
      UncoveredStaysZero(init, readable, sample, cell, p);
    }
  }

  /** A tile whose image does not open changes nothing, wherever it sits in
      the list. */
  lemma {:induction false} UnreadableTileSkipped(before: seq<TileInfo>, t: TileInfo, after: seq<TileInfo>,
                                                 readable: set<string>, sample: (TileInfo, Vec3) -> short,
                                                 cell: Box, p: Vec3)
    requires t.file !in readable
    ensures StitchedAt(before + [t] + after, readable, sample, cell, p) == StitchedAt(before + after, readable, sample, cell, p)
    decreases |after|
  {
    if after == [] {
      assert (before + [t] + after)[..|before| + 1 - 1] == before;
      assert before + after == before;
    } else {
      var a' := after[..|after| - 1];
      assert (before + [t] + after)[..|before + [t] + after| - 1] == before + [t] + a';
      assert (before + after)[..|before + after| - 1] == before + a';
      UnreadableTileSkipped(before, t, a', readable, sample, cell, p);
    }
  }

  /** Tile `t` opens as an image whose pixels are not 16-bit (`kindOf` is the
      image type `IJ.openImage` reports for a file). The unchecked cast to
      `UnsignedShortType` passes, and the cursor loop throws
      `ClassCastException` at its first voxel. */
  predicate OpensAsOtherType(t: TileInfo, readable: set<string>, kindOf: string -> ImageKind)
  {
    t.file in readable && kindOf(t.file) != Gray16
  }

  /** The intersection lies inside the cell box. */
  ghost predicate InsideCell(isect: Box, min: Vec3, dims: Vec3)
  {
    forall p :: isect.Contains(p) ==> CellBox(min, dims).Contains(p)
  }

  /** Step `k` of the cursor pair: the `k`-th position of the intersection in
      flat order and the cell slot the target cursor is on. */
  lemma CursorStep(isect: Box, min: Vec3, dims: Vec3, k: int)
    requires NonNegative(dims) && !isect.IsEmpty() && InsideCell(isect, min, dims)
    requires 0 <= k < Volume(isect.Size())
    ensures var q := isect.lo.Plus(Coord(k, isect.Size()));
      && isect.Contains(q)
      && FlatIndex(q.Minus(isect.lo), isect.Size()) == k
      && 0 <= FlatIndex(q.Minus(min), dims) < Volume(dims)
      && min.Plus(Coord(FlatIndex(q.Minus(min), dims), dims)) == q
  {
    NonEmptySize(isect);
    var size := isect.Size();
    CoordFlatIndex(k, size);
    var q := isect.lo.Plus(Coord(k, size));
    assert q.Minus(isect.lo) == Coord(k, size);
    BoxExtent(isect, q);
    assert CellBox(min, dims).Contains(q);
    CellBoxExtent(min, dims, q);
    FlatIndexInRange(q.Minus(min), dims);
    FlatIndexCoord(q.Minus(min), dims);
  }

  /** The target cursor visits each cell slot at most once: a slot other than
      the one of step `k` does not hold the `k`-th position. */
  lemma OtherSlot(isect: Box, min: Vec3, dims: Vec3, k: int, j: int)
    requires NonNegative(dims) && !isect.IsEmpty() && InsideCell(isect, min, dims)
    requires 0 <= k < Volume(isect.Size()) && 0 <= j < Volume(dims)
    requires j != FlatIndex(isect.lo.Plus(Coord(k, isect.Size())).Minus(min), dims)
    ensures var q := min.Plus(Coord(j, dims));
      isect.Contains(q) ==> FlatIndex(q.Minus(isect.lo), isect.Size()) != k
  {
    var size := isect.Size();
    var q := min.Plus(Coord(j, dims));
    if isect.Contains(q) && FlatIndex(q.Minus(isect.lo), size) == k {
      BoxExtent(isect, q);
      FlatIndexCoord(q.Minus(isect.lo), size);
      assert q == isect.lo.Plus(Coord(k, size));
      CoordFlatIndex(j, dims);
      assert false;
    }
  }

  /** The source/target cursor loop of one tile: every cell position in the
      intersection gets the tile's value, every other slot is unchanged. */
  method CopyIntersection(data: array<short>, min: Vec3, dims: Vec3, isect: Box,
                          t: TileInfo, sample: (TileInfo, Vec3) -> short)
    requires NonNegative(dims) && data.Length == Volume(dims)
    requires !isect.IsEmpty() && InsideCell(isect, min, dims)
    modifies data
    ensures forall j :: 0 <= j < data.Length ==>
      data[j] == (if isect.Contains(min.Plus(Coord(j, dims))) then sample(t, min.Plus(Coord(j, dims))) else old(data[j]))
  {
    var size := isect.Size();
    NonEmptySize(isect);
    var k := 0;
    while k < Volume(size)
      invariant 0 <= k <= Volume(size)
      invariant forall j :: 0 <= j < data.Length ==>
        data[j] == (if isect.Contains(min.Plus(Coord(j, dims))) && FlatIndex(min.Plus(Coord(j, dims)).Minus(isect.lo), size) < k
                    then sample(t, min.Plus(Coord(j, dims))) else old(data[j]))
    {
      CursorStep(isect, min, dims, k);
      var q := isect.lo.Plus(Coord(k, size));
      var slot := FlatIndex(q.Minus(min), dims);
      forall j | 0 <= j < data.Length && j != slot
        ensures var p := min.Plus(Coord(j, dims));
          isect.Contains(p) ==> FlatIndex(p.Minus(isect.lo), size) != k
      {
        OtherSlot(isect, min, dims, k, j);
      }
      data[slot] := sample(t, q);
      k := k + 1;
    }
    forall j | 0 <= j < data.Length && isect.Contains(min.Plus(Coord(j, dims)))
      ensures FlatIndex(min.Plus(Coord(j, dims)).Minus(isect.lo), size) < Volume(size)
    {
      BoxExtent(isect, min.Plus(Coord(j, dims)));
      FlatIndexInRange(min.Plus(Coord(j, dims)).Minus(isect.lo), size);
    }
  }

  class StitchingVolatileShortArrayLoader {
    var theEmptyArray: VolatileArray<short>
    const tiles: seq<TileInfo>

    ghost predicate Valid()
      reads this
    {
      !theEmptyArray.valid && theEmptyArray.data.Length >= 1
    }

    constructor (tiles: seq<TileInfo>)
      ensures Valid() && fresh(theEmptyArray) && fresh(theEmptyArray.data)
      ensures theEmptyArray.data.Length == 1 && theEmptyArray.data[0] == 0
      ensures this.tiles == tiles
    {
      theEmptyArray := new VolatileArray.Zeros(1, 0, false);
      this.tiles := tiles;
    }

    function GetBytesPerElement(): (r: int)
      ensures r == 2
    {
      2
    }

    /** `loadArray`. `boxTiles` is what `TileOperations.findTilesWithinSubregion`
        returns for the cell: tiles whose boxes overlap it. An opened tile of
        another pixel type ends the load with `ClassCastException`; what
        earlier tiles wrote is lost with the buffer. */
    method LoadArray(timepoint: int, setup: int, level: int, dimensions: seq<int>, min: seq<int>,
                     boxTiles: seq<TileInfo>, readable: set<string>, kindOf: string -> ImageKind,
                     sample: (TileInfo, Vec3) -> short)
      returns (r: Result<VolatileArray<short>, JavaException>)
      requires |min| >= 3 && ValidCellDims(dimensions)
      requires forall i :: 0 <= i < |boxTiles| ==>
        !Intersect(boxTiles[i].bounds, CellBox(ToVec3(min), ToVec3(dimensions))).IsEmpty()
      ensures if exists i :: 0 <= i < |boxTiles| && OpensAsOtherType(boxTiles[i], readable, kindOf)
        then r == Err(ClassCast)
        else && r.Ok? && fresh(r.value) && fresh(r.value.data) && r.value.valid
             && r.value.data[..] == Stitched(boxTiles, readable, sample, ToVec3(min), ToVec3(dimensions))
    {
      var dims, origin := ToVec3(dimensions), ToVec3(min);
      ProductOfCellDims(dimensions);
      var data := new short[dimensions[0] * dimensions[1] * dimensions[2]](_ => 0);
      var cell := CellBox(origin, dims);
      var i := 0;
      while i < |boxTiles|
        invariant 0 <= i <= |boxTiles|
        invariant forall j :: 0 <= j < i ==> !OpensAsOtherType(boxTiles[j], readable, kindOf)
        invariant forall j :: 0 <= j < data.Length ==>
          data[j] == StitchedAt(boxTiles[..i], readable, sample, cell, origin.Plus(Coord(j, dims)))
      {
        var tile := boxTiles[i];
        assert boxTiles[..i + 1][..i] == boxTiles[..i];
        if tile.file in readable {
          if kindOf(tile.file) != Gray16 {
            assert OpensAsOtherType(boxTiles[i], readable, kindOf);
            return Err(ClassCast);
          }
          var intersection := Intersect(tile.bounds, cell);
          CopyIntersection(data, origin, dims, intersection, tile, sample);
        }
        i := i + 1;
      }
      assert boxTiles[..i] == boxTiles;
      var loaded := new VolatileArray.Wrap(data, true);
      r := Ok(loaded);
    }

    method EmptyArray(dimensions: seq<int>) returns (r: VolatileArray<short>)
      requires Valid()
      modifies this
      ensures Valid() && r == theEmptyArray
      ensures theEmptyArray.data.Length ==
        NextPlaceholderLength(old(theEmptyArray.data.Length), Wrap32(Product(dimensions)))
      ensures old(theEmptyArray.data.Length) >= Wrap32(Product(dimensions)) ==> theEmptyArray == old(theEmptyArray)
      ensures old(theEmptyArray.data.Length) < Wrap32(Product(dimensions)) ==>
        && fresh(theEmptyArray) && fresh(theEmptyArray.data)
        && forall k :: 0 <= k < theEmptyArray.data.Length ==> theEmptyArray.data[k] == 0
    {
      var numEntities := NumEntities(dimensions, 1);
      theEmptyArray := ReusedOrGrown(theEmptyArray, numEntities, 0);
      r := theEmptyArray;
    }
  }
}
