/** What the file-per-cell loaders have in common: the locator tuple handed
    to `String.format`, the backing store that `File.exists` and
    `IJ.openImage` consult, the zero-extended view of an opened image, the
    `numEntities` product loop, the two copy loops and the placeholder rule
    of `emptyArray`. */
module CellFiles {
  import opened Wrappers
  import opened JavaInt
  import opened CellGeometry
  import opened VolatileArrays

  /** The arguments of `String.format( cellFormat, ... )`, in order. */
  datatype Locator = Locator(args: seq<int>)

  /** `ImagePlus.getType()`. */
  datatype ImageKind = Gray8 | Gray16 | Gray32 | Color256 | ColorRgb

  /** An opened image as `ImagePlusImgs.from` presents it: its type tag, its
      extent (width, height, slices) and its pixels, x running fastest. */
  datatype ImagePlus<T> = ImagePlus(kind: ImageKind, dims: Vec3, pixels: seq<T>)

  predicate WellFormed<T>(img: ImagePlus<T>)
  {
    NonNegative(img.dims) && |img.pixels| == Volume(img.dims)
  }

  type Image<T> = img: ImagePlus<T> | WellFormed(img)
    witness ImagePlus(Gray8, Vec3(0, 0, 0), [])

  /** The backing store of a loader. A locator that is not a key names a file
      that does not exist; a key mapped to `None` names a file that
      `IJ.openImage` cannot open (it returns `null`). */
  type Storage<T> = map<Locator, Option<Image<T>>>

  /** The image a loader gets for a locator, or `None` when opening fails. */
  function Open<T>(store: Storage<T>, loc: Locator): (r: Option<Image<T>>)
    ensures loc !in store ==> r == None
    ensures loc in store ==> r == store[loc]
  {
    if loc in store then store[loc] else None
  }

  /** `Views.extendZero( img )` read at `p`. */
  function ZeroExtended<T>(img: Image<T>, p: Vec3, zero: T): T
  {
    if InExtent(p, img.dims) then
      FlatIndexInRange(p, img.dims);
      img.pixels[FlatIndex(p, img.dims)]
    else zero
  }

  /** The exact product of all entries of `dims`. */
  function Product(dims: seq<int>): int
  {
    if dims == [] then 1 else Product(dims[..|dims| - 1]) * dims[|dims| - 1]
  }

  /** What the cache hands a loader as cell dimensions: three non-negative
      extents whose product is a legal Java array length. */
  predicate ValidCellDims(dims: seq<int>)
  {
    |dims| == 3 && dims[0] >= 0 && dims[1] >= 0 && dims[2] >= 0 && Product(dims) <= INT_MAX
  }

  lemma ProductOfCellDims(dims: seq<int>)
    requires ValidCellDims(dims)
    ensures Product(dims) == Volume(ToVec3(dims)) >= 0
  {
    assert dims[..2][..1] == [dims[0]];
    assert dims[..1] == [dims[0]];
    assert Product(dims[..1]) == dims[0];
    assert Product(dims[..2]) == dims[0] * dims[1];
    assert 0 <= dims[0] * dims[1];
    assert 0 <= dims[0] * dims[1] * dims[2];
  }

  /** The `numEntities` loop: `n = start; for each d: n *= d`, in Java `int`
      arithmetic. */
  method NumEntities(dims: seq<int>, start: int) returns (n: int)
    requires IsInt(start)
    ensures n == Wrap32(start * Product(dims))
  {
    n := start;
    var i := 0;
    while i < |dims|
      invariant 0 <= i <= |dims|
      invariant n == Wrap32(start * Product(dims[..i]))
    {
      assert dims[..i + 1][..i] == dims[..i];
      Wrap32Mul(start * Product(dims[..i]), dims[i]);
      assert start * Product(dims[..i + 1]) == start * Product(dims[..i]) * dims[i];
      n := Wrap32(n * dims[i]);
      i := i + 1;
    }
    assert dims[..|dims|] == dims;
  }

  /** The full cell of extent `dims` read from the zero-extended image: slot
      `k` holds the value at position `Coord(k, dims)`. This is the order in
      which both a flat cursor over the source and a pair cursor over the
      target visit the cell. */
  function CellContents<T>(img: Image<T>, dims: Vec3, zero: T): (r: seq<T>)
    requires NonNegative(dims)
    ensures |r| == Volume(dims)
  {
    assert Volume(dims) >= 0 by { MulLeMono(0, dims.y, dims.x); MulLeMono(0, dims.z, dims.x * dims.y); }
    seq(Volume(dims), k => ZeroExtended(img, Coord(k, dims), zero))
  }

  /** Position-wise copy with zero extension: the cell position `p` holds the
      image's pixel at `p` when `p` lies inside the image and `zero` where the
      cell overhangs it. */
  lemma CellContentsAt<T>(img: Image<T>, dims: Vec3, zero: T, p: Vec3)
    requires NonNegative(dims) && InExtent(p, dims)
    ensures 0 <= FlatIndex(p, dims) < Volume(dims)
    ensures InExtent(p, img.dims) ==>
      && 0 <= FlatIndex(p, img.dims) < |img.pixels|
      && CellContents(img, dims, zero)[FlatIndex(p, dims)] == img.pixels[FlatIndex(p, img.dims)]
    ensures !InExtent(p, img.dims) ==> CellContents(img, dims, zero)[FlatIndex(p, dims)] == zero
  {
    var k := FlatIndex(p, dims);
    FlatIndexInRange(p, dims);
    FlatIndexCoord(p, dims);
    var r := CellContents(img, dims, zero);
    assert r[k] == ZeroExtended(img, Coord(k, dims), zero);
    if InExtent(p, img.dims) {
      FlatIndexInRange(p, img.dims);
    }
  }

  /** A cell that lies inside the image is an exact copy of that part of it;
      an image that does not reach the cell leaves it all `zero`. */
  lemma CellContentsOutside<T>(img: Image<T>, dims: Vec3, zero: T)
    requires NonNegative(dims)
    requires img.dims.x == 0 || img.dims.y == 0 || img.dims.z == 0
    ensures forall k :: 0 <= k < Volume(dims) ==> CellContents(img, dims, zero)[k] == zero
  {
  }

  /** The buffer a loader returns: the cell read from the image when the
      file opened, and the untouched zero buffer otherwise. */
  function LoadedCell<T>(file: Option<Image<T>>, dims: Vec3, zero: T): (r: seq<T>)
    requires NonNegative(dims)
    ensures |r| == Volume(dims)
    ensures file.None? ==> forall k :: 0 <= k < |r| ==> r[k] == zero
    ensures file.Some? ==> r == CellContents(file.value, dims, zero)
  {
    match file
    case None => seq(Volume(dims), _ => zero)
    case Some(img) => CellContents(img, dims, zero)
  }

  lemma CellContentsNonNeg(dims: Vec3)
    requires NonNegative(dims)
    ensures Volume(dims) >= 0
  {
    MulLeMono(0, dims.y, dims.x);
    MulLeMono(0, dims.z, dims.x * dims.y);
  }

  /** The pair-cursor copy of `AbstractCellFileArrayLoader` and of the byte
      and float loaders: for every position of the target, in flat order,
      the target gets the zero-extended source value at that position. */
  method CopyPositionwise<T>(data: array<T>, img: Image<T>, dims: Vec3, zero: T)
    requires NonNegative(dims) && data.Length == Volume(dims)
    modifies data
    ensures data[..] == CellContents(img, dims, zero)
  {
    var k := 0;
    while k < data.Length
      invariant 0 <= k <= data.Length
      invariant forall j :: 0 <= j < k ==> data[j] == CellContents(img, dims, zero)[j]
    {
      var p := Coord(k, dims);
      CoordFlatIndex(k, dims);
      data[FlatIndex(p, dims)] := ZeroExtended(img, p, zero);
      k := k + 1;
    }
  }

  /** The two-cursor copy of the unsigned short loader: the k-th element of
      the zero-extended source in flat order lands in target slot k. */
  method CopyFlat<T>(data: array<T>, img: Image<T>, dims: Vec3, zero: T)
    requires NonNegative(dims) && data.Length == Volume(dims)
    modifies data
    ensures data[..] == CellContents(img, dims, zero)
  {
    var k := 0;
    while k < data.Length
      invariant 0 <= k <= data.Length
      invariant forall j :: 0 <= j < k ==> data[j] == CellContents(img, dims, zero)[j]
    {
      data[k] := ZeroExtended(img, Coord(k, dims), zero);
      k := k + 1;
    }
  }

  /** The `emptyArray` rule: the cached placeholder is kept when it holds at
      least `needed` entries and is otherwise replaced by one of exactly
      `needed` entries. */
  function NextPlaceholderLength(current: int, needed: int): (r: int)
    ensures r >= current && r >= needed
    ensures r == current || r == needed
    ensures current >= needed ==> r == current
  {
    if current < needed then needed else current
  }
  /** The placeholder step shared by every `emptyArray`: the current array is
      returned when it holds at least `needed` entries, and otherwise a fresh
      invalid zero array of exactly `needed` entries replaces it. */
  method ReusedOrGrown<T>(current: VolatileArray<T>, needed: int, zero: T) returns (r: VolatileArray<T>)
    ensures r.data.Length == NextPlaceholderLength(current.data.Length, needed)
    ensures current.data.Length >= needed ==> r == current
    ensures current.data.Length < needed ==>
      && fresh(r) && fresh(r.data) && !r.valid
      && forall k :: 0 <= k < r.data.Length ==> r.data[k] == zero
  {
    if current.data.Length < needed {
      r := new VolatileArray.Zeros(needed, zero, false);
    } else {
      r := current;
    }
  }

  /** A cell-size row that the grid-indexed loaders can divide by: three
      entries, none of them zero (a zero entry throws `ArithmeticException`). */
  predicate GridCellSize(cellSize: seq<int>)
  {
    |cellSize| >= 3 && cellSize[0] != 0 && cellSize[1] != 0 && cellSize[2] != 0
  }

  /** The exception, if any, that evaluating `min[ 0 ] / cellSize[ 0 ]`,
      `min[ 1 ] / cellSize[ 1 ]` and `min[ 2 ] / cellSize[ 2 ]` left to right
      ends with: the first axis either lies past the row's end
      (`ArrayIndexOutOfBoundsException`) or divides by zero
      (`ArithmeticException`). A zero among the entries the row has wins over
      a missing entry, since the zero is reached first. */
  function GridFailure(cellSize: seq<int>): (r: Option<JavaException>)
    ensures r.None? <==> GridCellSize(cellSize)
    ensures r.Some? ==> r.value == ArithmeticException || r.value == ArrayIndexOutOfBounds
    ensures r.Some? ==>
      (r.value == ArithmeticException <==> exists d :: 0 <= d < 3 && d < |cellSize| && cellSize[d] == 0)
  {
    if |cellSize| < 1 then Some(ArrayIndexOutOfBounds)
    else if cellSize[0] == 0 then Some(ArithmeticException)
    else if |cellSize| < 2 then Some(ArrayIndexOutOfBounds)
    else if cellSize[1] == 0 then Some(ArithmeticException)
    else if |cellSize| < 3 then Some(ArrayIndexOutOfBounds)
    else if cellSize[2] == 0 then Some(ArithmeticException)
    else None
  }

  /** `min[ d ] / cellSize[ d ]` on Java longs. For a non-negative pixel
      offset and a positive cell size it is the index of the grid cell that
      holds the offset; for a negative offset the quotient is truncated
      toward zero, so the cell found is the one on the origin's side. */
  function GridIndex(m: int, cs: int): (g: int)
    requires cs != 0
    ensures 0 <= m && 0 < cs ==> 0 <= g && cs * g <= m < cs * (g + 1)
    ensures m < 0 && 0 < cs ==> g <= 0 && cs * (g - 1) < m <= cs * g
  {
    if 0 < cs then GridIndexBounds(m, cs); Div(m, cs) else Div(m, cs)
  }

  lemma GridIndexBounds(m: int, cs: int)
    requires 0 < cs
    ensures 0 <= m ==> 0 <= Div(m, cs) && cs * Div(m, cs) <= m < cs * (Div(m, cs) + 1)
    ensures m < 0 ==> Div(m, cs) <= 0 && cs * (Div(m, cs) - 1) < m <= cs * Div(m, cs)
  {
    var n := Abs(m);
    var q := n / cs;
    QuotientBounds(n, cs, q);
    if 0 <= m {
      assert Div(m, cs) == q;
    } else {
      assert Div(m, cs) == -q;
      NegatedBounds(cs, q, m);
    }
  }

  /** `q = n / cs` puts `n` between `cs * q` and `cs * q + cs`. */
  lemma QuotientBounds(n: nat, cs: int, q: int)
    requires 0 < cs && q == n / cs
    ensures 0 <= q && cs * q <= n < cs * (q + 1)
  {
    var rem := n % cs;
    assert n == cs * q + rem && 0 <= rem < cs;
    assert cs * (q + 1) == cs * q + cs;
  }

  lemma NegatedBounds(cs: int, q: int, m: int)
    requires 0 < cs && 0 <= q && cs * q <= -m < cs * (q + 1)
    ensures cs * (-q - 1) < m <= cs * -q
  {
    assert cs * -q == -(cs * q);
    assert cs * (-q - 1) == -(cs * (q + 1));
  }


  /** The seven locator arguments of the byte and generic loaders: level,
      grid column/row/slice, then the cell's pixel offsets x/y/z. */
  function GridAndPixelLocator(level: int, cellSize: seq<int>, min: seq<int>): (r: Locator)
    requires GridCellSize(cellSize) && |min| >= 3
    ensures |r.args| == 7 && r.args[0] == level && r.args[4..] == min[..3]
    ensures forall d :: 0 <= d < 3 ==> r.args[1 + d] == GridIndex(min[d], cellSize[d])
  {
    Locator([level, GridIndex(min[0], cellSize[0]), GridIndex(min[1], cellSize[1]),
             GridIndex(min[2], cellSize[2]), min[0], min[1], min[2]])
  }

  /** The four locator arguments of the float loader: level and grid
      column/row/slice. */
  function GridLocator(level: int, cellSize: seq<int>, min: seq<int>): (r: Locator)
    requires GridCellSize(cellSize) && |min| >= 3
    ensures |r.args| == 4 && r.args[0] == level
    ensures forall d :: 0 <= d < 3 ==> r.args[1 + d] == GridIndex(min[d], cellSize[d])
  {
    Locator([level, GridIndex(min[0], cellSize[0]), GridIndex(min[1], cellSize[1]),
             GridIndex(min[2], cellSize[2])])
  }

  /** The four locator arguments of the unsigned short loader: level and the
      cell's pixel offsets x/y/z; the cell size is not used. */
  function PixelLocator(level: int, min: seq<int>): (r: Locator)
    requires |min| >= 3
    ensures |r.args| == 4 && r.args[0] == level && r.args[1..] == min[..3]
  {
    Locator([level, min[0], min[1], min[2]])
  }

  /** Cells at different pixel offsets are read from different files. */
  lemma PixelLocatorInjective(level: int, min: seq<int>, min': seq<int>)
    requires |min| >= 3 && |min'| >= 3
    requires PixelLocator(level, min) == PixelLocator(level, min')
    ensures min[..3] == min'[..3]
  {
    assert PixelLocator(level, min).args[1..] == min[..3];
  }

  /** Two cells whose offsets fall into the same grid cell on every axis
      share one file under the four-argument grid locator, while the seven
      argument locator tells them apart by their pixel offsets. */
  lemma GridLocatorSharedCell(level: int, cellSize: seq<int>, min: seq<int>, min': seq<int>)
    requires GridCellSize(cellSize) && |min| >= 3 && |min'| >= 3
    requires forall d :: 0 <= d < 3 ==> GridIndex(min[d], cellSize[d]) == GridIndex(min'[d], cellSize[d])
    ensures GridLocator(level, cellSize, min) == GridLocator(level, cellSize, min')
    ensures GridAndPixelLocator(level, cellSize, min) == GridAndPixelLocator(level, cellSize, min')
        <==> min[..3] == min'[..3]
  {
    var a, b := GridAndPixelLocator(level, cellSize, min), GridAndPixelLocator(level, cellSize, min');
    if a == b {
      assert a.args[4..] == b.args[4..];
    }
    if min[..3] == min'[..3] {
      assert min[0] == min'[0] && min[1] == min'[1] && min[2] == min'[2];
    }
  }

  /** The gray-8 and gray-32 loaders convert an image of another type in
      place (`ImageConverter`) instead of rejecting it. */
  function ConvertedTo<T>(file: Option<Image<T>>, kind: ImageKind, convert: Image<T> -> Image<T>): (r: Option<Image<T>>)
    ensures r.None? <==> file.None?
    ensures file.Some? && file.value.kind == kind ==> r == file
    ensures file.Some? && file.value.kind != kind ==> r == Some(convert(file.value))
  {
    match file
    case None => None
    case Some(img) => if img.kind == kind then file else Some(convert(img))
  }

  /** The gray-16 loader treats an image of another type like one that could
      not be opened. */
  function OfKind<T>(file: Option<Image<T>>, kind: ImageKind): (r: Option<Image<T>>)
    ensures r.Some? <==> file.Some? && file.value.kind == kind
    ensures r.Some? ==> r == file
  {
    if file.Some? && file.value.kind == kind then file else None
  }
}
