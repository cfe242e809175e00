/** `CellFileImageMetaData`: the JSON-backed description of a file-per-cell
    source (its fields are filled by the JSON reader and only read here),
    with the conversion of per-level maps into level-indexed arrays and the
    calibrated transform. */
module CellFileImageMetaDatas {
  import opened Wrappers
  import opened Mipmaps

  /** The slots of `new T[ n ][]` after `slots[ key ] = value` for every
      entry: slot `k` holds the entry for key `k`, and stays `null` when the
      map has no such key. */
  function Slots<V>(m: map<int, V>, n: nat): (r: seq<Option<V>>)
    ensures |r| == n
    ensures forall k :: 0 <= k < n ==> (r[k].Some? <==> k in m)
    ensures forall k :: 0 <= k < n && k in m ==> r[k] == Some(m[k])
  {
    seq(n, k => if k in m then Some(m[k]) else None)
  }

  /** Every key of the map names a slot of an array of `n` levels. */
  predicate KeysInRange<V>(m: map<int, V>, n: int)
  {
    forall k :: k in m ==> 0 <= k < n
  }

  /** The map a slot array stands for: one entry per non-`null` slot. */
  function SlotsToMap<V>(s: seq<Option<V>>): map<int, V>
  {
    map k | 0 <= k < |s| && s[k].Some? :: s[k].value
  }

  /** No entry is lost or invented: the slot array of a map whose keys are
      level indices gives back the map. */
  lemma SlotsRoundTrip<V>(m: map<int, V>, n: nat)
    requires KeysInRange(m, n)
    ensures SlotsToMap(Slots(m, n)) == m
  {
    var back := SlotsToMap(Slots(m, n));
    forall k | k in m
      ensures k in back && back[k] == m[k]
    {
    }
    assert back.Keys == m.Keys;
  }

  /** A non-empty set of keys has a first key to visit. */
  lemma SomeKey(keys: set<int>)
    requires keys != {}
    ensures exists k :: k in keys
  {
    if forall k :: k !in keys {
      assert false;
    }
  }

  /** The loop of `getImageDimensions` and `getCellDimensions`: a fresh
      array of `numScales` slots, each key's value stored at its index. A
      negative `numScales` throws on allocation and a key outside the array
      throws on the store; the order in which the keys are visited does not
      change the outcome. */
  method MapToSlots<V>(m: map<int, V>, numScales: int) returns (r: Result<array<Option<V>>, JavaException>)
    ensures numScales < 0 ==> r == Err(NegativeArraySize)
    ensures numScales >= 0 && !KeysInRange(m, numScales) ==> r == Err(ArrayIndexOutOfBounds)
    ensures numScales >= 0 && KeysInRange(m, numScales) ==>
      r.Ok? && fresh(r.value) && r.value[..] == Slots(m, numScales)
  {
    if numScales < 0 {
      return Err(NegativeArraySize);
    }
    var slots := new Option<V>[numScales](_ => None);
    var keys := m.Keys;
    while keys != {}
      invariant keys <= m.Keys
      invariant forall k :: k in m && k !in keys ==> 0 <= k < numScales
      invariant forall k :: 0 <= k < numScales ==> slots[k] == if k in m && k !in keys then Some(m[k]) else None
      decreases keys
    {
      SomeKey(keys);
      var key :| key in keys;
      if key < 0 || key >= numScales {
        return Err(ArrayIndexOutOfBounds);
      }
      slots[key] := Some(m[key]);
      keys := keys - {key};
    }
    return Ok(slots);
  }

  /** Java's `a *= num / den` on doubles, with exact arithmetic. */
  function Scaled(a: real, num: real, den: real): real
    requires den != 0.0
  {
    a * (num / den)
  }

  /** `getTransform` on the stored rows and voxel size: the stored matrix
      with entry (1,1) scaled by `vd[1] / vd[0]` and entry (2,2) by
      `vd[2] / vd[0]`. Fewer than three rows, a row shorter than four
      entries or fewer than three voxel sizes make an index throw. */
  function CalibratedTransform(rows: seq<seq<real>>, vd: seq<real>): (r: Result<Transform, JavaException>)
    requires |vd| >= 2 ==> vd[0] != 0.0
    ensures r.Ok? <==> |rows| >= 3 && |rows[0]| >= 4 && |rows[1]| >= 4 && |rows[2]| >= 4 && |vd| >= 3
    ensures r.Err? ==> r.error == ArrayIndexOutOfBounds
    ensures r.Ok? ==> r.value.m[1][1] == rows[1][1] * (vd[1] / vd[0])
    ensures r.Ok? ==> r.value.m[2][2] == rows[2][2] * (vd[2] / vd[0])
    ensures r.Ok? ==> forall i, j :: 0 <= i < 3 && 0 <= j < 4 && (i, j) != (1, 1) && (i, j) != (2, 2) ==>
      r.value.m[i][j] == rows[i][j]
  {
    if |rows| < 3 || |rows[0]| < 4 || |rows[1]| < 4 || |rows[2]| < 4 || |vd| < 3 then Err(ArrayIndexOutOfBounds)
    else
      Ok(Affine3D([rows[0][..4],
                   rows[1][1 := Scaled(rows[1][1], vd[1], vd[0])][..4],
                   rows[2][2 := Scaled(rows[2][2], vd[2], vd[0])][..4]]))
  }

  /** Equal voxel sizes leave the stored matrix as it is. */
  lemma IsotropicKeepsTransform(rows: seq<seq<real>>, vd: seq<real>)
    requires |vd| >= 3 && vd[0] != 0.0 && vd[1] == vd[0] && vd[2] == vd[0]
    requires |rows| >= 3 && |rows[0]| >= 4 && |rows[1]| >= 4 && |rows[2]| >= 4
    ensures CalibratedTransform(rows, vd).Ok?
    ensures forall i, j :: 0 <= i < 3 && 0 <= j < 4 ==> CalibratedTransform(rows, vd).value.m[i][j] == rows[i][j]
  {
    assert vd[1] / vd[0] == 1.0;
    assert vd[2] / vd[0] == 1.0;
  }

  /** The identity rows that `transform` starts with. */
  function IdentityRows(): seq<seq<real>>
  {
    [[1.0, 0.0, 0.0, 0.0], [0.0, 1.0, 0.0, 0.0], [0.0, 0.0, 1.0, 0.0]]
  }

  /** With the default matrix and voxel size the transform is the identity. */
  lemma DefaultTransformIsIdentity()
    ensures CalibratedTransform(IdentityRows(), [1.0, 1.0, 1.0]) == Ok(Identity())
  {
    var r := CalibratedTransform(IdentityRows(), [1.0, 1.0, 1.0]);
    assert r.Ok?;
    var t := r.value;
    forall i | 0 <= i < 3
      ensures t.m[i] == Identity().m[i]
    {
      assert forall j :: 0 <= j < 4 ==> t.m[i][j] == Identity().m[i][j];
    }
    assert t.m == Identity().m;
  }

  /** `FinalVoxelDimensions`: a unit and a size per axis. */
  datatype VoxelDimensions = VoxelDimensions(unit: string, dimensions: seq<real>)

  class CellFileImageMetaData {
    var urlFormat: string
    var imageType: string
    var numScales: int
    var levelImageDimensions: map<int, seq<int>>
    var levelCellDimensions: map<int, seq<int>>
    /** The stored matrix, row by row; its rows are only ever cloned, never
        written, so they are held as values. */
    var transform: seq<seq<real>>
    var displayRangeMin: real
    var displayRangeMax: real
    var voxelDimensions: seq<real>
    var voxelUnit: string

    /** The field initialisers: no url format and image type, no levels,
        the identity matrix, a display range of 0..0xffff and a voxel of
        1 x 1 x 1 nm. */
    constructor ()
      ensures urlFormat == "" && imageType == "" && numScales == 0
      ensures levelImageDimensions == map[] && levelCellDimensions == map[]
      ensures transform == IdentityRows()
      ensures displayRangeMin == 0.0 && displayRangeMax == 0xffff as real
      ensures voxelDimensions == [1.0, 1.0, 1.0] && voxelUnit == "nm"
    {
      urlFormat := "";
      imageType := "";
      numScales := 0;
      levelImageDimensions := map[];
      levelCellDimensions := map[];
      transform := [[1.0, 0.0, 0.0, 0.0], [0.0, 1.0, 0.0, 0.0], [0.0, 0.0, 1.0, 0.0]];
      displayRangeMin := 0.0;
      displayRangeMax := 0xffff as real;
      voxelDimensions := [1.0, 1.0, 1.0];
      voxelUnit := "nm";
    }

    /** `getUrlFormat()`: the stored cell file name pattern. */
    method GetUrlFormat() returns (r: string)
      ensures r == urlFormat
    {
      r := urlFormat;
    }

    /** `getImageType()`: the stored pixel type name. */
    method GetImageType() returns (r: string)
      ensures r == imageType
    {
      r := imageType;
    }

    /** `getDisplayRangeMin()`: the stored lower display bound. */
    method GetDisplayRangeMin() returns (r: real)
      ensures r == displayRangeMin
    {
      r := displayRangeMin;
    }

    /** `getDisplayRangeMax()`: the stored upper display bound. */
    method GetDisplayRangeMax() returns (r: real)
      ensures r == displayRangeMax
    {
      r := displayRangeMax;
    }

    /** `getImageDimensions`: level `k`'s image dimensions in slot `k`. */
    method GetImageDimensions() returns (r: Result<array<Option<seq<int>>>, JavaException>)
      ensures numScales < 0 ==> r == Err(NegativeArraySize)
      ensures numScales >= 0 && !KeysInRange(levelImageDimensions, numScales) ==> r == Err(ArrayIndexOutOfBounds)
      ensures numScales >= 0 && KeysInRange(levelImageDimensions, numScales) ==>
        r.Ok? && fresh(r.value) && r.value[..] == Slots(levelImageDimensions, numScales)
    {
      r := MapToSlots(levelImageDimensions, numScales);
    }

    /** `getCellDimensions`: level `k`'s cell dimensions in slot `k`. */
    method GetCellDimensions() returns (r: Result<array<Option<seq<int>>>, JavaException>)
      ensures numScales < 0 ==> r == Err(NegativeArraySize)
      ensures numScales >= 0 && !KeysInRange(levelCellDimensions, numScales) ==> r == Err(ArrayIndexOutOfBounds)
      ensures numScales >= 0 && KeysInRange(levelCellDimensions, numScales) ==>
        r.Ok? && fresh(r.value) && r.value[..] == Slots(levelCellDimensions, numScales)
    {
      r := MapToSlots(levelCellDimensions, numScales);
    }

    /** `getVoxelDimensions`: the unit and the sizes, as stored. */
    function GetVoxelDimensions(): (r: VoxelDimensions)
      reads this
      ensures r.unit == voxelUnit && r.dimensions == voxelDimensions
    {
      VoxelDimensions(voxelUnit, voxelDimensions)
    }

    /** `getTransform`: the calibration is applied to clones of the stored
        rows, which stay as they were; the first index that does not exist
        throws. */
    method GetTransform() returns (r: Result<Transform, JavaException>)
      requires |voxelDimensions| >= 2 ==> voxelDimensions[0] != 0.0
      ensures r == CalibratedTransform(transform, voxelDimensions)
    {
      if |transform| < 3 {
        return Err(ArrayIndexOutOfBounds);
      }
      var row0, row1, row2 := transform[0], transform[1], transform[2];
      var vd := voxelDimensions;
      if |row1| < 2 || |vd| < 2 {
        return Err(ArrayIndexOutOfBounds);
      }
      row1 := row1[1 := Scaled(row1[1], vd[1], vd[0])];
      if |row2| < 3 || |vd| < 3 {
        return Err(ArrayIndexOutOfBounds);
      }
      row2 := row2[2 := Scaled(row2[2], vd[2], vd[0])];
      if |row0| < 4 || |row1| < 4 || |row2| < 4 {
        return Err(ArrayIndexOutOfBounds);
      }
      r := Ok(Affine3D([row0[..4], row1[..4], row2[..4]]));
    }
  }
}
