/** `VolatileLongArrayType`: a `LongArrayType` (the wrapped type `t`)
    together with a validity flag that says whether the data behind the
    current access has been loaded. The wrapped type's access can be
    swapped for the one a `NativeImg` hands out for a new container, and
    the flag follows that access. */
module VolatileLongArrayTypes {
  import opened Wrappers
  import opened JavaInt
  import opened VolatileArrays
  import opened AbstractArrayTypes
  import opened LongArrayTypes

  class VolatileLongArrayType {
    /** The wrapped `LongArrayType`; `setAccess` replaces its access. */
    const t: LongArrayType
    var valid: bool
    /** The image whose `update` hands out new accesses; `null` for a type
      made from an access or from values. */
    const img: Option<NativeImg>

    /** The constructor that reads from an image: no data until the first
      `updateContainer`, hence not valid. */
    constructor FromImg(img: Option<NativeImg>, length: Int32)
      ensures this.img == img && !valid
      ensures fresh(t) && fresh(t.base) && t.base.img == img && t.base.length == length
      ensures t.base.i == 0 && t.base.index == 0 && t.base.dataAccess == None
    {
      t := new LongArrayType.FromImg(img, length);
      this.img := img;
      valid := false;
    }

    /** The constructor that is given a volatile access: it takes over the
      access's validity and has no image. */
    constructor FromAccess(access: VolatileArray<Int64>, length: Int32)
      ensures img == None && valid == access.valid
      ensures fresh(t) && fresh(t.base) && t.base.img == None && t.base.length == length
      ensures t.base.i == 0 && t.base.index == 0 && t.base.dataAccess == Some(access.data)
    {
      t := new LongArrayType.FromAccess(Some(access.data), length);
      img := None;
      valid := access.valid;
    }

    /** `new VolatileLongArrayType(values)`: a valid variable over the
      given array (wrapped in a valid `VolatileLongArray`). */
    constructor FromValues(values: array<Int64>)
      requires values.Length <= INT_MAX
      ensures img == None && valid
      ensures fresh(t) && fresh(t.base) && t.base.img == None && t.base.length == values.Length
      ensures t.base.i == 0 && t.base.index == 0 && t.base.dataAccess == Some(values)
      ensures t.Positioned() && t.Values() == values[..]
    {
      var access := new VolatileArray.Wrap(values, true);
      t := new LongArrayType.FromAccess(Some(access.data), values.Length);
      img := None;
      valid := access.valid;
      new;
      assert t.Values() == values[..];
    }

    /** `new VolatileLongArrayType(length)`: a valid zero variable. */
    constructor WithLength(length: Int32)
      requires 0 <= length
      ensures img == None && valid
      ensures fresh(t) && fresh(t.base) && t.base.img == None && t.base.length == length
      ensures t.base.i == 0 && t.base.index == 0
      ensures t.base.dataAccess.Some? && fresh(t.base.dataAccess.value)
      ensures t.Positioned() && t.Values() == seq(length, _ => 0)
    {
      var values := new Int64[length](_ => 0);
      var access := new VolatileArray.Wrap(values, true);
      t := new LongArrayType.FromAccess(Some(access.data), length);
      img := None;
      valid := access.valid;
      new;
      assert t.Values() == values[..];
    }

    /** `set(value, index)`: delegates to the wrapped type. */
    method Set(v: Int64, k: Int32) returns (r: Result<(), JavaException>)
      modifies if t.base.dataAccess.Some? then {t.base.dataAccess.value} else {}
      ensures t.base.dataAccess.None? ==> r == Err(NullPointer)
      ensures t.base.dataAccess.Some? ==>
        var s := Wrap32(t.base.i + k);
        var a := t.base.dataAccess.value;
        if 0 <= s < a.Length then r == Ok(()) && a[..] == old(a[..])[s := v]
        else r == Err(ArrayIndexOutOfBounds) && a[..] == old(a[..])
    {
      r := t.Set(v, k);
    }

    /** `updateContainer(c)`: `updated` is what `img.update(c)` returns; the
      wrapped type switches to it and the flag becomes its validity. Without
      an image the call throws and nothing changes. */
    method UpdateContainer(updated: VolatileArray<Int64>) returns (r: Result<(), JavaException>)
      modifies this, t.base
      ensures img.None? ==> r == Err(NullPointer) && valid == old(valid) && t.base.dataAccess == old(t.base.dataAccess)
      ensures img.Some? ==> r == Ok(()) && valid == updated.valid && t.base.dataAccess == Some(updated.data)
      ensures t.base.i == old(t.base.i) && t.base.index == old(t.base.index)
    {
      if img.None? {
        return Err(NullPointer);
      }
      t.base.dataAccess := Some(updated.data);
      valid := updated.valid;
      r := Ok(());
    }

    /** `duplicateTypeOnSameNativeImg()`: a new invalid type on the same
      image with the same length. */
    method DuplicateTypeOnSameNativeImg() returns (r: VolatileLongArrayType)
      ensures fresh(r) && r.img == img && !r.valid
      ensures r.t.base.img == img && r.t.base.length == t.base.length && r.t.base.dataAccess == None
    {
      r := new VolatileLongArrayType.FromImg(img, t.base.length);
    }

    /** `createVariable()`: a valid zero variable of the same length. */
    method CreateVariable() returns (r: VolatileLongArrayType)
      requires 0 <= t.base.length
      ensures fresh(r) && fresh(r.t) && fresh(r.t.base) && r.valid && r.img == None
      ensures r.t.base.length == t.base.length && r.t.base.i == 0
      ensures r.t.base.dataAccess.Some? && fresh(r.t.base.dataAccess.value)
      ensures r.t.Positioned() && r.t.Values() == seq(t.base.length, _ => 0)
    {
      r := new VolatileLongArrayType.WithLength(t.base.length);
    }

    /** The volatile `set(c)`: the wrapped type takes `c`'s values and the
      flag becomes `c`'s. */
    method SetFrom(c: VolatileLongArrayType)
      requires t.Positioned() && c.t.Positioned() && t.Access() != c.t.Access()
      modifies this, t.Access()
      ensures valid == c.valid
      ensures t.Access()[..] ==
        Combined(old(t.Access()[..]), t.base.i, c.t.Access()[..], c.t.base.i, Min(t.base.length, c.t.base.length), CopyOp)
      ensures t.base.length <= c.t.base.length ==> t.Values() == c.t.Values()[..t.base.length]
    {
      t.SetFrom(c.t);
      valid := c.valid;
    }

    /** `copy()`: `createVariable()` followed by `set(this)`, so the copy
      holds the same values in its own array and has the same validity. */
    method Copy() returns (r: VolatileLongArrayType)
      requires t.Positioned()
      ensures fresh(r) && fresh(r.t) && fresh(r.t.base) && r.img == None
      ensures r.t.base.dataAccess.Some? && fresh(r.t.Access())
      ensures r.valid == valid
      ensures r.t.Positioned() && r.t.base.length == t.base.length && r.t.Values() == t.Values()
    {
      r := CreateVariable();
      r.SetFrom(this);
      assert r.t.Values() == t.Values()[..t.base.length];
    }

    /** `createSuitableNativeImg(factory, dim)`: not implemented, always
      throws. */
    method CreateSuitableNativeImg(dim: seq<int>) returns (r: Result<NativeImg, JavaException>)
      ensures r == Err(UnsupportedOperation)
    {
      r := Err(UnsupportedOperation);
    }
  }
}
