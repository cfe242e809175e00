/** `VolatileFloatArrayType`: a wrapped `FloatArrayType` and a validity
    flag, with the same bookkeeping as `VolatileLongArrayType`. Float values
    are only moved, never computed with, so an element is its 32-bit
    pattern.

    `FloatArrayType` re-declares the field `dataAccess` that its superclass
    `AbstractArrayType` already has. Its constructors hand the access to the
    superclass, which stores it in the superclass's field, while its own
    `get` and `set` read the re-declared one; only the wrapper's `setAccess`
    fills that. The model keeps both fields: `base.dataAccess` and `own`. */
module VolatileFloatArrayTypes {
  import opened Wrappers
  import opened JavaInt
  import opened VolatileArrays
  import opened AbstractArrayTypes

  /** The bit pattern of a Java `float`. */
  type Float = bv32

  /** `dst` with slots `at .. at + n - 1` overwritten by `src[from ..]`. */
  function Copied(dst: seq<Float>, at: int, src: seq<Float>, from: int, n: int): (r: seq<Float>)
    requires 0 <= at && 0 <= n && at + n <= |dst| && 0 <= from && from + n <= |src|
    ensures |r| == |dst|
  {
    seq(|dst|, p requires 0 <= p < |dst| => if at <= p < at + n then src[from + p - at] else dst[p])
  }

  /** After copying, the target slots hold the source run and every other
    slot is unchanged. */
  lemma CopiedRun(dst: seq<Float>, at: int, src: seq<Float>, from: int, n: int)
    requires 0 <= at && 0 <= n && at + n <= |dst| && 0 <= from && from + n <= |src|
    ensures Copied(dst, at, src, from, n)[at .. at + n] == src[from .. from + n]
    ensures Copied(dst, at, src, from, n)[..at] == dst[..at]
    ensures Copied(dst, at, src, from, n)[at + n..] == dst[at + n..]
  {
    var r := Copied(dst, at, src, from, n);
    var x, y := r[at .. at + n], src[from .. from + n];
    forall q | 0 <= q < n
      ensures x[q] == y[q]
    {
      assert x[q] == r[at + q];
    }
  }

  /** `VolatileFloatArrayType.WrappedFloatArrayType`, a `FloatArrayType`
    whose own access can be set. */
  class WrappedFloatArrayType {
    /** The `AbstractArrayType` part, with the superclass's `dataAccess`. */
    const base: AbstractArrayType<Float>
    /** `FloatArrayType`'s own `dataAccess`, the one `get` and `set` use. */
    var own: Option<array<Float>>

    /** The type points at a pixel whose slots all exist in its own access. */
    predicate Positioned()
      reads this, base
    {
      && own.Some?
      && 0 <= base.i && 0 <= base.length && base.i + base.length <= own.value.Length
      && own.value.Length <= INT_MAX
    }

    function Access(): array<Float>
      requires own.Some?
      reads this
    {
      own.value
    }

    /** The value of the current pixel as `get` sees it. */
    function Values(): (r: seq<Float>)
      requires Positioned()
      reads this, base, own.value
      ensures |r| == base.length
    {
      own.value[base.i .. base.i + base.length]
    }

    /** The constructor that reads from an image: no access anywhere. */
    constructor FromImg(img: Option<NativeImg>, length: Int32)
      ensures fresh(base) && base.img == img && base.length == length
      ensures base.i == 0 && base.index == 0 && base.dataAccess == None && own == None
    {
      base := new AbstractArrayType.FromImg(img, length);
      own := None;
    }

    /** The constructor that is given its access, as written: the access
      lands in the superclass's field and `get`/`set` still see `null`. */
    constructor FromAccessAsWritten(access: array<Float>, length: Int32)
      ensures fresh(base) && base.img == None && base.length == length
      ensures base.i == 0 && base.index == 0 && base.dataAccess == Some(access) && own == None
    {
      base := new AbstractArrayType.FromAccess(Some(access), length);
      own := None;
    }

    /** The constructor that is given its access, as intended (one
      `dataAccess` field): `get` and `set` use the given access. */
    constructor FromAccess(access: array<Float>, length: Int32)
      ensures fresh(base) && base.img == None && base.length == length
      ensures base.i == 0 && base.index == 0 && base.dataAccess == Some(access) && own == Some(access)
    {
      base := new AbstractArrayType.FromAccess(Some(access), length);
      own := Some(access);
    }

    /** `setAccess(access)`: fills the field `get` and `set` use. */
    method SetAccess(access: array<Float>)
      modifies this
      ensures own == Some(access)
    {
      own := Some(access);
    }

    /** `get(k)`: absolute slot `i + k` of the own access. */
    method Get(k: Int32) returns (r: Result<Float, JavaException>)
      ensures own.None? ==> r == Err(NullPointer)
      ensures own.Some? ==>
        r == (var s := Wrap32(base.i + k);
              if 0 <= s < own.value.Length then Ok(own.value[s]) else Err(ArrayIndexOutOfBounds))
    {
      if own.None? {
        return Err(NullPointer);
      }
      var s := Wrap32(base.i + k);
      var a := own.value;
      if s < 0 || s >= a.Length {
        return Err(ArrayIndexOutOfBounds);
      }
      r := Ok(a[s]);
    }

    /** `set(f, k)`: absolute slot `i + k` of the own access takes `f`. */
    method Set(f: Float, k: Int32) returns (r: Result<(), JavaException>)
      modifies if own.Some? then {own.value} else {}
      ensures own.None? ==> r == Err(NullPointer)
      ensures own.Some? ==>
        var s := Wrap32(base.i + k);
        var a := own.value;
        if 0 <= s < a.Length then r == Ok(()) && a[..] == old(a[..])[s := f]
        else r == Err(ArrayIndexOutOfBounds) && a[..] == old(a[..])
    {
      if own.None? {
        return Err(NullPointer);
      }
      var s := Wrap32(base.i + k);
      var a := own.value;
      if s < 0 || s >= a.Length {
        return Err(ArrayIndexOutOfBounds);
      }
      a[s] := f;
      r := Ok(());
    }

    /** `set(c)`: `set(c.get(j), j)` for `j < min(length, c.length)`. The
      first step that meets a `null` access throws, before anything is
      written. */
    method SetFrom(c: WrappedFloatArrayType) returns (r: Result<(), JavaException>)
      requires own.Some? && c.own.Some? ==> Positioned() && c.Positioned() && Access() != c.Access()
      modifies if own.Some? then {own.value} else {}
      ensures own.Some? ==> unchanged(own.value) || r.Ok?
      ensures var l := Min(base.length, c.base.length);
        if l <= 0 then r == Ok(()) && (own.Some? ==> unchanged(own.value))
        else if own.None? || c.own.None? then r == Err(NullPointer)
        else r == Ok(()) && Access()[..] == Copied(old(Access()[..]), base.i, c.Access()[..], c.base.i, l)
    {
      var l := Min(base.length, c.base.length);
      if l <= 0 {
        return Ok(());
      }
      if c.own.None? || own.None? {
        return Err(NullPointer);
      }
      var a, src := own.value, c.own.value;
      ghost var before := a[..];
      for j := 0 to l
        invariant forall p :: 0 <= p < a.Length ==>
          a[p] == if base.i <= p < base.i + j then src[c.base.i + p - base.i] else before[p]
      {
        a[base.i + j] := src[c.base.i + j];
      }
      assert a[..] == Copied(before, base.i, src[..], c.base.i, l);
      r := Ok(());
    }
  }

  class VolatileFloatArrayType {
    const t: WrappedFloatArrayType
    var valid: bool
    const img: Option<NativeImg>

    /** The constructor that reads from an image: not valid until the first
      `updateContainer`. */
    constructor FromImg(img: Option<NativeImg>, length: Int32)
      ensures this.img == img && !valid
      ensures fresh(t) && fresh(t.base) && t.base.img == img && t.base.length == length
      ensures t.base.i == 0 && t.own == None && t.base.dataAccess == None
    {
      t := new WrappedFloatArrayType.FromImg(img, length);
      this.img := img;
      valid := false;
    }

    /** The constructor that is given a volatile access, as written: the
      flag is the access's validity, and the wrapped type's `get`/`set`
      have no access. */
    constructor FromAccessAsWritten(access: VolatileArray<Float>, length: Int32)
      ensures img == None && valid == access.valid
      ensures fresh(t) && fresh(t.base) && t.base.img == None && t.base.length == length
      ensures t.base.i == 0 && t.own == None && t.base.dataAccess == Some(access.data)
    {
      t := new WrappedFloatArrayType.FromAccessAsWritten(access.data, length);
      img := None;
      valid := access.valid;
    }

    /** The constructor that is given a volatile access, as intended: the
      flag is the access's validity and the wrapped type reads the access. */
    constructor FromAccess(access: VolatileArray<Float>, length: Int32)
      ensures img == None && valid == access.valid
      ensures fresh(t) && fresh(t.base) && t.base.img == None && t.base.length == length
      ensures t.base.i == 0 && t.own == Some(access.data) && t.base.dataAccess == Some(access.data)
    {
      t := new WrappedFloatArrayType.FromAccess(access.data, length);
      img := None;
      valid := access.valid;
    }

    /** `new VolatileFloatArrayType(values)`, as intended: a valid variable
      over the given array. */
    constructor FromValues(values: array<Float>)
      requires values.Length <= INT_MAX
      ensures img == None && valid
      ensures fresh(t) && fresh(t.base) && t.base.img == None && t.base.length == values.Length
      ensures t.Positioned() && t.Access() == values && t.Values() == values[..]
    {
      var access := new VolatileArray.Wrap(values, true);
      t := new WrappedFloatArrayType.FromAccess(access.data, values.Length);
      img := None;
      valid := access.valid;
      new;
      assert t.Values() == values[..];
    }

    /** `new VolatileFloatArrayType(length)`, as written: valid, but its
      wrapped type's `get`/`set` have no access. */
    constructor WithLengthAsWritten(length: Int32)
      requires 0 <= length
      ensures img == None && valid
      ensures fresh(t) && fresh(t.base) && t.base.img == None && t.base.length == length
      ensures t.base.i == 0 && t.own == None
    {
      var values := new Float[length](_ => 0);
      var access := new VolatileArray.Wrap(values, true);
      t := new WrappedFloatArrayType.FromAccessAsWritten(access.data, length);
      img := None;
      valid := access.valid;
    }

    /** `new VolatileFloatArrayType(length)`, as intended: a valid zero
      variable of `length` values. */
    constructor WithLength(length: Int32)
      requires 0 <= length
      ensures img == None && valid
      ensures fresh(t) && fresh(t.base) && t.base.img == None && t.base.length == length
      ensures t.base.i == 0 && t.own.Some? && fresh(t.Access())
      ensures t.Positioned() && t.Values() == seq(length, _ => 0)
    {
      var values := new Float[length](_ => 0);
      var access := new VolatileArray.Wrap(values, true);
      t := new WrappedFloatArrayType.FromAccess(access.data, length);
      img := None;
      valid := access.valid;
      new;
      assert t.Values() == values[..];
    }

    /** `set(value, index)`: delegates to the wrapped type. */
    method Set(f: Float, k: Int32) returns (r: Result<(), JavaException>)
      modifies if t.own.Some? then {t.own.value} else {}
      ensures t.own.None? ==> r == Err(NullPointer)
      ensures t.own.Some? ==>
        var s := Wrap32(t.base.i + k);
        var a := t.own.value;
        if 0 <= s < a.Length then r == Ok(()) && a[..] == old(a[..])[s := f]
        else r == Err(ArrayIndexOutOfBounds) && a[..] == old(a[..])
    {
      r := t.Set(f, k);
    }

    /** `updateContainer(c)`: `updated` is what `img.update(c)` returns; the
      wrapped type's `setAccess` takes it and the flag becomes its validity.
      Without an image the call throws and nothing changes. */
    method UpdateContainer(updated: VolatileArray<Float>) returns (r: Result<(), JavaException>)
      modifies this, t
      ensures img.None? ==> r == Err(NullPointer) && valid == old(valid) && t.own == old(t.own)
      ensures img.Some? ==> r == Ok(()) && valid == updated.valid && t.own == Some(updated.data)
    {
      if img.None? {
        return Err(NullPointer);
      }
      t.SetAccess(updated.data);
      valid := updated.valid;
      r := Ok(());
    }

    /** `duplicateTypeOnSameNativeImg()`: a new invalid type on the same
      image with the same length. */
    method DuplicateTypeOnSameNativeImg() returns (r: VolatileFloatArrayType)
      ensures fresh(r) && r.img == img && !r.valid
      ensures r.t.base.img == img && r.t.base.length == t.base.length && r.t.own == None
    {
      r := new VolatileFloatArrayType.FromImg(img, t.base.length);
    }

    /** `createVariable()`, as written: valid, same length, no access for
      `get`/`set`. */
    method CreateVariableAsWritten() returns (r: VolatileFloatArrayType)
      requires 0 <= t.base.length
      ensures fresh(r) && fresh(r.t) && r.valid && r.img == None
      ensures r.t.base.length == t.base.length && r.t.own == None
    {
      r := new VolatileFloatArrayType.WithLengthAsWritten(t.base.length);
    }

    /** `createVariable()`, as intended: a valid zero variable of the same
      length. */
    method CreateVariable() returns (r: VolatileFloatArrayType)
      requires 0 <= t.base.length
      ensures fresh(r) && fresh(r.t) && fresh(r.t.base) && r.valid && r.img == None
      ensures r.t.base.length == t.base.length && r.t.base.i == 0
      ensures r.t.own.Some? && fresh(r.t.Access())
      ensures r.t.Positioned() && r.t.Values() == seq(t.base.length, _ => 0)
    {
      r := new VolatileFloatArrayType.WithLength(t.base.length);
    }

    /** The volatile `set(c)`: the wrapped type takes `c`'s values, then the
      flag becomes `c`'s; an exception leaves the flag alone. */
    method SetFrom(c: VolatileFloatArrayType) returns (r: Result<(), JavaException>)
      requires t.own.Some? && c.t.own.Some? ==> t.Positioned() && c.t.Positioned() && t.Access() != c.t.Access()
      modifies this, if t.own.Some? then {t.own.value} else {}
      ensures valid == if r.Ok? then c.valid else old(valid)
      ensures var l := Min(t.base.length, c.t.base.length);
        if l <= 0 then r == Ok(())
        else if t.own.None? || c.t.own.None? then r == Err(NullPointer)
        else r == Ok(()) && t.Access()[..] == Copied(old(t.Access()[..]), t.base.i, c.t.Access()[..], c.t.base.i, l)
    {
      r := t.SetFrom(c.t);
      if r.Ok? {
        valid := c.valid;
      }
    }

    /** `copy()` as written: `createVariable()` makes a type whose `get` and
      `set` have no access, so `set(this)` throws as soon as there is a
      value to copy. */
    method CopyAsWritten() returns (r: Result<VolatileFloatArrayType, JavaException>)
      requires 0 <= t.base.length
      ensures t.base.length > 0 ==> r == Err(NullPointer)
      ensures t.base.length == 0 ==> r.Ok? && r.value.valid == valid && r.value.t.base.length == 0
    {
      var v := CreateVariableAsWritten();
      var s := v.SetFrom(this);
      if s.Err? {
        return Err(s.error);
      }
      r := Ok(v);
    }

    /** `copy()` as intended: a valid-as-this copy holding the same values
      in its own array. */
    method Copy() returns (r: Result<VolatileFloatArrayType, JavaException>)
      requires t.Positioned()
      ensures r.Ok? && fresh(r.value) && fresh(r.value.t) && r.value.img == None
      ensures r.value.valid == valid
      ensures r.value.t.Positioned() && r.value.t.base.length == t.base.length
      ensures r.value.t.Values() == t.Values()
    {
      var v := CreateVariable();
      ghost var zeros := v.t.Access()[..];
      var s := v.SetFrom(this);
      CopiedRun(zeros, 0, t.Access()[..], t.base.i, t.base.length);
      assert v.t.Values() == t.Values();
      r := Ok(v);
    }

    /** `createSuitableNativeImg(factory, dim)`: not implemented, always
      throws. */
    method CreateSuitableNativeImg(dim: seq<int>) returns (r: Result<NativeImg, JavaException>)
      ensures r == Err(UnsupportedOperation)
    {
      r := Err(UnsupportedOperation);
    }
  }
}
