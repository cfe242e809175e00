/** `LongArrayType`: a pixel whose value is `length` Java `long`s, read
    from and written to slots `i .. i + length - 1` of its long access
    (modelled as the access's backing array). */
module LongArrayTypes {
  import opened Wrappers
  import opened JavaInt
  import opened AbstractArrayTypes

  /** The element-wise operations `set(c)`, `add`, `sub`, `mul` and `div`. */
  datatype Arith = CopyOp | AddOp | SubOp | MulOp | DivOp

  /** One element of an element-wise operation, in `long` arithmetic:
      `+`, `-` and `*` wrap, `/` truncates and wraps `LONG_MIN / -1`. */
  function Applied(op: Arith, a: Int64, b: Int64): Int64
    requires op == DivOp ==> b != 0
  {
    match op
    case CopyOp => b
    case AddOp => Wrap64(a + b)
    case SubOp => Wrap64(a - b)
    case MulOp => Wrap64(a * b)
    case DivOp => Wrap64(Div(a, b))
  }

  /** `dst` after slots `at .. at + n - 1` are combined with the values
      of `src` from slot `from` on. */
  function Combined(dst: seq<Int64>, at: int, src: seq<Int64>, from: int, n: int, op: Arith): (r: seq<Int64>)
    requires 0 <= n && 0 <= at && at + n <= |dst| && 0 <= from && from + n <= |src|
    requires op == DivOp ==> forall q :: from <= q < from + n ==> src[q] != 0
    ensures |r| == |dst|
  {
    seq(|dst|, p requires 0 <= p < |dst| =>
      if at <= p < at + n then Applied(op, dst[p], src[from + p - at]) else dst[p])
  }

  /** `dst` with those of the slots `at .. at + n - 1` that exist set to
      `v`. */
  function Filled(dst: seq<Int64>, at: int, n: int, v: Int64): (r: seq<Int64>)
    requires 0 <= n && 0 <= at
    ensures |r| == |dst|
  {
    seq(|dst|, p requires 0 <= p < |dst| => if at <= p < at + n then v else dst[p])
  }

  /** The number of divisors before the first zero among `src[from ..
      from + n - 1]`: where `div` stops with an `ArithmeticException`. */
  function FirstZero(src: seq<Int64>, from: int, n: nat): (r: nat)
    requires 0 <= from && from + n <= |src|
    ensures r <= n
    ensures forall q :: from <= q < from + r ==> src[q] != 0
    ensures r < n ==> src[from + r] == 0
  {
    if n == 0 then 0
    else
      var r := FirstZero(src, from, n - 1);
      if r < n - 1 then r else if src[from + n - 1] == 0 then n - 1 else n
  }

  /** `(int)(element ^ (element >>> 32))`: the two halves of the 64-bit
      pattern folded together, narrowed to an `int`. The narrowing keeps
      only the low half of the folded pattern, which is the exclusive or of
      the pattern's low and high halves. */
  function ElementHash(e: Int64): Int32
  {
    var u := e % TWO64;
    Wrap32(Xor(u % TWO32, u / TWO32, 32))
  }

  /** The exclusive or of the low `n` bits of `a` and `b`. */
  function Xor(a: nat, b: nat, n: nat): (r: nat)
    ensures r < Pow2(n)
  {
    if n == 0 then 0 else (a + b) % 2 + 2 * Xor(a / 2, b / 2, n - 1)
  }

  /** Exclusive or with 0 keeps an `n`-bit number. */
  lemma {:induction false} XorZero(a: nat, n: nat)
    requires a < Pow2(n)
    ensures Xor(a, 0, n) == a
  {
    if n > 0 {
      XorZero(a / 2, n - 1);
    }
  }

  /** `result = 31 * result + elementHash` from `result = 1` over `s`, in
      `int` arithmetic. */
  function HashOf(s: seq<Int64>): Int32
  {
    if |s| == 0 then 1 else Wrap32(31 * HashOf(s[..|s| - 1]) + ElementHash(s[|s| - 1]))
  }

  /** Subtracting what was added gives the original slots back: `sub`
      undoes `add` in `long` arithmetic. */
  lemma SubUndoesAdd(dst: seq<Int64>, at: int, src: seq<Int64>, from: int, n: int)
    requires 0 <= n && 0 <= at && at + n <= |dst| && 0 <= from && from + n <= |src|
    ensures Combined(Combined(dst, at, src, from, n, AddOp), at, src, from, n, SubOp) == dst
  {
    var added := Combined(dst, at, src, from, n, AddOp);
    var back := Combined(added, at, src, from, n, SubOp);
    forall p | at <= p < at + n
      ensures back[p] == dst[p]
    {
      var a: int, b: int := dst[p], src[from + p - at];
      Wrap64Add(a + b, -b);
    }
  }

  /** Copying `c` over a type of the same length makes the two
      value-equal. */
  lemma CopyMakesEqual(dst: seq<Int64>, at: int, src: seq<Int64>, from: int, n: int)
    requires 0 <= n && 0 <= at && at + n <= |dst| && 0 <= from && from + n <= |src|
    ensures Combined(dst, at, src, from, n, CopyOp)[at .. at + n] == src[from .. from + n]
  {
    var r := Combined(dst, at, src, from, n, CopyOp);
    var x, y := r[at .. at + n], src[from .. from + n];
    forall q | 0 <= q < n
      ensures x[q] == y[q]
    {
      assert r[at + q] == src[from + q];
    }
  }

  /** As written, `hashCode` reads slots `0 .. length - 1` whatever the
      position: a type at slot 1 of `[5, 7]` and a type at slot 0 of `[7]`
      hold the same value but hash differently. */
  lemma HashCodeAsWrittenIgnoresPosition()
    ensures [5, 7][1 .. 2] == [7][0 .. 1]
    ensures HashOf([5, 7][..1]) != HashOf([7][..1])
  {
    assert [5, 7][..1] == [5];
    assert [7][..1] == [7];
    HashOfSingle(5);
    HashOfSingle(7);
    SmallElementHash(5);
    SmallElementHash(7);
  }

  lemma HashStep(s: seq<Int64>, j: int, h: int, e: Int64)
    requires 0 <= j < |s| && h == HashOf(s[..j]) && e == s[j]
    ensures HashOf(s[..j + 1]) == Wrap32(31 * h + ElementHash(e))
  {
    assert s[..j + 1][..j] == s[..j];
  }

  lemma HashOfSingle(e: Int64)
    ensures HashOf([e]) == Wrap32(31 + ElementHash(e))
  {
    var s := [e];
    assert s[..0] == [];
    assert HashOf(s[..0]) == 1;
    assert HashOf(s) == Wrap32(31 * HashOf(s[..0]) + ElementHash(s[0]));
  }

  /** The pattern of a small non-negative `long` has an empty upper half. */
  lemma SmallElementHash(e: Int64)
    requires 0 <= e < 8
    ensures ElementHash(e) == e
  {
    var u := e % TWO64;
    assert u == e;
    assert u % TWO32 == e && u / TWO32 == 0;
    assert Pow2(3) == 8;
    Pow2Mono(3, 32);
    XorZero(e, 32);
    assert Xor(u % TWO32, u / TWO32, 32) == e;
  }

  /** As written, `setZero` on a type at slot 1 of `[3, 4, 5]` clears slot
      2 and leaves the current value 4 in place. */
  lemma SetZeroAsWrittenMissesElement()
    ensures Filled([3, 4, 5], 2 * 1, 1, 0)[1] == 4
    ensures Filled([3, 4, 5], 1, 1, 0)[1] == 0
  {
  }

  class LongArrayType {
    const base: AbstractArrayType<Int64>

    /** The type points at a pixel whose slots all exist in its access. */
    predicate Positioned()
      reads base
    {
      && base.dataAccess.Some?
      && 0 <= base.i && 0 <= base.length && base.i + base.length <= base.dataAccess.value.Length
      && base.dataAccess.value.Length <= INT_MAX
    }

    function Access(): array<Int64>
      requires base.dataAccess.Some?
      reads base
    {
      base.dataAccess.value
    }

    /** The value of the current pixel: slots `i .. i + length - 1`. */
    function Values(): (r: seq<Int64>)
      requires Positioned()
      reads base, base.dataAccess.value
      ensures |r| == base.length
    {
      base.dataAccess.value[base.i .. base.i + base.length]
    }

    /** The constructor that reads from a `NativeImg`. */
    constructor FromImg(img: Option<NativeImg>, length: Int32)
      ensures fresh(base) && base.img == img && base.length == length
      ensures base.i == 0 && base.index == 0 && base.dataAccess == None
    {
      base := new AbstractArrayType.FromImg(img, length);
    }

    /** `new LongArrayType(values)`: a variable over the given array,
      which it shares. */
    constructor FromValues(values: array<Int64>)
      requires values.Length <= INT_MAX
      ensures fresh(base) && base.img == None && base.length == values.Length
      ensures base.i == 0 && base.index == 0 && base.dataAccess == Some(values)
      ensures Positioned() && Values() == values[..]
    {
      base := new AbstractArrayType.FromAccess(Some(values), values.Length);
    }

    /** The constructor that is given its access. */
    constructor FromAccess(access: Option<array<Int64>>, length: Int32)
      ensures fresh(base) && base.img == None && base.length == length
      ensures base.i == 0 && base.index == 0 && base.dataAccess == access
    {
      base := new AbstractArrayType.FromAccess(access, length);
    }

    /** `new LongArrayType(length)`: a variable over a fresh zero array. */
    constructor WithLength(length: Int32)
      requires 0 <= length
      ensures fresh(base) && base.img == None && base.length == length
      ensures base.i == 0 && base.index == 0 && base.dataAccess.Some? && fresh(base.dataAccess.value)
      ensures Positioned() && Values() == seq(length, _ => 0)
    {
      var values := new Int64[length](_ => 0);
      base := new AbstractArrayType.FromAccess(Some(values), length);
      new;
      assert Values() == values[..];
    }

    /** `duplicateTypeOnSameNativeImg()`: a new type on the same image,
      pointing at pixel 0 and without an access. */
    method DuplicateTypeOnSameNativeImg() returns (r: LongArrayType)
      ensures fresh(r) && fresh(r.base)
      ensures r.base.img == base.img && r.base.length == base.length
      ensures r.base.i == 0 && r.base.index == 0 && r.base.dataAccess == None
    {
      r := new LongArrayType.FromImg(base.img, base.length);
    }

    /** `get(k)`: absolute slot `i + k`. */
    method Get(k: Int32) returns (r: Result<Int64, JavaException>)
      ensures base.dataAccess.None? ==> r == Err(NullPointer)
      ensures base.dataAccess.Some? ==>
        r == (var s := Wrap32(base.i + k);
              if 0 <= s < base.dataAccess.value.Length then Ok(base.dataAccess.value[s]) else Err(ArrayIndexOutOfBounds))
    {
      if base.dataAccess.None? {
        return Err(NullPointer);
      }
      var s := Wrap32(base.i + k);
      var a := base.dataAccess.value;
      if s < 0 || s >= a.Length {
        return Err(ArrayIndexOutOfBounds);
      }
      r := Ok(a[s]);
    }

    /** `set(v, k)`: absolute slot `i + k` takes `v`. */
    method Set(v: Int64, k: Int32) returns (r: Result<(), JavaException>)
      modifies if base.dataAccess.Some? then {base.dataAccess.value} else {}
      ensures base.dataAccess.None? ==> r == Err(NullPointer)
      ensures base.dataAccess.Some? ==>
        var s := Wrap32(base.i + k);
        var a := base.dataAccess.value;
        if 0 <= s < a.Length then r == Ok(()) && a[..] == old(a[..])[s := v]
        else r == Err(ArrayIndexOutOfBounds) && a[..] == old(a[..])
    {
      if base.dataAccess.None? {
        return Err(NullPointer);
      }
      var s := Wrap32(base.i + k);
      var a := base.dataAccess.value;
      if s < 0 || s >= a.Length {
        return Err(ArrayIndexOutOfBounds);
      }
      a[s] := v;
      r := Ok(());
    }
  
    /** `copy()`: a new variable over a fresh array holding the current
      pixel's values. */
    method Copy() returns (r: LongArrayType)
      requires Positioned()
      ensures fresh(r) && fresh(r.base) && r.base.dataAccess.Some? && fresh(r.Access())
      ensures r.base.i == 0 && r.base.index == 0 && r.base.img == None && r.base.length == base.length
      ensures r.Positioned() && r.Values() == Values()
    {
      var a := Access();
      var copy := new Int64[base.length](_ => 0);
      for j := 0 to base.length
        invariant forall q :: 0 <= q < j ==> copy[q] == a[base.i + q]
      {
        copy[j] := a[base.i + j];
      }
      assert copy[..] == Values();
      r := new LongArrayType.FromValues(copy);
    }

    /** The loop shared by `set(c)`, `add`, `sub` and `mul`: slot
      `i + j` is combined with `c.get(j)` for `j < min(length, c.length)`;
      every other slot is left alone. */
    method CombineWith(c: LongArrayType, op: Arith)
      requires Positioned() && c.Positioned() && Access() != c.Access() && op != DivOp
      modifies Access()
      ensures Access()[..] == Combined(old(Access()[..]), base.i, c.Access()[..], c.base.i, Min(base.length, c.base.length), op)
    {
      var a, src := Access(), c.Access();
      var at, from := base.i, c.base.i;
      var l := Min(base.length, c.base.length);
      ghost var before := a[..];
      for j := 0 to l
        invariant forall p :: 0 <= p < a.Length ==>
          a[p] == if at <= p < at + j then Applied(op, before[p], src[from + p - at]) else before[p]
      {
        a[at + j] := Applied(op, a[at + j], src[from + j]);
      }
      assert a[..] == Combined(before, at, src[..], from, l, op);
    }

    /** `set(c)`: the first `min(length, c.length)` values of `c`. */
    method SetFrom(c: LongArrayType)
      requires Positioned() && c.Positioned() && Access() != c.Access()
      modifies Access()
      ensures Access()[..] == Combined(old(Access()[..]), base.i, c.Access()[..], c.base.i, Min(base.length, c.base.length), CopyOp)
      ensures base.length <= c.base.length ==> Values() == c.Values()[..base.length]
    {
      CombineWith(c, CopyOp);
      CopyMakesEqual(old(Access()[..]), base.i, c.Access()[..], c.base.i, Min(base.length, c.base.length));
    }

    /** `add(c)`. */
    method Add(c: LongArrayType)
      requires Positioned() && c.Positioned() && Access() != c.Access()
      modifies Access()
      ensures Access()[..] == Combined(old(Access()[..]), base.i, c.Access()[..], c.base.i, Min(base.length, c.base.length), AddOp)
    {
      CombineWith(c, AddOp);
    }

    /** `sub(c)`. */
    method Sub(c: LongArrayType)
      requires Positioned() && c.Positioned() && Access() != c.Access()
      modifies Access()
      ensures Access()[..] == Combined(old(Access()[..]), base.i, c.Access()[..], c.base.i, Min(base.length, c.base.length), SubOp)
    {
      CombineWith(c, SubOp);
    }

    /** `mul(c)`. */
    method Mul(c: LongArrayType)
      requires Positioned() && c.Positioned() && Access() != c.Access()
      modifies Access()
      ensures Access()[..] == Combined(old(Access()[..]), base.i, c.Access()[..], c.base.i, Min(base.length, c.base.length), MulOp)
    {
      CombineWith(c, MulOp);
    }

    /** `div(c)`: like the others, but the first zero divisor throws
      `ArithmeticException`, after the slots before it are divided. */
    method Div(c: LongArrayType) returns (r: Result<(), JavaException>)
      requires Positioned() && c.Positioned() && Access() != c.Access()
      modifies Access()
      ensures var n := Min(base.length, c.base.length);
              var z := FirstZero(c.Access()[..], c.base.i, n);
              && Access()[..] == Combined(old(Access()[..]), base.i, c.Access()[..], c.base.i, z, DivOp)
              && r == if z < n then Err(ArithmeticException) else Ok(())
    {
      var a, src := Access(), c.Access();
      var at, from := base.i, c.base.i;
      var l := Min(base.length, c.base.length);
      ghost var before, divisors := a[..], src[..];
      for j := 0 to l
        invariant forall q :: from <= q < from + j ==> divisors[q] != 0
        invariant forall p :: 0 <= p < a.Length ==>
          a[p] == if at <= p < at + j then Applied(DivOp, before[p], divisors[from + p - at]) else before[p]
      {
        if src[from + j] == 0 {
          assert FirstZero(divisors, from, l) == j;
          assert a[..] == Combined(before, at, divisors, from, j, DivOp);
          return Err(ArithmeticException);
        }
        a[at + j] := Applied(DivOp, a[at + j], src[from + j]);
      }
      assert FirstZero(divisors, from, l) == l;
      assert a[..] == Combined(before, at, divisors, from, l, DivOp);
      r := Ok(());
    }

    /** `valueEquals(t)`: the same length and the same values. */
    method ValueEquals(t: LongArrayType) returns (r: bool)
      requires Positioned() && t.Positioned()
      ensures r <==> base.length == t.base.length && Values() == t.Values()
    {
      if base.length != t.base.length {
        return false;
      }
      var a, b := Access(), t.Access();
      ghost var v, w := Values(), t.Values();
      for j := 0 to base.length
        invariant v[..j] == w[..j]
      {
        assert v[j] == a[base.i + j] && w[j] == b[t.base.i + j];
        if b[t.base.i + j] != a[base.i + j] {
          return false;
        }
        assert v[..j + 1] == v[..j] + [v[j]] && w[..j + 1] == w[..j] + [w[j]];
      }
      assert v == v[..base.length] && w == w[..base.length];
      r := true;
    }

    /** `for (j = from; j < to; ++j) set(v, j)`: slots `i + from .. i +
      to - 1` take `v`. */
    method SetRange(v: Int64, from: int, to: int)
      requires base.dataAccess.Some? && 0 <= base.i + from <= base.i + to <= Access().Length
      modifies Access()
      ensures Access()[..] == Filled(old(Access()[..]), base.i + from, to - from, v)
    {
      var a := Access();
      ghost var before := a[..];
      for j := from to to
        invariant forall p :: 0 <= p < a.Length ==> a[p] == if base.i + from <= p < base.i + j then v else before[p]
      {
        a[base.i + j] := v;
      }
      assert a[..] == Filled(before, base.i + from, to - from, v);
    }

    /** The loop of `setZero()` and `setOne()` as written: `j` runs over
      `[i, i + length)` and `set(v, j)` adds `i` again, so the slots from `2i`
      on take `v` until one lies past the end of the access, where `set`
      throws `ArrayIndexOutOfBoundsException` (an `int` sum past
      `Integer.MAX_VALUE` wraps to a negative slot, which throws as well). */
    method FillAsWritten(v: Int64) returns (r: Result<(), JavaException>)
      requires Positioned()
      modifies Access()
      ensures Access()[..] == Filled(old(Access()[..]), 2 * base.i, base.length, v)
      ensures r == if base.length == 0 || 2 * base.i + base.length <= Access().Length then Ok(())
                   else Err(ArrayIndexOutOfBounds)
    {
      var a := Access();
      ghost var before := a[..];
      var l := base.i + base.length;
      var j := base.i;
      while j < l
        invariant base.i <= j <= l
        invariant j == base.i || base.i + j <= a.Length
        invariant forall p :: 0 <= p < a.Length ==> a[p] == if 2 * base.i <= p < base.i + j then v else before[p]
      {
        var e := Set(v, j);
        if e.Err? {
          assert a[..] == Filled(before, 2 * base.i, base.length, v);
          return e;
        }
        j := j + 1;
      }
      assert a[..] == Filled(before, 2 * base.i, base.length, v);
      r := Ok(());
    }

    /** `setZero()` as written: slots `2i .. 2i + length - 1` are cleared,
      as far as they exist. */
    method SetZeroAsWritten() returns (r: Result<(), JavaException>)
      requires Positioned()
      modifies Access()
      ensures Access()[..] == Filled(old(Access()[..]), 2 * base.i, base.length, 0)
      ensures r == if base.length == 0 || 2 * base.i + base.length <= Access().Length then Ok(())
                   else Err(ArrayIndexOutOfBounds)
    {
      r := FillAsWritten(0);
    }

    /** `setOne()` as written: slots `2i .. 2i + length - 1` take 1, as far
      as they exist. */
    method SetOneAsWritten() returns (r: Result<(), JavaException>)
      requires Positioned()
      modifies Access()
      ensures Access()[..] == Filled(old(Access()[..]), 2 * base.i, base.length, 1)
      ensures r == if base.length == 0 || 2 * base.i + base.length <= Access().Length then Ok(())
                   else Err(ArrayIndexOutOfBounds)
    {
      r := FillAsWritten(1);
    }

    /** `setZero()` as intended: the current pixel's values become 0. */
    method SetZero()
      requires Positioned()
      modifies Access()
      ensures Access()[..] == Filled(old(Access()[..]), base.i, base.length, 0)
      ensures Values() == seq(base.length, _ => 0)
    {
      SetRange(0, 0, base.length);
    }

    /** `setOne()` as intended: the current pixel's values become 1. */
    method SetOne()
      requires Positioned()
      modifies Access()
      ensures Access()[..] == Filled(old(Access()[..]), base.i, base.length, 1)
      ensures Values() == seq(base.length, _ => 1)
    {
      SetRange(1, 0, base.length);
    }

    /** The hash loop over slots `from .. from + length - 1`. */
    method HashFrom(from: int) returns (r: Int32)
      requires base.dataAccess.Some? && 0 <= from && 0 <= base.length && from + base.length <= Access().Length
      ensures r == if base.length == 0 then 0 else HashOf(Access()[from .. from + base.length])
    {
      if base.length == 0 {
        return 0;
      }
      var a := Access();
      ghost var vals := a[from .. from + base.length];
      r := 1;
      for j := 0 to base.length
        invariant r == HashOf(vals[..j])
      {
        HashStep(vals, j, r, a[from + j]);
        r := Wrap32(31 * r + ElementHash(a[from + j]));
      }
      assert vals[..base.length] == vals;
    }

    /** `hashCode()` as written: it reads slots `0 .. length - 1`,
      whatever pixel the type points at. */
    method HashCodeAsWritten() returns (r: Int32)
      requires base.dataAccess.Some? && 0 <= base.length <= Access().Length
      ensures r == if base.length == 0 then 0 else HashOf(Access()[..base.length])
    {
      r := HashFrom(0);
    }

    /** `hashCode()` as intended: the hash of the current pixel's values,
      so value-equal types hash alike. */
    method HashCode() returns (r: Int32)
      requires Positioned()
      ensures r == if base.length == 0 then 0 else HashOf(Values())
    {
      ghost var vals := Values();
      assert vals == Access()[base.i .. base.i + base.length];
      r := HashFrom(base.i);
    }

    /** `createVariable()`: a zero variable of one value. */
    static method CreateVariable() returns (r: LongArrayType)
      ensures fresh(r) && r.Positioned() && r.base.length == 1 && r.Values() == [0]
    {
      r := new LongArrayType.WithLength(1);
    }

    /** `createVariable(length)`: a zero variable of `length` values. */
    static method CreateVariableOf(length: Int32) returns (r: LongArrayType)
      requires 0 <= length
      ensures fresh(r) && r.Positioned() && r.base.length == length && r.Values() == seq(length, _ => 0)
    {
      r := new LongArrayType.WithLength(length);
    }
  }
}
