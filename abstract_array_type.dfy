/** `AbstractArrayType`: a pixel type whose value is an array of `length`
    primitive numbers, stored one after another in a flat primitive access.
    `index` is the pixel the type points at and `i` the first storage slot
    of that pixel; both are Java `int`s, so the moves wrap around. */
module AbstractArrayTypes {
  import opened Wrappers
  import opened JavaInt

  /** The identity of an imglib2 `NativeImg` whose storage the type reads. */
  datatype NativeImg = NativeImg(id: nat)

  /** imglib2's `Fraction`: entities per pixel. */
  datatype Fraction = Fraction(numerator: int, denominator: int)

  /** The bookkeeping invariant a type keeps while it only moves by
      `incIndex`/`decIndex`: the first slot is `index * length`, in `int`
      arithmetic. */
  predicate Aligned(i: int, index: int, length: int)
  {
    i == Wrap32(index * length)
  }

  /** Moving by `k` pixels moves the first slot by `k * length`, so the
      invariant is kept for every `k`, with every wrap-around. */
  lemma MoveKeepsAligned(i: int, index: int, length: int, k: int)
    requires Aligned(i, index, length)
    ensures Aligned(Wrap32(i + Wrap32(k * length)), Wrap32(index + k), length)
    ensures Aligned(Wrap32(i - Wrap32(k * length)), Wrap32(index - k), length)
  {
    var p, q := index * length, k * length;
    WrapSum(p, q);
    WrapDiff(p, q);
    Distrib(index, k, length);
    Wrap32Mul(index + k, length);
    Wrap32Mul(index - k, length);
  }

  lemma WrapSum(p: int, q: int)
    ensures Wrap32(Wrap32(p) + Wrap32(q)) == Wrap32(p + q)
  {
    Wrap32Add(p, Wrap32(q));
    Wrap32Add(q, p);
  }

  lemma WrapDiff(p: int, q: int)
    ensures Wrap32(Wrap32(p) - Wrap32(q)) == Wrap32(p - q)
  {
    Wrap32Add(p, -Wrap32(q));
    Wrap32Sub(p, q);
  }

  lemma Distrib(a: int, b: int, c: int)
    ensures (a + b) * c == a * c + b * c && (a - b) * c == a * c - b * c
  {
  }

  /** Moving forward by `k` and back by `k` returns to the same slot and
      pixel. */
  lemma MoveBackRestores(i: int, index: int, length: int, k: int)
    requires IsInt(i) && IsInt(index)
    ensures Wrap32(Wrap32(i + Wrap32(k * length)) - Wrap32(k * length)) == i
    ensures Wrap32(Wrap32(index + k) - k) == index
  {
    Wrap32Add(i + Wrap32(k * length), -Wrap32(k * length));
    Wrap32Add(index + k, -k);
  }

  /** `updateIndex(k)` as written: the assignment goes to the parameter,
      so the slot and the pixel stay what they were. */
  function UpdatedIndexAsWritten(i: int, index: int, length: int, k: int): (int, int)
  {
    (i, index)
  }

  /** `updateIndex(k)` as intended: point at pixel `k`, whose first slot
      is `k * length`. */
  function UpdatedIndex(i: int, index: int, length: int, k: int): (r: (int, int))
    ensures Aligned(r.0, r.1, length) && r.1 == k
  {
    (Wrap32(k * length), k)
  }

  /** As written, `updateIndex` leaves a fresh type at pixel 0 whatever
      pixel it is asked for. */
  lemma UpdateIndexAsWrittenIgnoresTarget()
    ensures UpdatedIndexAsWritten(0, 0, 1, 3).1 == 0
    ensures UpdatedIndex(0, 0, 1, 3).1 == 3
  {
  }

  class AbstractArrayType<E> {
    var i: Int32
    var index: Int32
    const length: Int32
    const img: Option<NativeImg>
    var dataAccess: Option<array<E>>

    /** The bookkeeping invariant on this type's fields. */
    predicate IsAligned()
      reads this
    {
      Aligned(i, index, length)
    }

    /** The constructor that reads from a `NativeImg`: no access until
      `updateContainer`. */
    constructor FromImg(img: Option<NativeImg>, length: Int32)
      ensures i == 0 && index == 0 && this.length == length
      ensures this.img == img && dataAccess == None
    {
      i := 0;
      index := 0;
      this.length := length;
      this.img := img;
      dataAccess := None;
    }

    /** The constructor that is given its access: no `NativeImg`. */
    constructor FromAccess(access: Option<array<E>>, length: Int32)
      ensures i == 0 && index == 0 && this.length == length
      ensures img == None && dataAccess == access
    {
      i := 0;
      index := 0;
      this.length := length;
      img := None;
      dataAccess := access;
    }

    /** `getEntitiesPerPixel()`: `length` numbers per pixel. */
    function GetEntitiesPerPixel(): (r: Fraction)
      ensures r.numerator == length && r.denominator == 1
    {
      Fraction(length, 1)
    }

    /** `updateContainer(c)`, given the access `img.update(c)` returns; on
      a type without a `NativeImg` the call throws. */
    method UpdateContainer(updated: array<E>) returns (r: Result<(), JavaException>)
      modifies this
      ensures img.None? ==> r == Err(NullPointer) && dataAccess == old(dataAccess)
      ensures img.Some? ==> r == Ok(()) && dataAccess == Some(updated)
      ensures i == old(i) && index == old(index)
    {
      if img.None? {
        return Err(NullPointer);
      }
      dataAccess := Some(updated);
      r := Ok(());
    }

    /** `updateIndex(k)` as written. */
    method UpdateIndexAsWritten(k: Int32)
      ensures (i, index) == UpdatedIndexAsWritten(old(i), old(index), length, k)
    {
      var local := k;
      local := Wrap32(local * length);
    }

    /** `updateIndex(k)` as intended: the type points at pixel `k`. */
    method UpdateIndex(k: Int32)
      modifies this
      ensures (i, index) == UpdatedIndex(old(i), old(index), length, k)
      ensures dataAccess == old(dataAccess)
    {
      index := k;
      i := Wrap32(k * length);
    }

    /** `getIndex()`. */
    method GetIndex() returns (r: int)
      ensures r == index
    {
      r := index;
    }

    /** `incIndex()`: one pixel on. */
    method IncIndex()
      modifies this
      ensures i == Wrap32(old(i) + length) && index == Wrap32(old(index) + 1)
      ensures old(IsAligned()) ==> IsAligned()
      ensures dataAccess == old(dataAccess)
    {
      if IsAligned() {
        MoveKeepsAligned(i, index, length, 1);
        assert Wrap32(1 * length) == length;
      }
      i := Wrap32(i + length);
      index := Wrap32(index + 1);
    }

    /** `incIndex(increment)`. */
    method IncIndexBy(increment: Int32)
      modifies this
      ensures i == Wrap32(old(i) + Wrap32(increment * length)) && index == Wrap32(old(index) + increment)
      ensures old(IsAligned()) ==> IsAligned()
      ensures dataAccess == old(dataAccess)
    {
      if IsAligned() {
        MoveKeepsAligned(i, index, length, increment);
      }
      i := Wrap32(i + Wrap32(increment * length));
      index := Wrap32(index + increment);
    }

    /** `decIndex()`: one pixel back. */
    method DecIndex()
      modifies this
      ensures i == Wrap32(old(i) - length) && index == Wrap32(old(index) - 1)
      ensures old(IsAligned()) ==> IsAligned()
      ensures dataAccess == old(dataAccess)
    {
      if IsAligned() {
        MoveKeepsAligned(i, index, length, 1);
        assert Wrap32(1 * length) == length;
      }
      i := Wrap32(i - length);
      index := Wrap32(index - 1);
    }

    /** `decIndex(decrement)`. */
    method DecIndexBy(decrement: Int32)
      modifies this
      ensures i == Wrap32(old(i) - Wrap32(decrement * length)) && index == Wrap32(old(index) - decrement)
      ensures old(IsAligned()) ==> IsAligned()
      ensures dataAccess == old(dataAccess)
    {
      if IsAligned() {
        MoveKeepsAligned(i, index, length, decrement);
      }
      i := Wrap32(i - Wrap32(decrement * length));
      index := Wrap32(index - decrement);
    }
  }
}
