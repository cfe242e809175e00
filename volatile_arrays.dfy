/** imglib2's volatile primitive arrays (`VolatileByteArray`,
    `VolatileShortArray`, `VolatileFloatArray`, `VolatileLongArray`): a
    storage array and a validity flag fixed when the array is made. */
module VolatileArrays {

  class VolatileArray<T> {
    const data: array<T>
    const valid: bool

    /** `new VolatileXArray( data, isValid )`: wraps an existing buffer. */
    constructor Wrap(data: array<T>, valid: bool)
      ensures this.data == data && this.valid == valid
    {
      this.data := data;
      this.valid := valid;
    }

    /** `new VolatileXArray( numEntities, isValid )`: a fresh zero buffer. */
    constructor Zeros(n: nat, zero: T, valid: bool)
      ensures fresh(data) && data.Length == n && this.valid == valid
      ensures forall k :: 0 <= k < n ==> data[k] == zero
    {
      data := new T[n](_ => zero);
      this.valid := valid;
    }
  }
}
