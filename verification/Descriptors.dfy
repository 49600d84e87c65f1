/** `descriptor<Descriptor, GetNull, ClosePolicy>`: the owning handle. */
module Descriptors {
  import opened Kernel

  class Descriptor<R(==), Q> {
    const algebra: Algebra<R, Q>
    var raw: R

    constructor Null(algebra: Algebra<R, Q>)
      ensures this.algebra == algebra && raw == algebra.nil
    {
      this.algebra := algebra;
      raw := algebra.nil;
    }

    constructor Adopt(algebra: Algebra<R, Q>, raw: R)
      ensures this.algebra == algebra && this.raw == raw
    {
      this.algebra := algebra;
      this.raw := raw;
    }

    constructor Move(other: Descriptor<R, Q>)
      modifies other`raw
      ensures algebra == other.algebra
      ensures raw == old(other.raw) && other.raw == other.algebra.nil
    {
      algebra := other.algebra;
      raw := other.algebra.nil;
      new;
      raw, other.raw := other.raw, raw;
    }

    // Swaps; the resource this handle held goes to `other`, nothing is closed.
    method MoveAssign(other: Descriptor<R, Q>)
      modifies this`raw, other`raw
      ensures raw == old(other.raw) && other.raw == old(raw)
    {
      var mine := raw;
      raw := other.raw;
      other.raw := mine;
    }

    predicate Empty()
      reads this`raw
    {
      raw == algebra.nil
    }

    // raw() and operator *: the handle keeps the value.
    method Raw() returns (r: R)
      ensures r == raw
    {
      r := raw;
    }

    method Release() returns (r: R)
      modifies this`raw
      ensures r == old(raw) && Empty()
    {
      r := raw;
      raw := algebra.nil;
    }

    // A failed close keeps the raw value; only a successful one clears it.
    method Close(process: Process, v: Verdict) returns (error: int)
      modifies this`raw, process`kernel, process.errno
      ensures (process.kernel, error) == Closed(algebra, old(process.kernel), old(raw), v)
      ensures raw == if error == 0 then algebra.nil else old(raw)
      ensures error == 0 <==> algebra.closable(old(process.kernel.slots), old(raw)) && v.Granted?
      ensures error != 0 ==> process.kernel == old(process.kernel)
      ensures error != 0 ==>
                error == if algebra.closable(old(process.kernel.slots), old(raw)) then v.errno else algebra.invalid
      ensures process.errno.value == if error == 0 then old(process.errno.value) else error
    {
      error := process.ClosePolicy(algebra, raw, v);
      if error == 0 {
        raw := algebra.nil;
      }
    }

    // The destructor closes and discards the error.
    method Destroy(process: Process, v: Verdict) returns (error: int)
      modifies this`raw, process`kernel, process.errno
      ensures (process.kernel, error) == Closed(algebra, old(process.kernel), old(raw), v)
      ensures process.errno.value == if error == 0 then old(process.errno.value) else error
    {
      error := Close(process, v);
    }
  }
}
