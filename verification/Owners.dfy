/** `file` and `mmap`: an object around one descriptor, a factory that fills it, and a close that
    goes past it. */
module Owners {
  import opened Results
  import opened Kernel
  import opened Descriptors

  class Owner<R(==, !new), Q(!new)> {
    const own: Descriptor<R, Q>

    // file::file, mmap::mmap
    constructor Adopt(algebra: Algebra<R, Q>, raw: R)
      ensures own.algebra == algebra && own.raw == raw && fresh(own)
    {
      own := new Descriptor<R, Q>.Adopt(algebra, raw);
    }

    constructor Move(other: Owner<R, Q>)
      modifies other.own`raw
      ensures own.algebra == other.own.algebra && fresh(own)
      ensures own.raw == old(other.own.raw) && other.own.raw == own.algebra.nil
    {
      own := new Descriptor<R, Q>.Move(other.own);
    }

    // file::close, mmap::unmap: the kernel call is made, the handle keeps its value.
    method Close(process: Process, v: Verdict) returns (error: int)
      modifies process`kernel, process.errno
      ensures (process.kernel, error) == Closed(own.algebra, old(process.kernel), own.raw, v)
      ensures error == 0 <==> own.algebra.closable(old(process.kernel.slots), own.raw) && v.Granted?
      ensures error != 0 ==> process.kernel == old(process.kernel)
      ensures error != 0 ==>
                error == if own.algebra.closable(old(process.kernel.slots), own.raw) then v.errno
                else own.algebra.invalid
    {
      var ret := process.SysClose(own.algebra, own.raw, v);
      error := CommonCall(ret, process.errno.value);
    }

    // file::open, mmap::map. On success one new object owns the acquired value and the temporary
    // it was moved out of, now null, is destroyed: its close changes no kernel state but leaves
    // errno set. On failure there is no object and the error is the call's own.
    static method Open(algebra: Algebra<R, Q>, process: Process, q: Q, v: Verdict, atExit: Verdict)
      returns (r: Result<Owner<R, Q>>)
      modifies process`kernel, process.errno
      ensures Lawful(algebra) ==> process.kernel == Acquired(algebra, old(process.kernel), q, v).0
      ensures match Acquired(algebra, old(process.kernel), q, v).1
              case Error(code) => r == Error(code)
              case Value(raw) =>
                && r.Value? && fresh(r.value) && fresh(r.value.own)
                && r.value.own.algebra == algebra && r.value.own.raw == raw
                && (Lawful(algebra) ==> process.errno.value == algebra.invalid)
      ensures v.Refused? ==> r == Error(v.errno) && process.kernel == old(process.kernel)
      ensures v.Granted? ==>
                match algebra.place(old(process.kernel.slots), q)
                case Error(code) => r == Error(code) && process.kernel == old(process.kernel)
                case Value(raw) => r.Value? && r.value.own.raw == raw
    {
      var got := process.AcquireRaw(algebra, q, v);
      if got.Error? { return Error(got.code); }
      var temp := new Owner<R, Q>.Adopt(algebra, got.value);
      var made := new Owner<R, Q>.Move(temp);
      var ignored := temp.own.Destroy(process, atExit);
      r := Value(made);
    }
  }
}
