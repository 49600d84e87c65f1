/** The kernel as the library sees it: slots in use, each stamped with the incarnation that put it
    there, and the two calls that change them. */
module Kernel {
  import opened Results
  import opened ErrnoScopes

  // POSIX: every errno value a failing call stores is positive.
  type Errno = e: int | 0 < e witness 1

  // The numbers from lo up to, not including, hi.
  function Range(lo: nat, hi: nat): (s: set<nat>)
    ensures forall n: nat :: n in s <==> lo <= n < hi
    decreases hi
  {
    if hi <= lo then {} else Range(lo, hi - 1) + {hi - 1}
  }

  // The kernel's own decision on a call; every run quantifies over all of them.
  datatype Verdict = Granted | Refused(errno: Errno)

  // Occupied slot -> incarnation. A slot is a descriptor number or a page of memory.
  type Slots = map<nat, nat>

  // `issued` counts the incarnations handed out so far, so a fresh one is always new.
  datatype KernelState = KernelState(slots: Slots, issued: nat)

  /** The template arguments of `descriptor`, and what the kernel does with such a raw value.
      - nil: GetNull
      - place: the raw value an acquiring call returns for a request, or its error
      - cover: the slots a raw value stands for
      - closable: whether the closing call accepts the raw value in this state
      - invalid: the errno of a closing call that does not accept it */
  datatype Algebra<!R, !Q> = Algebra(
    nil: R,
    place: (Slots, Q) -> Result<R>,
    cover: R -> set<nat>,
    closable: (Slots, R) -> bool,
    invalid: Errno
  )

  // What the ownership argument needs of a kernel resource; each instance proves it.
  ghost predicate Lawful<R(!new), Q(!new)>(a: Algebra<R, Q>) {
    && (forall t: Slots :: !a.closable(t, a.nil))
    && (forall t: Slots, r: R :: a.cover(r) * t.Keys != {} ==> a.closable(t, r))
    && (forall t: Slots, q: Q :: a.place(t, q).Value? ==> Placed(a, t, a.place(t, q).value))
    && (forall t: Slots, q: Q :: a.place(t, q).Error? ==> a.place(t, q).code != 0)
  }

  ghost predicate Placed<R, Q>(a: Algebra<R, Q>, t: Slots, r: R) {
    r != a.nil && a.cover(r) != {} && a.cover(r) !! t.Keys
  }

  // An acquiring call (open, mmap).
  function Acquired<R, Q>(a: Algebra<R, Q>, k: KernelState, q: Q, v: Verdict): (KernelState, Result<R>) {
    match v
    case Refused(e) => (k, Error(e))
    case Granted =>
      match a.place(k.slots, q)
      case Error(c) => (k, Error(c))
      case Value(r) =>
        (KernelState(k.slots + map n | n in a.cover(r) :: k.issued, k.issued + 1), Value(r))
  }

  // A closing call (close, munmap) as the close policy reports it: the error code, 0 for none.
  // A failing call leaves every slot as it was.
  function Closed<R, Q>(a: Algebra<R, Q>, k: KernelState, r: R, v: Verdict): (KernelState, int) {
    if !a.closable(k.slots, r) then (k, a.invalid)
    else
      match v
      case Refused(e) => (k, e as int)
      case Granted => (KernelState(k.slots - a.cover(r), k.issued), 0)
  }

  // PPOSIX_COMMON_CALL: -1 turns errno into the error code, anything else is no error.
  function CommonCall(ret: int, errno: int): int {
    if ret == -1 then errno else 0
  }

  // The process: kernel state and the errno its calls write.
  class Process {
    var kernel: KernelState
    const errno: ErrnoCell

    constructor (errno: ErrnoCell)
      ensures kernel == KernelState(map[], 0) && this.errno == errno
    {
      kernel := KernelState(map[], 0);
      this.errno := errno;
    }

    // The raw acquiring call: None stands for the failure value (-1, MAP_FAILED).
    method SysAcquire<R, Q>(a: Algebra<R, Q>, q: Q, v: Verdict) returns (r: Option<R>)
      modifies this`kernel, errno
      ensures kernel == Acquired(a, old(kernel), q, v).0
      ensures match Acquired(a, old(kernel), q, v).1
              case Value(x) => r == Some(x) && errno.value == old(errno.value)
              case Error(c) => r == None && errno.value == c
      ensures v.Refused? ==> r == None && errno.value == v.errno && kernel == old(kernel)
    {
      var (k, res) := Acquired(a, kernel, q, v);
      kernel := k;
      match res {
        case Value(x) => r := Some(x);
        case Error(c) => errno.value := c; r := None;
      }
    }

    // The raw closing call.
    method SysClose<R, Q>(a: Algebra<R, Q>, r: R, v: Verdict) returns (ret: int)
      modifies this`kernel, errno
      ensures kernel == Closed(a, old(kernel), r, v).0
      ensures if Closed(a, old(kernel), r, v).1 == 0
              then ret == 0 && errno.value == old(errno.value)
              else ret == -1 && errno.value == Closed(a, old(kernel), r, v).1
      ensures ret == 0 <==> a.closable(old(kernel.slots), r) && v.Granted?
      ensures ret != 0 ==> ret == -1 && kernel == old(kernel)
      ensures ret != 0 ==> errno.value == if a.closable(old(kernel.slots), r) then v.errno else a.invalid
    {
      var (k, error) := Closed(a, kernel, r, v);
      kernel := k;
      if error == 0 {
        ret := 0;
      } else {
        errno.value := error;
        ret := -1;
      }
    }

    // The close policy (close_fd, close_mmap).
    method ClosePolicy<R, Q>(a: Algebra<R, Q>, r: R, v: Verdict) returns (error: int)
      modifies this`kernel, errno
      ensures (kernel, error) == Closed(a, old(kernel), r, v)
      ensures errno.value == if error == 0 then old(errno.value) else error
      ensures error == 0 <==> a.closable(old(kernel.slots), r) && v.Granted?
      ensures error != 0 ==> kernel == old(kernel)
      ensures error != 0 ==> error == if a.closable(old(kernel.slots), r) then v.errno else a.invalid
    {
      var ret := SysClose(a, r, v);
      error := CommonCall(ret, errno.value);
    }

    // The wrapper around an acquiring call (capi::open, capi::mmap_map).
    method AcquireRaw<R, Q>(a: Algebra<R, Q>, q: Q, v: Verdict) returns (r: Result<R>)
      modifies this`kernel, errno
      ensures (kernel, r) == Acquired(a, old(kernel), q, v)
      ensures r.Value? ==> errno.value == old(errno.value)
      ensures v.Refused? ==> r == Error(v.errno) && kernel == old(kernel)
      ensures v.Granted? ==> r == a.place(old(kernel.slots), q)
    {
      var got := SysAcquire(a, q, v);
      match got {
        case None => r := Error(errno.value);
        case Some(x) => r := Value(x);
      }
    }
  }
}
