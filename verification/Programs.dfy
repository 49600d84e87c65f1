/** Programs as they run: handle objects on the heap, raw values in variables, one process. */
module Programs {
  import opened Results
  import opened Kernel
  import opened Ownership
  import opened Descriptors
  import opened Safety

  class Program<R(==, !new), Q(!new)> {
    const algebra: Algebra<R, Q>
    const process: Process
    var handles: map<Cell, Descriptor<R, Q>>
    var raws: map<Cell, R>
    ghost var cells: map<Cell, R>

    // Handles are distinct objects of one instantiation; `cells` is what handles and variables
    // hold.
    ghost predicate Valid()
      reads this, handles.Values
    {
      && (forall c | c in handles :: c.Handle? && handles[c].algebra == algebra)
      && (forall c | c in raws :: c.Raw?)
      && (forall c, d | c in handles && d in handles && c != d :: handles[c] != handles[d])
      && cells.Keys == handles.Keys + raws.Keys
      && (forall c | c in handles :: cells[c] == handles[c].raw)
      && (forall c | c in raws :: cells[c] == raws[c])
    }

    ghost function State(): World<R>
      reads this, process
    {
      World(process.kernel, cells)
    }

    constructor (algebra: Algebra<R, Q>, process: Process)
      ensures this.algebra == algebra && this.process == process && handles == map[]
      ensures Valid() && State() == World(process.kernel, map[])
    {
      this.algebra, this.process := algebra, process;
      handles, raws, cells := map[], map[], map[];
    }

    method Acquire(x: nat, q: Q, v: Verdict) returns (error: int)
      requires Valid()
      modifies this, process`kernel, process.errno
      ensures Valid() && handles == old(handles)
      ensures (State(), error) == Step(algebra, old(State()), Event.Acquire(x, q, v))
    {
      if Raw(x) in raws { return 0; }
      var r := process.AcquireRaw(algebra, q, v);
      match r {
        case Value(value) =>
          raws, cells := raws[Raw(x) := value], cells[Raw(x) := value];
          error := 0;
        case Error(code) =>
          error := code;
      }
    }

    method MakeNull(h: nat)
      requires Valid()
      modifies this
      ensures Valid() && fresh(handles.Values - old(handles.Values))
      ensures State() == Step(algebra, old(State()), Event.MakeNull(h)).0
    {
      if Handle(h) in handles { return; }
      var d := new Descriptor<R, Q>.Null(algebra);
      handles, cells := handles[Handle(h) := d], cells[Handle(h) := algebra.nil];
    }

    method Adopt(h: nat, x: nat)
      requires Valid()
      modifies this
      ensures Valid() && fresh(handles.Values - old(handles.Values))
      ensures State() == Step(algebra, old(State()), Event.Adopt(h, x)).0
    {
      if Handle(h) in handles || Raw(x) !in raws { return; }
      var d := new Descriptor<R, Q>.Adopt(algebra, raws[Raw(x)]);
      cells := cells[Handle(h) := cells[Raw(x)]] - {Raw(x)};
      handles, raws := handles[Handle(h) := d], raws - {Raw(x)};
    }

    method MoveConstruct(h: nat, f: nat)
      requires Valid()
      modifies this, handles.Values
      ensures Valid() && fresh(handles.Values - old(handles.Values))
      ensures State() == Step(algebra, old(State()), Event.MoveConstruct(h, f)).0
    {
      if Handle(h) in handles || Handle(f) !in handles { return; }
      var d := new Descriptor<R, Q>.Move(handles[Handle(f)]);
      cells := cells[Handle(h) := cells[Handle(f)]][Handle(f) := algebra.nil];
      handles := handles[Handle(h) := d];
    }

    method MoveAssign(h: nat, f: nat)
      requires Valid()
      modifies this, handles.Values
      ensures Valid() && handles == old(handles)
      ensures State() == Step(algebra, old(State()), Event.MoveAssign(h, f)).0
    {
      if Handle(h) !in handles || Handle(f) !in handles { return; }
      handles[Handle(h)].MoveAssign(handles[Handle(f)]);
      cells := Swap(cells, Handle(h), Handle(f));
    }

    method Release(h: nat, x: nat)
      requires Valid()
      modifies this, handles.Values
      ensures Valid() && handles == old(handles)
      ensures State() == Step(algebra, old(State()), Event.Release(h, x)).0
    {
      if Handle(h) !in handles || Raw(x) in raws { return; }
      var r := handles[Handle(h)].Release();
      raws, cells := raws[Raw(x) := r], cells[Raw(x) := r][Handle(h) := algebra.nil];
    }

    method CopyRaw(x: nat, h: nat)
      requires Valid()
      modifies this
      ensures Valid() && handles == old(handles)
      ensures State() == Step(algebra, old(State()), Event.CopyRaw(x, h)).0
    {
      if Handle(h) !in handles || Raw(x) in raws { return; }
      var r := handles[Handle(h)].Raw();
      raws, cells := raws[Raw(x) := r], cells[Raw(x) := r];
    }

    method Close(h: nat, v: Verdict) returns (error: int)
      requires Valid()
      modifies this, handles.Values, process`kernel, process.errno
      ensures Valid() && handles == old(handles)
      ensures (State(), error) == Step(algebra, old(State()), Event.Close(h, v))
    {
      if Handle(h) !in handles { return 0; }
      error := handles[Handle(h)].Close(process, v);
      if error == 0 {
        cells := cells[Handle(h) := algebra.nil];
      }
    }

    method Destroy(h: nat, v: Verdict) returns (error: int)
      requires Valid()
      modifies this, handles.Values, process`kernel, process.errno
      ensures Valid() && handles.Values <= old(handles.Values)
      ensures (State(), error) == Step(algebra, old(State()), Event.Destroy(h, v))
    {
      if Handle(h) !in handles { return 0; }
      error := handles[Handle(h)].Destroy(process, v);
      handles, cells := handles - {Handle(h)}, cells - {Handle(h)};
    }

    method CloseRaw(x: nat, v: Verdict) returns (error: int)
      requires Valid()
      modifies this, process`kernel, process.errno
      ensures Valid() && handles == old(handles)
      ensures (State(), error) == Step(algebra, old(State()), Event.CloseRaw(x, v))
    {
      if Raw(x) !in raws { return 0; }
      error := process.ClosePolicy(algebra, raws[Raw(x)], v);
      if error == 0 {
        raws, cells := raws - {Raw(x)}, cells - {Raw(x)};
      }
    }

    // file::close and mmap::unmap.
    method KernelClose(h: nat, v: Verdict) returns (error: int)
      requires Valid()
      modifies process`kernel, process.errno
      ensures Valid()
      ensures (State(), error) == Step(algebra, old(State()), Event.KernelClose(h, v))
    {
      if Handle(h) !in handles { return 0; }
      error := process.ClosePolicy(algebra, handles[Handle(h)].raw, v);
    }

    // One operation of the library, whichever it is, does to the heap what the step says.
    method Execute(e: Event<Q>) returns (error: int)
      requires Valid()
      modifies this, handles.Values, process`kernel, process.errno
      ensures Valid() && fresh(handles.Values - old(handles.Values))
      ensures (State(), error) == Step(algebra, old(State()), e)
    {
      error := 0;
      match e {
        case Acquire(x, q, v) => error := Acquire(x, q, v);
        case MakeNull(h) => MakeNull(h);
        case Adopt(h, x) => Adopt(h, x);
        case MoveConstruct(h, f) => MoveConstruct(h, f);
        case MoveAssign(h, f) => MoveAssign(h, f);
        case Release(h, x) => Release(h, x);
        case CopyRaw(x, h) => CopyRaw(x, h);
        case Close(h, v) => error := Close(h, v);
        case Destroy(h, v) => error := Destroy(h, v);
        case CloseRaw(x, v) => error := CloseRaw(x, v);
        case KernelClose(h, v) => error := KernelClose(h, v);
      }
    }

    // So whatever is proved about runs holds of programs on the heap.
    method Run(es: seq<Event<Q>>)
      requires Valid()
      modifies this, handles.Values, process`kernel, process.errno
      ensures Valid() && fresh(handles.Values - old(handles.Values))
      ensures State() == Ownership.Run(algebra, old(State()), es)
    {
      for n := 0 to |es|
        invariant Valid() && fresh(handles.Values - old(handles.Values))
        invariant Ownership.Run(algebra, State(), es[n..]) == Ownership.Run(algebra, old(State()), es)
      {
        var error := Execute(es[n]);
        assert es[n..][0] == es[n] && es[n..][1..] == es[n + 1..];
      }
    }

    // A disciplined program that starts with nothing: at the end no two handle
    // objects stand for a common slot, and every slot they stand for is still theirs.
    method RunDisciplined(es: seq<Event<Q>>)
      requires Valid() && State() == Start()
      requires AllDisciplined(es)
      modifies this, handles.Values, process`kernel, process.errno
      ensures Valid()
      ensures Lawful(algebra) ==>
                forall c, d | c in handles && d in handles && handles[c].raw != algebra.nil && c != d ::
                  && algebra.cover(handles[c].raw) !! algebra.cover(handles[d].raw)
                  && {} != algebra.cover(handles[c].raw) <= process.kernel.slots.Keys
    {
      Run(es);
      if Lawful(algebra) {
        forall c, d | c in handles && d in handles && c != d && handles[c].raw != algebra.nil
          ensures algebra.cover(handles[c].raw) !! algebra.cover(handles[d].raw)
          ensures {} != algebra.cover(handles[c].raw) <= process.kernel.slots.Keys
        {
          HandlesDisjoint(algebra, es, c, d);
          assert cells[c] == handles[c].raw && cells[d] == handles[d].raw;
        }
      }
    }
  }
}
