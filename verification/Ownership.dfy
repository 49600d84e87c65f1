/** Programs over any number of handles, run against a kernel that reuses slots, and the machine
    without slots they are compared with: there a handle simply owns one incarnation. */
module Ownership {
  import opened Results
  import opened Kernel

  // What a program can name: handle objects, and plain variables holding a raw value.
  datatype Cell = Handle(id: nat) | Raw(id: nat)

  datatype World<R> = World(kernel: KernelState, cells: map<Cell, R>)

  // One operation. A raw variable is filled by an acquiring call, by `release` or with a copy of
  // what a handle holds, and emptied by adopting or closing its value.
  datatype Event<Q> =
    | Acquire(x: nat, q: Q, v: Verdict)
    | MakeNull(h: nat)
    | Adopt(h: nat, x: nat)
    | MoveConstruct(h: nat, from: nat)
    | MoveAssign(h: nat, from: nat)
    | Release(h: nat, x: nat)
    | CopyRaw(x: nat, h: nat)  // raw(), operator *
    | Close(h: nat, v: Verdict)
    | Destroy(h: nat, v: Verdict)
    | CloseRaw(x: nat, v: Verdict)
    | KernelClose(h: nat, v: Verdict)  // file::close, mmap::unmap: past the handle

  // The cell whose raw value an event passes to the closing call.
  function Target<Q>(e: Event<Q>): Option<Cell> {
    match e
    case Close(h, _) => Some(Handle(h))
    case Destroy(h, _) => Some(Handle(h))
    case KernelClose(h, _) => Some(Handle(h))
    case CloseRaw(x, _) => Some(Raw(x))
    case _ => None
  }

  // Leaves every value with one holder: no copy out of a handle, no close past it.
  predicate Disciplined<Q>(e: Event<Q>) {
    !e.CopyRaw? && !e.KernelClose?
  }

  // The new world and the error code the program sees, 0 when there is none. An event naming an
  // object that does not exist, or making one that does, is no program: it changes nothing.
  function Step<R(==), Q>(a: Algebra<R, Q>, w: World<R>, e: Event<Q>): (World<R>, int) {
    match e
    case Acquire(x, q, v) =>
      if Raw(x) in w.cells then (w, 0)
      else (
             match Acquired(a, w.kernel, q, v)
             case (k, Value(r)) => (World(k, w.cells[Raw(x) := r]), 0)
             case (k, Error(c)) => (World(k, w.cells), c))
    case MakeNull(h) =>
      if Handle(h) in w.cells then (w, 0) else (w.(cells := w.cells[Handle(h) := a.nil]), 0)
    case Adopt(h, x) =>
      if Handle(h) in w.cells || Raw(x) !in w.cells then (w, 0)
      else (w.(cells := w.cells[Handle(h) := w.cells[Raw(x)]] - {Raw(x)}), 0)
    case MoveConstruct(h, f) =>
      if Handle(h) in w.cells || Handle(f) !in w.cells then (w, 0)
      else (w.(cells := w.cells[Handle(h) := w.cells[Handle(f)]][Handle(f) := a.nil]), 0)
    case MoveAssign(h, f) =>
      if Handle(h) !in w.cells || Handle(f) !in w.cells then (w, 0)
      else (w.(cells := w.cells[Handle(h) := w.cells[Handle(f)]][Handle(f) := w.cells[Handle(h)]]), 0)
    case Release(h, x) =>
      if Handle(h) !in w.cells || Raw(x) in w.cells then (w, 0)
      else (w.(cells := w.cells[Raw(x) := w.cells[Handle(h)]][Handle(h) := a.nil]), 0)
    case CopyRaw(x, h) =>
      if Handle(h) !in w.cells || Raw(x) in w.cells then (w, 0)
      else (w.(cells := w.cells[Raw(x) := w.cells[Handle(h)]]), 0)
    case Close(h, v) =>
      if Handle(h) !in w.cells then (w, 0)
      else
        var (k, error) := Closed(a, w.kernel, w.cells[Handle(h)], v);
        (World(k, if error == 0 then w.cells[Handle(h) := a.nil] else w.cells), error)
    case Destroy(h, v) =>
      if Handle(h) !in w.cells then (w, 0)
      else
        var (k, error) := Closed(a, w.kernel, w.cells[Handle(h)], v);
        (World(k, w.cells - {Handle(h)}), error)
    case CloseRaw(x, v) =>
      if Raw(x) !in w.cells then (w, 0)
      else
        var (k, error) := Closed(a, w.kernel, w.cells[Raw(x)], v);
        (World(k, if error == 0 then w.cells - {Raw(x)} else w.cells), error)
    case KernelClose(h, v) =>
      if Handle(h) !in w.cells then (w, 0)
      else
        var (k, error) := Closed(a, w.kernel, w.cells[Handle(h)], v);
        (World(k, w.cells), error)
  }

  // A step changes the kernel by at most one call.
  lemma StepKernel<R, Q>(a: Algebra<R, Q>, w: World<R>, e: Event<Q>)
    ensures var k := Step(a, w, e).0.kernel;
            || k == w.kernel
            || (e.Acquire? && k == Acquired(a, w.kernel, e.q, e.v).0)
            || (Target(e).Some? && Target(e).value in w.cells &&
                k == Closed(a, w.kernel, w.cells[Target(e).value], e.v).0)
  {}

  // What a closing call reports, in any world: a value the kernel does not accept gives the call's
  // errno for that, a refusal gives exactly the errno it was refused with, and with either the
  // world keeps its kernel.
  lemma CloseReports<R, Q>(a: Algebra<R, Q>, w: World<R>, e: Event<Q>)
    requires Target(e).Some? && Target(e).value in w.cells
    ensures var (w', error) := Step(a, w, e);
            var r := w.cells[Target(e).value];
            && (!a.closable(w.kernel.slots, r) ==> error == a.invalid && w'.kernel == w.kernel)
            && (a.closable(w.kernel.slots, r) && e.v.Refused? ==> error == e.v.errno && w'.kernel == w.kernel)
            && (a.closable(w.kernel.slots, r) && e.v.Granted? ==>
                  error == 0 && w'.kernel == w.kernel.(slots := w.kernel.slots - a.cover(r)))
  {}

  // What an acquiring call reports and does: a refusal gives its own errno and changes nothing, a
  // granted call gives what the resource answers, and a value it hands out takes exactly its slots,
  // under a new incarnation.
  lemma AcquireReports<R(!new), Q(!new)>(a: Algebra<R, Q>, w: World<R>, x: nat, q: Q, v: Verdict)
    requires Lawful(a) && Raw(x) !in w.cells
    ensures var (w', error) := Step(a, w, Acquire(x, q, v));
            && (v.Refused? ==> error == v.errno && w' == w)
            && (v.Granted? ==>
                  match a.place(w.kernel.slots, q)
                  case Error(c) => error == c && w' == w
                  case Value(r) =>
                    && error == 0 && w'.cells == w.cells[Raw(x) := r]
                    && w'.kernel.issued == w.kernel.issued + 1
                    && w'.kernel.slots.Keys == w.kernel.slots.Keys + a.cover(r)
                    && (forall n | n in a.cover(r) :: w'.kernel.slots[n] == w.kernel.issued)
                    && (forall n | n in w.kernel.slots :: w'.kernel.slots[n] == w.kernel.slots[n]))
  {
    if v.Granted? && a.place(w.kernel.slots, q).Value? {
      assert Placed(a, w.kernel.slots, a.place(w.kernel.slots, q).value);
    }
  }

  function Run<R(==), Q>(a: Algebra<R, Q>, w: World<R>, es: seq<Event<Q>>): World<R>
    decreases |es|
  {
    if es == [] then w else Run(a, Step(a, w, es[0]).0, es[1..])
  }

  const EMPTY: KernelState := KernelState(map[], 0)

  function Start<R>(): World<R> { World(EMPTY, map[]) }

  // ---------------------------------------------------------------- the machine without slots

  // Every cell owns at most one incarnation: the one its raw value was acquired for. Incarnations
  // end, or leak when their handle is destroyed and its close failed.
  datatype Ideal = Ideal(cells: map<Cell, Option<nat>>, issued: nat, ended: set<nat>, leaked: set<nat>)

  function Ended(i: Ideal, c: Cell): set<nat>
    requires c in i.cells
  {
    match i.cells[c] case None => i.ended case Some(j) => i.ended + {j}
  }

  function Leaked(i: Ideal, c: Cell): set<nat>
    requires c in i.cells
  {
    match i.cells[c] case None => i.leaked case Some(j) => i.leaked + {j}
  }

  // `ok`: the event reported no error.
  function IdealStep<Q>(i: Ideal, e: Event<Q>, ok: bool): Ideal {
    match e
    case Acquire(x, _, _) =>
      if Raw(x) in i.cells || !ok then i
      else i.(cells := i.cells[Raw(x) := Some(i.issued)], issued := i.issued + 1)
    case MakeNull(h) =>
      if Handle(h) in i.cells then i else i.(cells := i.cells[Handle(h) := None])
    case Adopt(h, x) =>
      if Handle(h) in i.cells || Raw(x) !in i.cells then i
      else i.(cells := i.cells[Handle(h) := i.cells[Raw(x)]] - {Raw(x)})
    case MoveConstruct(h, f) =>
      if Handle(h) in i.cells || Handle(f) !in i.cells then i
      else i.(cells := i.cells[Handle(h) := i.cells[Handle(f)]][Handle(f) := None])
    case MoveAssign(h, f) =>
      if Handle(h) !in i.cells || Handle(f) !in i.cells then i
      else i.(cells := i.cells[Handle(h) := i.cells[Handle(f)]][Handle(f) := i.cells[Handle(h)]])
    case Release(h, x) =>
      if Handle(h) !in i.cells || Raw(x) in i.cells then i
      else i.(cells := i.cells[Raw(x) := i.cells[Handle(h)]][Handle(h) := None])
    case CopyRaw(x, h) =>
      if Handle(h) !in i.cells || Raw(x) in i.cells then i
      else i.(cells := i.cells[Raw(x) := i.cells[Handle(h)]])
    case Close(h, _) =>
      if Handle(h) !in i.cells || !ok then i
      else i.(cells := i.cells[Handle(h) := None], ended := Ended(i, Handle(h)))
    case Destroy(h, _) =>
      if Handle(h) !in i.cells then i
      else if ok then i.(cells := i.cells - {Handle(h)}, ended := Ended(i, Handle(h)))
      else i.(cells := i.cells - {Handle(h)}, leaked := Leaked(i, Handle(h)))
    case CloseRaw(x, _) =>
      if Raw(x) !in i.cells || !ok then i
      else i.(cells := i.cells - {Raw(x)}, ended := Ended(i, Raw(x)))
    case KernelClose(h, _) =>
      if Handle(h) !in i.cells || !ok then i
      else i.(ended := Ended(i, Handle(h)))
  }

  const NOTHING: Ideal := Ideal(map[], 0, {}, {})

  // Both machines side by side; the machine without slots only hears the error codes.
  function Both<R(==), Q>(a: Algebra<R, Q>, w: World<R>, i: Ideal, es: seq<Event<Q>>): (World<R>, Ideal)
    decreases |es|
  {
    if es == [] then (w, i)
    else
      var (w', error) := Step(a, w, es[0]);
      Both(a, w', IdealStep(i, es[0], error == 0), es[1..])
  }

  // ------------------------------------------------------------------- invariants of all runs

  // Raw value r in a cell whose owned incarnation is o. The slots still held by that incarnation
  // are slots of r, and whatever else now sits in a slot of r came later. When `exact`, r covers
  // precisely the slots of its incarnation.
  ghost predicate CellTracks<R, Q>(a: Algebra<R, Q>, k: KernelState, r: R, o: Option<nat>, exact: bool) {
    match o
    case None => r == a.nil
    case Some(j) =>
      && r != a.nil && a.cover(r) != {} && j < k.issued
      && (forall n | n in k.slots && k.slots[n] == j :: n in a.cover(r))
      && (forall n | n in a.cover(r) && n in k.slots :: j <= k.slots[n])
      && (exact ==> forall n | n in a.cover(r) :: n in k.slots && k.slots[n] == j)
  }

  type Owners = map<Cell, Option<nat>>

  // Every cell tracks its own incarnation. When `exact`, no two own the same one.
  ghost predicate CellsTrack<R, Q>(a: Algebra<R, Q>, k: KernelState, cells: map<Cell, R>, owners: Owners, exact: bool) {
    && cells.Keys == owners.Keys
    && (forall c | c in cells :: CellTracks(a, k, cells[c], owners[c], exact))
    && (exact ==> forall c, d | c in owners && d in owners && c != d && owners[c].Some? :: owners[c] != owners[d])
  }

  ghost predicate Bounded(k: KernelState) {
    forall n | n in k.slots :: k.slots[n] < k.issued
  }

  ghost predicate Tracks<R, Q>(a: Algebra<R, Q>, w: World<R>, i: Ideal, exact: bool) {
    && w.kernel.issued == i.issued
    && Bounded(w.kernel)
    && CellsTrack(a, w.kernel, w.cells, i.cells, exact)
  }

  // Every event is built from four changes of the cells: clear one (or make it, null), swap two,
  // drop one, and put a fresh acquisition into a new one.

  lemma ClearTracks<R, Q>(a: Algebra<R, Q>, k: KernelState, cells: map<Cell, R>, owners: Owners, c: Cell, exact: bool)
    requires CellsTrack(a, k, cells, owners, exact)
    ensures CellsTrack(a, k, cells[c := a.nil], owners[c := None], exact)
  {}

  lemma DropTracks<R, Q>(a: Algebra<R, Q>, k: KernelState, cells: map<Cell, R>, owners: Owners, c: Cell, exact: bool)
    requires CellsTrack(a, k, cells, owners, exact)
    ensures CellsTrack(a, k, cells - {c}, owners - {c}, exact)
  {}

  function Swap<T>(m: map<Cell, T>, c: Cell, d: Cell): map<Cell, T>
    requires c in m && d in m
  {
    m[c := m[d]][d := m[c]]
  }

  lemma SwapTracks<R, Q>(
    a: Algebra<R, Q>, k: KernelState, cells: map<Cell, R>, owners: Owners, c: Cell, d: Cell, exact: bool
  )
    requires CellsTrack(a, k, cells, owners, exact) && c in cells && d in cells
    ensures CellsTrack(a, k, Swap(cells, c, d), Swap(owners, c, d), exact)
  {}

  // A move into a new cell is a null cell swapped with its source.
  lemma FreshSwap<T>(m: map<Cell, T>, c: Cell, d: Cell, nil: T)
    requires c !in m && d in m
    ensures Swap(m[c := nil], c, d) == m[c := m[d]][d := nil]
    ensures Swap(m[c := nil], c, d) - {d} == m[c := m[d]] - {d}
  {}

  lemma MoveTracks<R, Q>(
    a: Algebra<R, Q>, k: KernelState, cells: map<Cell, R>, owners: Owners, c: Cell, d: Cell, exact: bool
  )
    requires CellsTrack(a, k, cells, owners, exact) && c !in cells && d in cells
    ensures CellsTrack(a, k, cells[c := cells[d]][d := a.nil], owners[c := owners[d]][d := None], exact)
    ensures CellsTrack(a, k, cells[c := cells[d]] - {d}, owners[c := owners[d]] - {d}, exact)
  {
    var cs, os := cells[c := a.nil], owners[c := None];
    ClearTracks(a, k, cells, owners, c, exact);
    SwapTracks(a, k, cs, os, c, d, exact);
    DropTracks(a, k, Swap(cs, c, d), Swap(os, c, d), d, exact);
    FreshSwap(cells, c, d, a.nil);
    FreshSwap(owners, c, d, None);
  }

  lemma AcquiredTracks<R(!new), Q(!new)>(
    a: Algebra<R, Q>, k: KernelState, q: Q, v: Verdict, r: R, o: Option<nat>, exact: bool
  )
    requires Lawful(a) && CellTracks(a, k, r, o, exact) && Bounded(k)
    ensures CellTracks(a, Acquired(a, k, q, v).0, r, o, exact)
  {}

  lemma AcquireTracks<R(!new), Q(!new)>(
    a: Algebra<R, Q>, k: KernelState, cells: map<Cell, R>, owners: Owners, q: Q, v: Verdict, c: Cell, exact: bool
  )
    requires Lawful(a) && Bounded(k) && CellsTrack(a, k, cells, owners, exact) && c !in cells
    ensures var (k', r) := Acquired(a, k, q, v);
            match r
            case Error(code) => k' == k && code != 0
            case Value(x) =>
              && k'.issued == k.issued + 1 && Bounded(k')
              && CellsTrack(a, k', cells[c := x], owners[c := Some(k.issued)], exact)
  {
    var (k', r) := Acquired(a, k, q, v);
    if r.Value? {
      assert Placed(a, k.slots, r.value);
      forall d | d in cells ensures CellTracks(a, k', cells[d], owners[d], exact) {
        AcquiredTracks(a, k, q, v, cells[d], owners[d], exact);
      }
    }
  }

  // A successful close of cell c's value: every other cell stays as exact as it was, and c is no
  // longer exact if it keeps its value.
  lemma ClosedTracks<R, Q>(
    a: Algebra<R, Q>, k: KernelState, cells: map<Cell, R>, owners: Owners, c: Cell, v: Verdict, exact: bool
  )
    requires Bounded(k) && CellsTrack(a, k, cells, owners, exact) && c in cells
    requires exact ==> owners[c].Some?
    ensures var k' := Closed(a, k, cells[c], v).0;
            && Bounded(k')
            && CellsTrack(a, k', cells, owners, false)
            && CellsTrack(a, k', cells - {c}, owners - {c}, exact)
  {
    var k' := Closed(a, k, cells[c], v).0;
    forall d | d in cells
      ensures CellTracks(a, k', cells[d], owners[d], false)
      ensures d != c ==> CellTracks(a, k', cells[d], owners[d], exact)
    {
      if exact && d != c && owners[d].Some? {
        assert a.cover(cells[d]) !! a.cover(cells[c]);
      }
    }
  }

  lemma MoveStepTracks<R, Q>(a: Algebra<R, Q>, w: World<R>, i: Ideal, e: Event<Q>, exact: bool)
    requires Tracks(a, w, i, exact) && !e.Acquire? && Target(e) == None && (exact ==> Disciplined(e))
    ensures Tracks(a, Step(a, w, e).0, IdealStep(i, e, Step(a, w, e).1 == 0), exact)
  {
    var k, cells, owners := w.kernel, w.cells, i.cells;
    match e
    case MakeNull(h) => ClearTracks(a, k, cells, owners, Handle(h), exact);
    case MoveAssign(h, f) =>
      if Handle(h) in cells && Handle(f) in cells {
        SwapTracks(a, k, cells, owners, Handle(h), Handle(f), exact);
      }
    case MoveConstruct(h, f) =>
      if Handle(h) !in cells && Handle(f) in cells {
        MoveTracks(a, k, cells, owners, Handle(h), Handle(f), exact);
      }
    case Adopt(h, x) =>
      if Handle(h) !in cells && Raw(x) in cells {
        MoveTracks(a, k, cells, owners, Handle(h), Raw(x), exact);
      }
    case Release(h, x) =>
      if Raw(x) !in cells && Handle(h) in cells {
        MoveTracks(a, k, cells, owners, Raw(x), Handle(h), exact);
      }
    case CopyRaw(x, h) =>
  }

  lemma CloseStepTracks<R(!new), Q(!new)>(a: Algebra<R, Q>, w: World<R>, i: Ideal, e: Event<Q>, exact: bool)
    requires Lawful(a) && Tracks(a, w, i, exact) && Target(e).Some? && (exact ==> Disciplined(e))
    ensures Tracks(a, Step(a, w, e).0, IdealStep(i, e, Step(a, w, e).1 == 0), exact)
  {
    var c := Target(e).value;
    if c in w.cells {
      var k, k' := w.kernel, Closed(a, w.kernel, w.cells[c], e.v).0;
      if k' == k {
        ClearTracks(a, k, w.cells, i.cells, c, exact);
        DropTracks(a, k, w.cells, i.cells, c, exact);
      } else {
        ClosedTracks(a, k, w.cells, i.cells, c, e.v, exact);
        ClearTracks(a, k', w.cells - {c}, i.cells - {c}, c, exact);
        Reinsert(w.cells, c, a.nil);
        Reinsert(i.cells, c, None);
      }
    }
  }

  lemma Reinsert<T>(m: map<Cell, T>, c: Cell, t: T)
    ensures (m - {c})[c := t] == m[c := t]
  {}

  // The invariant of every step; `exact` survives all the disciplined ones.
  lemma StepTracks<R(!new), Q(!new)>(a: Algebra<R, Q>, w: World<R>, i: Ideal, e: Event<Q>, exact: bool)
    requires Lawful(a) && Tracks(a, w, i, exact) && (exact ==> Disciplined(e))
    ensures Tracks(a, Step(a, w, e).0, IdealStep(i, e, Step(a, w, e).1 == 0), exact)
  {
    if e.Acquire? {
      if Raw(e.x) !in w.cells {
        AcquireTracks(a, w.kernel, w.cells, i.cells, e.q, e.v, Raw(e.x), exact);
      }
    } else if Target(e).Some? {
      CloseStepTracks(a, w, i, e, exact);
    } else {
      MoveStepTracks(a, w, i, e, exact);
    }
  }
}
