/** Undisciplined programs: values copied out of handles, and closes past the handle. `file::close`
    and `mmap::unmap` hand the raw value to the kernel and leave it in the handle, so the destructor
    closes it again. */
module PastTheHandle {
  import opened Results
  import opened Kernel
  import opened Ownership
  import opened Safety

  // Every closing call in every run, disciplined or not: if it succeeds, it ends all that is left
  // of the incarnation its cell owns, and whatever else it takes was opened later, in the same
  // slots; if it fails, nothing changes.
  lemma CloseTakes<R(!new), Q(!new)>(a: Algebra<R, Q>, es: seq<Event<Q>>, e: Event<Q>)
    requires Lawful(a)
    requires Target(e).Some? && Target(e).value in Run(a, Start(), es).cells
    ensures var w, i := Run(a, Start(), es), After(a, es).1;
            var (w', error) := Step(a, w, e);
            && Target(e).value in i.cells
            && (error != 0 ==> w'.kernel == w.kernel)
            && (error == 0 ==>
                  && i.cells[Target(e).value].Some?
                  && w'.kernel.slots == w.kernel.slots - a.cover(w.cells[Target(e).value])
                  && i.cells[Target(e).value].value !in Live(w'.kernel)
                  && forall n | n in w.kernel.slots && n !in w'.kernel.slots ::
                       i.cells[Target(e).value].value <= w.kernel.slots[n])
  {
    AfterTracks(a, es);
    var w, i := Run(a, Start(), es), After(a, es).1;
    assert CellTracks(a, w.kernel, w.cells[Target(e).value], i.cells[Target(e).value], false);
  }

  // The event leaves handle h alone, further closes past it excepted.
  ghost predicate Spares<Q>(e: Event<Q>, h: nat) {
    match e
    case MakeNull(g) => g != h
    case Adopt(g, _) => g != h
    case MoveConstruct(g, f) => g != h && f != h
    case MoveAssign(g, f) => g != h && f != h
    case Release(g, _) => g != h
    case Close(g, _) => g != h
    case Destroy(g, _) => g != h
    case _ => true
  }

  // Whatever occupies a slot of s carries stamp m or a later one.
  ghost predicate NewerIn(k: KernelState, s: set<nat>, m: nat) {
    m <= k.issued && forall n | n in s && n in k.slots :: m <= k.slots[n]
  }

  lemma {:induction false} SparedRun<R(!new), Q(!new)>(
    a: Algebra<R, Q>, w: World<R>, es: seq<Event<Q>>, h: nat, s: set<nat>, m: nat
  )
    requires Lawful(a) && Handle(h) in w.cells && NewerIn(w.kernel, s, m)
    requires forall n | 0 <= n < |es| :: Spares(es[n], h)
    ensures var w' := Run(a, w, es);
            Handle(h) in w'.cells && w'.cells[Handle(h)] == w.cells[Handle(h)] && NewerIn(w'.kernel, s, m)
    decreases |es|
  {
    if es != [] {
      assert Spares(es[0], h);
      SparedRun(a, Step(a, w, es[0]).0, es[1..], h, s, m);
    }
  }

  // For a handle whose raw value was closed past it, and which nothing else touched since: its
  // destructor takes slots away iff some slot of its value is occupied again and the second close
  // is granted. It then takes exactly those slots, and all of them belong to incarnations opened
  // after the first close. Otherwise the destructor leaves the kernel as it was.
  lemma DestroyAfterKernelClose<R(!new), Q(!new)>(
    a: Algebra<R, Q>, before: seq<Event<Q>>, h: nat, after: seq<Event<Q>>, v: Verdict
  )
    requires Lawful(a)
    requires Handle(h) in Run(a, Start(), before).cells
    requires Step(a, Run(a, Start(), before), KernelClose(h, Granted)).1 == 0
    requires forall n | 0 <= n < |after| :: Spares(after[n], h)
    ensures var w := Run(a, Start(), before);
            var w1 := Step(a, w, KernelClose(h, Granted)).0;
            var w2 := Run(a, w1, after);
            var w3 := Step(a, w2, Destroy(h, v)).0;
            var r := w.cells[Handle(h)];
            var again := a.cover(r) * w2.kernel.slots.Keys;
            && Handle(h) in w2.cells && w2.cells[Handle(h)] == r
            && After(a, before).1.cells.Keys == w.cells.Keys
            && After(a, before).1.cells[Handle(h)].Some?
            && After(a, before).1.cells[Handle(h)].value !in Live(w2.kernel)
            && (forall n | n in again :: w1.kernel.issued <= w2.kernel.slots[n])
            && (w3.kernel != w2.kernel <==> v.Granted? && again != {})
            && (w3.kernel != w2.kernel ==> w3.kernel == w2.kernel.(slots := w2.kernel.slots - again))
  {
    AfterTracks(a, before);
    var w := Run(a, Start(), before);
    var r := w.cells[Handle(h)];
    var w1 := Step(a, w, KernelClose(h, Granted)).0;
    SparedRun(a, w1, after, h, a.cover(r), w1.kernel.issued);
    OwnedIsGone(a, w, After(a, before).1, h);
    DeadStaysDead(a, w1, after, After(a, before).1.cells[Handle(h)].value);
    DestroyTakes(a, Run(a, w1, after), h, v);
  }

  lemma OwnedIsGone<R(!new), Q(!new)>(a: Algebra<R, Q>, w: World<R>, i: Ideal, h: nat)
    requires Lawful(a) && Tracks(a, w, i, false)
    requires Handle(h) in w.cells && Step(a, w, KernelClose(h, Granted)).1 == 0
    ensures i.cells[Handle(h)].Some? && i.cells[Handle(h)].value < w.kernel.issued
    ensures i.cells[Handle(h)].value !in Live(Step(a, w, KernelClose(h, Granted)).0.kernel)
  {
    assert CellTracks(a, w.kernel, w.cells[Handle(h)], i.cells[Handle(h)], false);
  }

  // What a destructor takes away: the occupied slots of its value, if granted.
  lemma DestroyTakes<R(!new), Q(!new)>(a: Algebra<R, Q>, w: World<R>, h: nat, v: Verdict)
    requires Lawful(a) && Handle(h) in w.cells
    ensures var w', taken := Step(a, w, Destroy(h, v)).0, a.cover(w.cells[Handle(h)]) * w.kernel.slots.Keys;
            && (w'.kernel != w.kernel <==> v.Granted? && taken != {})
            && (w'.kernel != w.kernel ==> w'.kernel == w.kernel.(slots := w.kernel.slots - taken))
  {
    var taken := a.cover(w.cells[Handle(h)]) * w.kernel.slots.Keys;
    assert w.kernel.slots - a.cover(w.cells[Handle(h)]) == w.kernel.slots - taken;
    if n :| n in taken {
      assert n !in w.kernel.slots - taken;
    } else {
      assert w.kernel.slots - taken == w.kernel.slots;
    }
  }
}
