/** `file_descriptor`: descriptor numbers, handed out lowest free first (section 2.14 of the
    System Interfaces volume of IEEE Std 1003.1-2017). */
module FileDescriptors {
  import opened Results
  import opened Kernel
  import opened Ownership
  import opened Safety
  import opened PastTheHandle

  const EBADF: Errno := 9
  const EMFILE: Errno := 24

  function LowestFrom(used: set<nat>, n: nat): (r: nat)
    ensures n <= r && r !in used && forall m :: n <= m < r ==> m in used
    decreases |used|
  {
    if n !in used then n
    else
      var r := LowestFrom(used - {n}, n + 1);
      assert r != n && r !in used - {n};
      assert forall m :: n <= m < r ==> m in used by {
        forall m | n <= m < r ensures m in used {
          assert m == n || m in used - {n};
        }
      }
      r
  }

  // The lowest number not in use.
  function LowestFree(t: Slots): (r: nat)
    ensures r !in t && forall m :: 0 <= m < r ==> m in t
  {
    LowestFrom(t.Keys, 0)
  }

  function OpenNumber(limit: nat, t: Slots): Result<int> {
    if LowestFree(t) < limit then Value(LowestFree(t)) else Error(EMFILE)
  }

  // raw_fd with null -1 and close_fd; numbers stay below `limit`.
  function Fd(limit: nat): Algebra<int, ()> {
    Algebra(
      -1,
      (t, q) => OpenNumber(limit, t),
      r => if r >= 0 then {r} else {},
      (t, r) => r in t,
      EBADF)
  }

  lemma FdLawful(limit: nat)
    ensures Lawful(Fd(limit))
  {
    var a := Fd(limit);
    forall t: Slots, q: () | a.place(t, q).Value? ensures Placed(a, t, a.place(t, q).value) {
      var r := LowestFree(t);
      assert a.place(t, q) == Value(r);
      assert r in a.cover(r);
    }
    forall t: Slots, r: int | a.cover(r) * t.Keys != {} ensures a.closable(t, r) {
      var n :| n in a.cover(r) * t.Keys;
    }
  }

  // The non-null values of live handles and raw variables are distinct open numbers.
  lemma UniqueOwnership(limit: nat, es: seq<Event<()>>, c: Cell, d: Cell)
    requires AllDisciplined(es)
    requires c in Run(Fd(limit), Start(), es).cells && d in Run(Fd(limit), Start(), es).cells && c != d
    ensures var w := Run(Fd(limit), Start(), es);
            w.cells[c] != -1 ==> w.cells[c] in w.kernel.slots && w.cells[c] != w.cells[d]
  {
    FdLawful(limit);
    HandlesDisjoint(Fd(limit), es, c, d);
  }

  // The destructor of a file whose close() succeeded, with nothing else done to it since: it ends
  // another descriptor iff the number is open again and the second close is granted, and then one
  // opened after the first close; otherwise the kernel's table stays as it was.
  lemma FileDestroyedAfterClose(
    limit: nat, before: seq<Event<()>>, h: nat, after: seq<Event<()>>, v: Verdict
  )
    requires Handle(h) in Run(Fd(limit), Start(), before).cells
    requires Step(Fd(limit), Run(Fd(limit), Start(), before), KernelClose(h, Granted)).1 == 0
    requires forall n | 0 <= n < |after| :: Spares(after[n], h)
    ensures var w1 := Step(Fd(limit), Run(Fd(limit), Start(), before), KernelClose(h, Granted)).0;
            var w2 := Run(Fd(limit), w1, after);
            var w3 := Step(Fd(limit), w2, Destroy(h, v)).0;
            Handle(h) in w2.cells &&
            var r := w2.cells[Handle(h)];
            if v.Granted? && r in w2.kernel.slots then
              w1.kernel.issued <= w2.kernel.slots[r] && w3.kernel.slots == Without(w2.kernel.slots, w2.kernel.slots[r])
            else w3.kernel == w2.kernel
  {
    FdLawful(limit);
    DestroyAfterKernelClose(Fd(limit), before, h, after, v);
    var w1 := Step(Fd(limit), Run(Fd(limit), Start(), before), KernelClose(h, Granted)).0;
    var w2 := Run(Fd(limit), w1, after);
    RunOneNumberEach(limit, Start(), before + [KernelClose(h, Granted)] + after);
    RunConcat(Fd(limit), Start(), before + [KernelClose(h, Granted)], after);
    RunConcat(Fd(limit), Start(), before, [KernelClose(h, Granted)]);
    assert OneNumberEach(limit, w2.kernel);
    var r := w2.cells[Handle(h)];
    if r in w2.kernel.slots {
      NumberIsWhole(limit, w2.kernel, r);
      assert Fd(limit).cover(r) * w2.kernel.slots.Keys == {r};
    }
  }

  lemma {:induction false} RunConcat<R, Q>(a: Algebra<R, Q>, w: World<R>, es: seq<Event<Q>>, more: seq<Event<Q>>)
    ensures Run(a, w, es + more) == Run(a, Run(a, w, es), more)
    decreases |es|
  {
    if es == [] {
      assert es + more == more;
    } else {
      assert (es + more)[1..] == es[1..] + more;
      RunConcat(a, Step(a, w, es[0]).0, es[1..], more);
    }
  }

  // A descriptor has one number, and numbers stay below the limit.
  ghost predicate OneNumberEach(limit: nat, k: KernelState) {
    && (forall m, n | m in k.slots && n in k.slots && m != n :: k.slots[m] != k.slots[n])
    && (forall n | n in k.slots :: n < limit && k.slots[n] < k.issued)
  }

  lemma KernelOneNumberEach(limit: nat, k: KernelState, q: (), r: int, v: Verdict)
    requires OneNumberEach(limit, k)
    ensures OneNumberEach(limit, Acquired(Fd(limit), k, q, v).0)
    ensures OneNumberEach(limit, Closed(Fd(limit), k, r, v).0)
  {}

  lemma {:induction false} RunOneNumberEach(limit: nat, w: World<int>, es: seq<Event<()>>)
    requires OneNumberEach(limit, w.kernel)
    ensures OneNumberEach(limit, Run(Fd(limit), w, es).kernel)
    decreases |es|
  {
    if es != [] {
      var e := es[0];
      var r := if Target(e).Some? && Target(e).value in w.cells then w.cells[Target(e).value] else 0;
      var v := if e.Acquire? || Target(e).Some? then e.v else Granted;
      KernelOneNumberEach(limit, w.kernel, (), r, v);
      StepKernel(Fd(limit), w, e);
      RunOneNumberEach(limit, Step(Fd(limit), w, e).0, es[1..]);
    }
  }

  // Every closing call in every run, closes past handles included: it succeeds iff the number is
  // open and the kernel grants it, and then ends exactly one descriptor. That descriptor is the
  // one the cell owns iff the owned one is still live; otherwise it is one opened later.
  lemma CloseExact(limit: nat, es: seq<Event<()>>, e: Event<()>)
    requires Target(e).Some? && Target(e).value in Run(Fd(limit), Start(), es).cells
    ensures var w, i := Run(Fd(limit), Start(), es), After(Fd(limit), es).1;
            var (w', error) := Step(Fd(limit), w, e);
            var r := w.cells[Target(e).value];
            && (error == 0 <==> e.v.Granted? && r in w.kernel.slots)
            && (r !in w.kernel.slots ==> error == EBADF)
            && (r in w.kernel.slots && e.v.Refused? ==> error == e.v.errno)
            && (error != 0 ==> w'.kernel == w.kernel)
            && i.cells.Keys == w.cells.Keys
            && (error == 0 ==>
                  && i.cells[Target(e).value].Some?
                  && var j, owned := w.kernel.slots[r], i.cells[Target(e).value].value;
                  && w'.kernel.slots == Without(w.kernel.slots, j)
                  && owned <= j
                  && (j == owned <==> owned in Live(w.kernel)))
  {
    FdLawful(limit);
    AfterTracks(Fd(limit), es);
    RunOneNumberEach(limit, Start(), es);
    CloseReports(Fd(limit), Run(Fd(limit), Start(), es), e);
    TargetExactFd(limit, Run(Fd(limit), Start(), es), After(Fd(limit), es).1, e);
  }

  lemma TargetExactFd(limit: nat, w: World<int>, i: Ideal, e: Event<()>)
    requires Tracks(Fd(limit), w, i, false) && OneNumberEach(limit, w.kernel)
    requires Target(e).Some? && Target(e).value in w.cells
    ensures var (w', error) := Step(Fd(limit), w, e);
            var r, o := w.cells[Target(e).value], i.cells[Target(e).value];
            && (error == 0 <==> e.v.Granted? && r in w.kernel.slots)
            && (error != 0 ==> w'.kernel == w.kernel)
            && (error == 0 ==>
                  && o.Some? && o.value <= w.kernel.slots[r]
                  && w'.kernel.slots == Without(w.kernel.slots, w.kernel.slots[r])
                  && (w.kernel.slots[r] == o.value <==> o.value in Live(w.kernel)))
  {
    var c := Target(e).value;
    var r, o := w.cells[c], i.cells[c];
    assert CellTracks(Fd(limit), w.kernel, r, o, false);
    if r in w.kernel.slots {
      NumberIsWhole(limit, w.kernel, r);
    }
  }

  lemma NumberIsWhole(limit: nat, k: KernelState, r: nat)
    requires OneNumberEach(limit, k) && r in k.slots
    ensures Fd(limit).cover(r) == {r}
    ensures k.slots - Fd(limit).cover(r) == Without(k.slots, k.slots[r])
    ensures k.slots[r] in Live(k)
  {}

  // ------------------------------------------------------------ when a whole run is safe

  // Every successful closing call of the run ends the descriptor its cell owns, and only that.
  ghost predicate EndsOwnedOnly(limit: nat, w: World<int>, i: Ideal, es: seq<Event<()>>)
    requires Tracks(Fd(limit), w, i, false)
    decreases |es|
  {
    es != [] ==>
      var e := es[0];
      var (w', error) := Step(Fd(limit), w, e);
      && (Target(e).Some? && Target(e).value in w.cells && error == 0 ==>
            && i.cells[Target(e).value].Some?
            && Live(w.kernel) - Live(w'.kernel) == {i.cells[Target(e).value].value})
      && (FdLawful(limit); StepTracks(Fd(limit), w, i, e, false);
          EndsOwnedOnly(limit, w', IdealStep(i, e, error == 0), es[1..]))
  }

  // No closing call is granted on a number that is open again although its cell's descriptor has
  // already been closed.
  ghost predicate NoneReopened(limit: nat, w: World<int>, i: Ideal, es: seq<Event<()>>)
    requires Tracks(Fd(limit), w, i, false)
    decreases |es|
  {
    es != [] ==>
      var e := es[0];
      var (w', error) := Step(Fd(limit), w, e);
      && !(Target(e).Some? && Target(e).value in w.cells && e.v.Granted? &&
           w.cells[Target(e).value] in w.kernel.slots &&
           Just(i.cells[Target(e).value]) !! Live(w.kernel))
      && (FdLawful(limit); StepTracks(Fd(limit), w, i, e, false);
          NoneReopened(limit, w', IdealStep(i, e, error == 0), es[1..]))
  }

  lemma {:induction false} SafeIffNoneReopened(limit: nat, w: World<int>, i: Ideal, es: seq<Event<()>>)
    requires Tracks(Fd(limit), w, i, false) && OneNumberEach(limit, w.kernel)
    ensures EndsOwnedOnly(limit, w, i, es) <==> NoneReopened(limit, w, i, es)
    decreases |es|
  {
    if es != [] {
      var e := es[0];
      var (w', error) := Step(Fd(limit), w, e);
      FdLawful(limit);
      StepTracks(Fd(limit), w, i, e, false);
      RunOneNumberEach(limit, w, [e]);
      assert Run(Fd(limit), w, [e]) == w';
      SafeIffNoneReopened(limit, w', IdealStep(i, e, error == 0), es[1..]);
      if Target(e).Some? && Target(e).value in w.cells {
        TargetExactFd(limit, w, i, e);
        if error == 0 {
          var j := w.kernel.slots[w.cells[Target(e).value] as nat];
          LiveAfterClose(w.kernel.slots, j);
          assert j in Live(w.kernel);
        }
      }
    }
  }

  // An open in any world: a refusal reports its own errno, otherwise the lowest free number is
  // handed out and nothing else changes, unless the limit is reached.
  lemma OpenReports(limit: nat, w: World<int>, x: nat, v: Verdict)
    requires Raw(x) !in w.cells
    ensures var (w', error) := Step(Fd(limit), w, Acquire(x, (), v));
            var n := LowestFree(w.kernel.slots);
            if v.Refused? then error == v.errno && w' == w
            else if n >= limit then error == EMFILE && w' == w
            else
              && error == 0
              && w'.kernel == KernelState(w.kernel.slots[n := w.kernel.issued], w.kernel.issued + 1)
              && w'.cells == w.cells[Raw(x) := n]
  {
    var n := LowestFree(w.kernel.slots);
    assert Fd(limit).cover(n) == {n};
  }

  // Closing number r makes it the next one handed out iff no lower number was free.
  lemma LowestAfterClose(t: Slots, r: nat)
    requires r in t
    ensures LowestFree(t - {r}) == if r < LowestFree(t) then r else LowestFree(t)
  {
    var n, m := LowestFree(t - {r}), LowestFree(t);
    assert m !in t - {r} && n <= m;
    assert r !in t - {r} && n <= r;
    if n < r {
      assert n !in t && m <= n;
    } else if r < m {
      assert n == r;
    }
  }

  // What a run has recorded as ended by the owner's own close, against the kernel's table.
  ghost predicate EndedIsGone(w: World<int>, i: Ideal) {
    Range(0, w.kernel.issued) == Live(w.kernel) + i.ended && Live(w.kernel) !! i.ended
  }

  lemma StepEndedIsGone(limit: nat, w: World<int>, i: Ideal, e: Event<()>)
    requires Tracks(Fd(limit), w, i, false) && OneNumberEach(limit, w.kernel) && EndedIsGone(w, i)
    requires EndsOwnedOnly(limit, w, i, [e])
    ensures EndedIsGone(Step(Fd(limit), w, e).0, IdealStep(i, e, Step(Fd(limit), w, e).1 == 0))
  {
    if e.Acquire? {
      FdLawful(limit);
      LiveAfterAcquire(Fd(limit), w.kernel, e.q, e.v);
    } else if Target(e).Some? {
      if Target(e).value in w.cells {
        CloseEnds(limit, w, i, e);
        var gone := if Step(Fd(limit), w, e).1 == 0 then Just(i.cells[Target(e).value]) else {};
        Balance(Range(0, w.kernel.issued), Live(w.kernel), i.ended, gone);
      }
    } else {
      assert Step(Fd(limit), w, e).0.kernel == w.kernel;
    }
  }

  lemma Balance(all: set<nat>, live: set<nat>, ended: set<nat>, gone: set<nat>)
    requires all == live + ended && live !! ended && gone <= live
    ensures all == (live - gone) + (ended + gone) && live - gone !! ended + gone
  {}

  // A close that ends the owned descriptor and nothing else is recorded as doing just that.
  lemma CloseEnds(limit: nat, w: World<int>, i: Ideal, e: Event<()>)
    requires Tracks(Fd(limit), w, i, false) && OneNumberEach(limit, w.kernel)
    requires Target(e).Some? && Target(e).value in w.cells && EndsOwnedOnly(limit, w, i, [e])
    ensures var (w', error) := Step(Fd(limit), w, e);
            var i' := IdealStep(i, e, error == 0);
            var ended := if error == 0 then Just(i.cells[Target(e).value]) else {};
            && w'.kernel.issued == w.kernel.issued
            && Live(w'.kernel) == Live(w.kernel) - ended && ended <= Live(w.kernel)
            && i'.ended == i.ended + ended
  {
    TargetExactFd(limit, w, i, e);
    var r := w.cells[Target(e).value];
    if Step(Fd(limit), w, e).1 == 0 {
      LiveAfterClose(w.kernel.slots, w.kernel.slots[r as nat]);
      NumberIsWhole(limit, w.kernel, r);
    }
  }

  // In a safe run, whatever it copies and closes, an incarnation is gone from the kernel iff a
  // close of a value acquired for it succeeded.
  lemma {:induction false} SafeRunsAccounted(limit: nat, w: World<int>, i: Ideal, es: seq<Event<()>>)
    requires Tracks(Fd(limit), w, i, false) && OneNumberEach(limit, w.kernel) && EndedIsGone(w, i)
    requires EndsOwnedOnly(limit, w, i, es)
    ensures EndedIsGone(Both(Fd(limit), w, i, es).0, Both(Fd(limit), w, i, es).1)
    decreases |es|
  {
    if es != [] {
      var e := es[0];
      var (w', error) := Step(Fd(limit), w, e);
      FdLawful(limit);
      StepTracks(Fd(limit), w, i, e, false);
      assert [e][0] == e && [e][1..] == [];
      assert EndsOwnedOnly(limit, w, i, [e]);
      StepEndedIsGone(limit, w, i, e);
      RunOneNumberEach(limit, w, [e]);
      assert Run(Fd(limit), w, [e]) == w';
      SafeRunsAccounted(limit, w', IdealStep(i, e, error == 0), es[1..]);
    }
  }

  // So for every program, whatever it copies and closes.
  lemma SafePrograms(limit: nat, es: seq<Event<()>>)
    ensures Tracks(Fd(limit), Start(), NOTHING, false)
    ensures EndsOwnedOnly(limit, Start(), NOTHING, es) <==> NoneReopened(limit, Start(), NOTHING, es)
    ensures AllDisciplined(es) ==> EndsOwnedOnly(limit, Start(), NOTHING, es)
    ensures EndsOwnedOnly(limit, Start(), NOTHING, es) ==>
              EndedIsGone(After(Fd(limit), es).0, After(Fd(limit), es).1)
  {
    SafeIffNoneReopened(limit, Start(), NOTHING, es);
    if EndsOwnedOnly(limit, Start(), NOTHING, es) {
      SafeRunsAccounted(limit, Start(), NOTHING, es);
    }
    if AllDisciplined(es) {
      HandlesAreSafe(limit, Start(), NOTHING, es);
    }
  }

  // In particular every disciplined run is safe.
  lemma {:induction false} HandlesAreSafe(limit: nat, w: World<int>, i: Ideal, es: seq<Event<()>>)
    requires Tracks(Fd(limit), w, i, true) && Tracks(Fd(limit), w, i, false)
    requires OneNumberEach(limit, w.kernel) && AllDisciplined(es)
    ensures NoneReopened(limit, w, i, es) && EndsOwnedOnly(limit, w, i, es)
    decreases |es|
  {
    SafeIffNoneReopened(limit, w, i, es);
    if es != [] {
      var e := es[0];
      var (w', error) := Step(Fd(limit), w, e);
      FdLawful(limit);
      StepTracks(Fd(limit), w, i, e, true);
      StepTracks(Fd(limit), w, i, e, false);
      RunOneNumberEach(limit, w, [e]);
      assert Run(Fd(limit), w, [e]) == w';
      HandlesAreSafe(limit, w', IdealStep(i, e, error == 0), es[1..]);
      if Target(e).Some? && Target(e).value in w.cells && w.cells[Target(e).value] in w.kernel.slots {
        var r: nat := w.cells[Target(e).value];
        assert CellTracks(Fd(limit), w.kernel, r, i.cells[Target(e).value], true);
        NumberIsWhole(limit, w.kernel, r);
        assert i.cells[Target(e).value] == Some(w.kernel.slots[r]);
        assert w.kernel.slots[r] in Just(i.cells[Target(e).value]) * Live(w.kernel);
      }
    }
  }

  // A file's close() followed by an open: the number comes back iff no lower one was free, and
  // then the file's destructor closes the newly opened descriptor; otherwise it closes nothing.
  lemma CloseOpenDestroy(limit: nat, es: seq<Event<()>>, h: nat, x: nat)
    requires Handle(h) in Run(Fd(limit), Start(), es).cells && Raw(x) !in Run(Fd(limit), Start(), es).cells
    requires Run(Fd(limit), Start(), es).cells[Handle(h)] in Run(Fd(limit), Start(), es).kernel.slots
    ensures var w := Run(Fd(limit), Start(), es);
            var w1 := Step(Fd(limit), w, KernelClose(h, Granted)).0;
            var w2 := Step(Fd(limit), w1, Acquire(x, (), Granted)).0;
            var w3 := Step(Fd(limit), w2, Destroy(h, Granted)).0;
            var latest := w.kernel.issued;
            && latest in Live(w2.kernel)
            && (latest !in Live(w3.kernel) <==> w.cells[Handle(h)] < LowestFree(w.kernel.slots))
            && (w3.kernel == w2.kernel <==> LowestFree(w.kernel.slots) < w.cells[Handle(h)])
  {
    RunOneNumberEach(limit, Start(), es);
    var w := Run(Fd(limit), Start(), es);
    var t: Slots, r: nat := w.kernel.slots, w.cells[Handle(h)];
    LowestAfterClose(t, r);
    assert LowestFree(t - {r}) <= r < limit;
    CloseOpen(limit, w, h, x);
    DestroyNumber(limit, Step(Fd(limit), Step(Fd(limit), w, KernelClose(h, Granted)).0, Acquire(x, (), Granted)).0, h);
    Reused(t, r, LowestFree(t - {r}), w.kernel.issued);
  }

  lemma DestroyNumber(limit: nat, w: World<int>, h: nat)
    requires Handle(h) in w.cells && w.cells[Handle(h)] >= 0
    ensures Step(Fd(limit), w, Destroy(h, Granted)).0.kernel ==
            w.kernel.(slots := w.kernel.slots - {w.cells[Handle(h)]})
  {
    var r: nat := w.cells[Handle(h)];
    assert Fd(limit).cover(r) == {r};
    assert r !in w.kernel.slots ==> w.kernel.slots - {r} == w.kernel.slots;
  }

  lemma Reused(t: Slots, r: nat, n: nat, j: nat)
    requires r in t && n !in t - {r} && j !in t.Values
    ensures var t2 := (t - {r})[n := j];
            && j in t2.Values
            && (j !in (t2 - {r}).Values <==> n == r)
            && (t2 - {r} == t2 <==> n != r)
  {
    var t2 := (t - {r})[n := j];
    assert t2[n] == j;
    if n == r {
      assert t2 - {r} == t - {r};
    } else {
      assert (t2 - {r})[n] == j;
    }
  }

  lemma CloseOpen(limit: nat, w: World<int>, h: nat, x: nat)
    requires Handle(h) in w.cells && Raw(x) !in w.cells
    requires w.cells[Handle(h)] in w.kernel.slots && LowestFree(w.kernel.slots - {w.cells[Handle(h)]}) < limit
    ensures var w1 := Step(Fd(limit), w, KernelClose(h, Granted)).0;
            var w2 := Step(Fd(limit), w1, Acquire(x, (), Granted)).0;
            var t1 := w.kernel.slots - {w.cells[Handle(h)]};
            && w2.kernel == KernelState(t1[LowestFree(t1) := w.kernel.issued], w.kernel.issued + 1)
            && w2.cells == w.cells[Raw(x) := LowestFree(t1)]
  {
    var w1 := Step(Fd(limit), w, KernelClose(h, Granted)).0;
    assert Fd(limit).cover(w.cells[Handle(h)]) == {w.cells[Handle(h)]};
    var n := LowestFree(w1.kernel.slots);
    assert Fd(limit).cover(n) == {n};
  }

  // The program that shows it: one file is closed past its handle, a second is opened and gets
  // the same number, the first is destroyed. The second handle still holds its number, and its
  // descriptor is gone.
  lemma SecondFileLost(limit: nat)
    requires 0 < limit
    ensures var es := [Acquire(0, (), Granted), Adopt(0, 0), KernelClose(0, Granted),
                       Acquire(1, (), Granted), Adopt(1, 1), Destroy(0, Granted)];
            Run(Fd(limit), Start(), es) == World(KernelState(map[], 2), map[Handle(1) := 0])
  {
    FileClosed(limit);
    NumberReused(limit);
    var first: seq<Event<()>> := [Acquire(0, (), Granted), Adopt(0, 0), KernelClose(0, Granted)];
    var second: seq<Event<()>> := [Acquire(1, (), Granted), Adopt(1, 1), Destroy(0, Granted)];
    RunConcat(Fd(limit), Start(), first, second);
    assert first + second == [Acquire(0, (), Granted), Adopt(0, 0), KernelClose(0, Granted),
                              Acquire(1, (), Granted), Adopt(1, 1), Destroy(0, Granted)];
  }

  lemma FileClosed(limit: nat)
    requires 0 < limit
    ensures Run(Fd(limit), Start(), [Acquire(0, (), Granted), Adopt(0, 0), KernelClose(0, Granted)]) ==
            World(KernelState(map[], 1), map[Handle(0) := 0])
  {}

  lemma NumberReused(limit: nat)
    requires 0 < limit
    ensures Run(Fd(limit), World(KernelState(map[], 1), map[Handle(0) := 0]),
                [Acquire(1, (), Granted), Adopt(1, 1), Destroy(0, Granted)]) ==
            World(KernelState(map[], 2), map[Handle(1) := 0])
  {}
}
