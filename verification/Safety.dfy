/** What holds over whole runs, for every resource whose kernel obeys the laws. */
module Safety {
  import opened Results
  import opened Kernel
  import opened Ownership

  // Runs in which every value keeps a single holder.
  ghost predicate AllDisciplined<Q>(es: seq<Event<Q>>) {
    forall n | 0 <= n < |es| :: Disciplined(es[n])
  }

  // Both machines after a run of a program that starts with nothing.
  function After<R(==), Q>(a: Algebra<R, Q>, es: seq<Event<Q>>): (World<R>, Ideal) {
    Both(a, Start(), NOTHING, es)
  }

  lemma {:induction false} BothTracks<R(!new), Q(!new)>(
    a: Algebra<R, Q>, w: World<R>, i: Ideal, es: seq<Event<Q>>, exact: bool
  )
    requires Lawful(a) && Tracks(a, w, i, exact) && (exact ==> AllDisciplined(es))
    ensures var (w', i') := Both(a, w, i, es); Tracks(a, w', i', exact) && w' == Run(a, w, es)
    decreases |es|
  {
    if es != [] {
      StepTracks(a, w, i, es[0], exact);
      var (w', error) := Step(a, w, es[0]);
      BothTracks(a, w', IdealStep(i, es[0], error == 0), es[1..], exact);
    }
  }

  lemma AfterTracks<R(!new), Q(!new)>(a: Algebra<R, Q>, es: seq<Event<Q>>)
    requires Lawful(a)
    ensures Tracks(a, After(a, es).0, After(a, es).1, false)
    ensures AllDisciplined(es) ==> Tracks(a, After(a, es).0, After(a, es).1, true)
    ensures After(a, es).0 == Run(a, Start(), es)
  {
    BothTracks(a, Start(), NOTHING, es, false);
    if AllDisciplined(es) {
      BothTracks(a, Start(), NOTHING, es, true);
    }
  }

  // ------------------------------------------------------- closing ends the owned incarnation

  function Without(slots: Slots, j: nat): Slots {
    map n | n in slots && slots[n] != j :: slots[n]
  }

  // A closing call after any disciplined run: it succeeds just when the cell owns something and
  // the kernel grants it, and then removes exactly the slots of the incarnation the cell owns;
  // otherwise nothing changes.
  lemma CloseEndsOwned<R(!new), Q(!new)>(a: Algebra<R, Q>, es: seq<Event<Q>>, e: Event<Q>)
    requires Lawful(a) && AllDisciplined(es)
    requires Target(e).Some? && Target(e).value in After(a, es).0.cells
    ensures var (w, i) := After(a, es);
            var (w', error) := Step(a, w, e);
            && Target(e).value in i.cells
            && (error == 0 <==> i.cells[Target(e).value].Some? && e.v.Granted?)
            && w'.kernel.slots == (if error == 0 then Without(w.kernel.slots, i.cells[Target(e).value].value)
                                   else w.kernel.slots)
  {
    AfterTracks(a, es);
    var (w, i) := After(a, es);
    TargetExact(a, w, i, e);
  }

  lemma TargetExact<R(!new), Q(!new)>(a: Algebra<R, Q>, w: World<R>, i: Ideal, e: Event<Q>)
    requires Lawful(a) && Tracks(a, w, i, true)
    requires Target(e).Some? && Target(e).value in w.cells
    ensures var (w', error) := Step(a, w, e);
            var o := i.cells[Target(e).value];
            && (error == 0 <==> o.Some? && e.v.Granted?)
            && w'.kernel.issued == w.kernel.issued
            && w'.kernel.slots == (if error == 0 then Without(w.kernel.slots, o.value) else w.kernel.slots)
  {
    var c := Target(e).value;
    var r, o := w.cells[c], i.cells[c];
    assert CellTracks(a, w.kernel, r, o, true);
    if o.Some? {
      var n :| n in a.cover(r);
      assert n in a.cover(r) * w.kernel.slots.Keys;
      assert w.kernel.slots - a.cover(r) == Without(w.kernel.slots, o.value);
    }
  }

  // The error a closing call reports after any disciplined run: closing a cell that owns nothing
  // gives the invalid-value errno, a refusal gives exactly the errno it was refused with.
  lemma CloseErrors<R(!new), Q(!new)>(a: Algebra<R, Q>, es: seq<Event<Q>>, e: Event<Q>)
    requires Lawful(a) && AllDisciplined(es)
    requires Target(e).Some? && Target(e).value in After(a, es).0.cells
    ensures var (w, i) := After(a, es);
            var error := Step(a, w, e).1;
            && Target(e).value in i.cells
            && (i.cells[Target(e).value] == None ==> error == a.invalid)
            && (i.cells[Target(e).value].Some? && e.v.Refused? ==> error == e.v.errno)
            && (i.cells[Target(e).value].Some? && e.v.Granted? ==> error == 0)
  {
    AfterTracks(a, es);
    var (w, i) := After(a, es);
    var c := Target(e).value;
    CloseReports(a, w, e);
    assert CellTracks(a, w.kernel, w.cells[c], i.cells[c], true);
    if i.cells[c].Some? {
      var n :| n in a.cover(w.cells[c]);
      assert n in a.cover(w.cells[c]) * w.kernel.slots.Keys;
    }
  }

  // A closing call leaves every other cell's slots in place, with their stamps.
  lemma CloseSparesOthers<R(!new), Q(!new)>(a: Algebra<R, Q>, es: seq<Event<Q>>, e: Event<Q>, d: Cell)
    requires Lawful(a) && AllDisciplined(es)
    requires Target(e).Some? && Target(e).value in Run(a, Start(), es).cells
    requires d in Run(a, Start(), es).cells && Target(e).value != d
    ensures var w := Run(a, Start(), es);
            var (w', error) := Step(a, w, e);
            && (error == 0 ==> a.cover(w.cells[Target(e).value]) !! w'.kernel.slots.Keys)
            && forall n | n in a.cover(w.cells[d]) ::
                 n in w.kernel.slots && n in w'.kernel.slots && w'.kernel.slots[n] == w.kernel.slots[n]
  {
    HandlesDisjoint(a, es, d, Target(e).value);
    NilCoversNothing(a);
  }

  // Live handles never share a slot, and every slot a handle stands for is mapped by the
  // incarnation it owns.
  lemma HandlesDisjoint<R(!new), Q(!new)>(a: Algebra<R, Q>, es: seq<Event<Q>>, c: Cell, d: Cell)
    requires Lawful(a) && AllDisciplined(es)
    requires c in Run(a, Start(), es).cells && d in Run(a, Start(), es).cells && c != d
    ensures var w := Run(a, Start(), es);
            && (w.cells[c] != a.nil ==>
                  a.cover(w.cells[c]) != {} && a.cover(w.cells[c]) <= w.kernel.slots.Keys &&
                  a.cover(w.cells[c]) !! a.cover(w.cells[d]) && w.cells[c] != w.cells[d])
  {
    AfterTracks(a, es);
    var (w, i) := After(a, es);
    assert CellTracks(a, w.kernel, w.cells[c], i.cells[c], true);
    assert CellTracks(a, w.kernel, w.cells[d], i.cells[d], true);
    if w.cells[c] != a.nil && w.cells[d] == a.nil {
      NilCoversNothing(a);
    }
  }

  lemma NilCoversNothing<R(!new), Q(!new)>(a: Algebra<R, Q>)
    requires Lawful(a)
    ensures a.cover(a.nil) == {}
  {
    forall n: nat ensures n !in a.cover(a.nil) {
      var t: Slots := map[n := 0];
      assert !a.closable(t, a.nil);
      assert n in a.cover(a.nil) ==> n in a.cover(a.nil) * t.Keys;
    }
  }

  // ---------------------------------------------------------------------------- conservation

  function Live(k: KernelState): set<nat> { k.slots.Values }

  function Owned(owners: Owners): set<nat> {
    set c | c in owners && owners[c].Some? :: owners[c].value
  }

  function Held(owners: Owners): set<nat> {
    set c | c in owners && c.Handle? && owners[c].Some? :: owners[c].value
  }

  function Outstanding(owners: Owners): set<nat> {
    set c | c in owners && c.Raw? && owners[c].Some? :: owners[c].value
  }

  function Just(o: Option<nat>): set<nat> {
    match o case None => {} case Some(j) => {j}
  }

  ghost predicate Accounted(k: KernelState, i: Ideal) {
    && Live(k) == Owned(i.cells) + i.leaked
    && Range(0, i.issued) == Live(k) + i.ended
    && Owned(i.cells) !! i.leaked
    && Live(k) !! i.ended
  }

  lemma OwnedDrop(owners: Owners, c: Cell)
    requires c in owners && forall d | d in owners && d != c && owners[c].Some? :: owners[d] != owners[c]
    ensures Owned(owners[c := None]) == Owned(owners - {c}) == Owned(owners) - Just(owners[c])
    ensures Just(owners[c]) <= Owned(owners)
  {
    var m, m' := owners[c := None], owners - {c};
    forall j | j in Owned(owners) && j !in Just(owners[c]) ensures j in Owned(m) && j in Owned(m') {
      var x :| x in owners && owners[x] == Some(j);
      assert m[x] == Some(j) && m'[x] == Some(j);
    }
  }

  lemma OwnedMove(owners: Owners, c: Cell, d: Cell)
    requires d in owners
    ensures c in owners ==> Owned(Swap(owners, c, d)) == Owned(owners)
    ensures c !in owners ==> Owned(owners[c := owners[d]][d := None]) == Owned(owners)
    ensures c !in owners ==> Owned(owners[c := owners[d]] - {d}) == Owned(owners)
  {
    if c in owners {
      var m := Swap(owners, c, d);
      forall j | j in Owned(owners) ensures j in Owned(m) {
        var x :| x in owners && owners[x] == Some(j);
        var y := if x == c then d else if x == d then c else x;
        assert m[y] == Some(j);
      }
    } else {
      var m, m' := owners[c := owners[d]][d := None], owners[c := owners[d]] - {d};
      forall j | j in Owned(owners) ensures j in Owned(m) && j in Owned(m') {
        var x :| x in owners && owners[x] == Some(j);
        var y := if x == d then c else x;
        assert m[y] == Some(j) && m'[y] == Some(j);
      }
    }
  }

  lemma OwnedPut(owners: Owners, c: Cell, j: nat)
    requires c !in owners
    ensures Owned(owners[c := None]) == Owned(owners)
    ensures Owned(owners[c := Some(j)]) == Owned(owners) + {j}
  {
    var m, m' := owners[c := None], owners[c := Some(j)];
    assert m'[c] == Some(j);
    forall l | l in Owned(owners) ensures l in Owned(m) && l in Owned(m') {
      var x :| x in owners && owners[x] == Some(l);
      assert m[x] == Some(l) && m'[x] == Some(l);
    }
  }

  // A cell that owns an incarnation covers at least one slot of it.
  lemma OwnedIsLive<R, Q>(a: Algebra<R, Q>, w: World<R>, i: Ideal, c: Cell)
    requires Tracks(a, w, i, true) && c in i.cells
    ensures Just(i.cells[c]) <= Live(w.kernel)
  {
    if i.cells[c].Some? {
      assert CellTracks(a, w.kernel, w.cells[c], i.cells[c], true);
      var n :| n in a.cover(w.cells[c]);
      assert n in w.kernel.slots;
    }
  }

  lemma LiveAfterClose(slots: Slots, j: nat)
    ensures Without(slots, j).Values == slots.Values - {j}
  {
    var t := Without(slots, j);
    forall l | l in slots.Values && l != j ensures l in t.Values {
      var n :| n in slots && slots[n] == l;
      assert n in t && t[n] == l;
    }
  }

  lemma LiveAfterAcquire<R(!new), Q(!new)>(a: Algebra<R, Q>, k: KernelState, q: Q, v: Verdict)
    requires Lawful(a)
    ensures Acquired(a, k, q, v).1.Value? ==> Live(Acquired(a, k, q, v).0) == Live(k) + {k.issued}
  {
    var (k', r) := Acquired(a, k, q, v);
    if r.Value? {
      assert Placed(a, k.slots, r.value);
      var n :| n in a.cover(r.value);
      assert k'.slots[n] == k.issued;
      forall l | l in Live(k) ensures l in Live(k') {
        var n :| n in k.slots && k.slots[n] == l;
        assert n in k'.slots && k'.slots[n] == l;
      }
    }
  }

  lemma AcquireAccounted<R(!new), Q(!new)>(a: Algebra<R, Q>, w: World<R>, i: Ideal, e: Event<Q>)
    requires Lawful(a) && Tracks(a, w, i, true) && Accounted(w.kernel, i) && e.Acquire?
    ensures Accounted(Step(a, w, e).0.kernel, IdealStep(i, e, Step(a, w, e).1 == 0))
  {
    if Raw(e.x) !in w.cells {
      LiveAfterAcquire(a, w.kernel, e.q, e.v);
      OwnedPut(i.cells, Raw(e.x), i.issued);
    }
  }

  lemma CloseAccounted<R(!new), Q(!new)>(a: Algebra<R, Q>, w: World<R>, i: Ideal, e: Event<Q>)
    requires Lawful(a) && Tracks(a, w, i, true) && Accounted(w.kernel, i)
    requires Target(e).Some? && Disciplined(e)
    ensures Accounted(Step(a, w, e).0.kernel, IdealStep(i, e, Step(a, w, e).1 == 0))
  {
    var c := Target(e).value;
    if c in w.cells {
      TargetExact(a, w, i, e);
      OwnedIsLive(a, w, i, c);
      OwnedDrop(i.cells, c);
      if i.cells[c].Some? {
        LiveAfterClose(w.kernel.slots, i.cells[c].value);
      }
    }
  }

  lemma MoveAccounted<R(!new), Q(!new)>(a: Algebra<R, Q>, w: World<R>, i: Ideal, e: Event<Q>)
    requires Tracks(a, w, i, true) && Accounted(w.kernel, i) && !e.Acquire? && Target(e) == None && Disciplined(e)
    ensures Accounted(Step(a, w, e).0.kernel, IdealStep(i, e, Step(a, w, e).1 == 0))
  {
    match e
    case MakeNull(h) =>
      if Handle(h) !in i.cells {
        OwnedPut(i.cells, Handle(h), 0);
      }
    case MoveAssign(h, f) =>
      if Handle(h) in i.cells && Handle(f) in i.cells {
        OwnedMove(i.cells, Handle(h), Handle(f));
      }
    case MoveConstruct(h, f) =>
      if Handle(f) in i.cells {
        OwnedMove(i.cells, Handle(h), Handle(f));
      }
    case Adopt(h, x) =>
      if Raw(x) in i.cells {
        OwnedMove(i.cells, Handle(h), Raw(x));
      }
    case Release(h, x) =>
      if Handle(h) in i.cells {
        OwnedMove(i.cells, Raw(x), Handle(h));
      }
  }

  lemma {:induction false} BothAccounted<R(!new), Q(!new)>(a: Algebra<R, Q>, w: World<R>, i: Ideal, es: seq<Event<Q>>)
    requires Lawful(a) && Tracks(a, w, i, true) && Accounted(w.kernel, i) && AllDisciplined(es)
    ensures Accounted(Both(a, w, i, es).0.kernel, Both(a, w, i, es).1)
    decreases |es|
  {
    if es != [] {
      var e := es[0];
      StepTracks(a, w, i, e, true);
      if e.Acquire? {
        AcquireAccounted(a, w, i, e);
      } else if Target(e).Some? {
        CloseAccounted(a, w, i, e);
      } else {
        MoveAccounted(a, w, i, e);
      }
      var (w', error) := Step(a, w, e);
      BothAccounted(a, w', IdealStep(i, e, error == 0), es[1..]);
    }
  }

  // Every incarnation ever opened is in exactly one place: owned by a handle, outstanding as a
  // raw value, ended, or leaked; and it is live in the kernel just when it has not ended.
  lemma Conservation<R(!new), Q(!new)>(a: Algebra<R, Q>, es: seq<Event<Q>>)
    requires Lawful(a) && AllDisciplined(es)
    ensures var (w, i) := After(a, es);
            var held, out := Held(i.cells), Outstanding(i.cells);
            && Range(0, w.kernel.issued) == held + out + i.ended + i.leaked
            && held !! out !! i.ended !! i.leaked
            && Live(w.kernel) == held + out + i.leaked
  {
    AfterTracks(a, es);
    BothAccounted(a, Start(), NOTHING, es);
    var (w, i) := After(a, es);
    assert Owned(i.cells) == Held(i.cells) + Outstanding(i.cells);
    assert Held(i.cells) !! Outstanding(i.cells);
  }

  // What the kernel says is lost in a run: the incarnations still in the slots of a handle whose
  // destructor close was refused.
  function Stamps<R, Q>(a: Algebra<R, Q>, k: KernelState, r: R): set<nat> {
    set n | n in a.cover(r) && n in k.slots :: k.slots[n]
  }

  function LostBy<R, Q>(a: Algebra<R, Q>, w: World<R>, e: Event<Q>): set<nat> {
    if e.Destroy? && e.v.Refused? && Handle(e.h) in w.cells then Stamps(a, w.kernel, w.cells[Handle(e.h)]) else {}
  }

  function LostIn<R(==), Q>(a: Algebra<R, Q>, w: World<R>, es: seq<Event<Q>>): set<nat>
    decreases |es|
  {
    if es == [] then {} else LostBy(a, w, es[0]) + LostIn(a, Step(a, w, es[0]).0, es[1..])
  }

  lemma StampsAreOwner<R(!new), Q(!new)>(a: Algebra<R, Q>, w: World<R>, i: Ideal, c: Cell)
    requires Lawful(a) && Tracks(a, w, i, true) && c in w.cells
    ensures Stamps(a, w.kernel, w.cells[c]) == Just(i.cells[c])
  {
    assert CellTracks(a, w.kernel, w.cells[c], i.cells[c], true);
    NilCoversNothing(a);
    if i.cells[c].Some? {
      var n :| n in a.cover(w.cells[c]);
      assert w.kernel.slots[n] in Stamps(a, w.kernel, w.cells[c]);
    }
  }

  lemma LeakStep<R(!new), Q(!new)>(a: Algebra<R, Q>, w: World<R>, i: Ideal, e: Event<Q>)
    requires Lawful(a) && Tracks(a, w, i, true) && Disciplined(e)
    ensures IdealStep(i, e, Step(a, w, e).1 == 0).leaked == i.leaked + LostBy(a, w, e)
  {
    if e.Destroy? && Handle(e.h) in w.cells {
      StampsAreOwner(a, w, i, Handle(e.h));
      TargetExact(a, w, i, e);
    }
  }

  lemma {:induction false} LeakedIsLost<R(!new), Q(!new)>(a: Algebra<R, Q>, w: World<R>, i: Ideal, es: seq<Event<Q>>)
    requires Lawful(a) && Tracks(a, w, i, true) && AllDisciplined(es)
    ensures Both(a, w, i, es).1.leaked == i.leaked + LostIn(a, w, es)
    decreases |es|
  {
    if es != [] {
      LeakStep(a, w, i, es[0]);
      StepTracks(a, w, i, es[0], true);
      var (w', error) := Step(a, w, es[0]);
      LeakedIsLost(a, w', IdealStep(i, es[0], error == 0), es[1..]);
    }
  }

  lemma OccupiedIsLive(slots: Slots)
    ensures slots != map[] ==> slots.Values != {}
  {
    if slots != map[] {
      var n :| n in slots;
      assert slots[n] in slots.Values;
    }
  }

  // A program that has destroyed all its handles has leaked exactly what failed destructor closes
  // left behind, besides the raw values it still holds; with neither, the kernel is empty again.
  lemma AllDestroyed<R(!new), Q(!new)>(a: Algebra<R, Q>, es: seq<Event<Q>>)
    requires Lawful(a) && AllDisciplined(es)
    requires forall c | c in Run(a, Start(), es).cells :: c.Raw?
    ensures Live(Run(a, Start(), es).kernel) == Outstanding(After(a, es).1.cells) + LostIn(a, Start(), es)
    ensures Outstanding(After(a, es).1.cells) !! LostIn(a, Start(), es)
    ensures Run(a, Start(), es).cells == map[] && LostIn(a, Start(), es) == {} ==>
              Run(a, Start(), es).kernel.slots == map[]
  {
    AfterTracks(a, es);
    LeakedIsLost(a, Start(), NOTHING, es);
    Conservation(a, es);
    var (w, i) := After(a, es);
    assert Held(i.cells) == {};
    if w.cells == map[] && LostIn(a, Start(), es) == {} {
      OccupiedIsLive(w.kernel.slots);
    }
  }

  // An incarnation that is gone never comes back: it can be ended only once, in any run at all.
  lemma {:induction false} DeadStaysDead<R(!new), Q(!new)>(
    a: Algebra<R, Q>, w: World<R>, es: seq<Event<Q>>, j: nat
  )
    requires Lawful(a) && j < w.kernel.issued && j !in Live(w.kernel)
    ensures j !in Live(Run(a, w, es).kernel) && w.kernel.issued <= Run(a, w, es).kernel.issued
    decreases |es|
  {
    if es != [] {
      var w' := Step(a, w, es[0]).0;
      forall n | n in w'.kernel.slots ensures w'.kernel.slots[n] != j {
        assert n in w.kernel.slots ==> w.kernel.slots[n] in Live(w.kernel);
      }
      DeadStaysDead(a, w', es[1..], j);
    }
  }
}
