/** Moves only shuffle what handles hold, and the factories move one acquisition into one handle. */
module Moves {
  import opened Results
  import opened Kernel
  import opened Ownership
  import opened Safety

  ghost predicate MovesOnly<Q>(es: seq<Event<Q>>) {
    forall n | 0 <= n < |es| :: es[n].MoveAssign?
  }

  // What a sequence of move assignments does to any contents of the cells.
  function Shuffle<T, Q>(m: map<Cell, T>, es: seq<Event<Q>>): map<Cell, T>
    decreases |es|
  {
    if es == [] then m
    else if es[0].MoveAssign? && Handle(es[0].h) in m && Handle(es[0].from) in m then
      Shuffle(Swap(m, Handle(es[0].h), Handle(es[0].from)), es[1..])
    else Shuffle(m, es[1..])
  }

  // The shuffle of the cells' own names: where the contents of each cell came from.
  function Sources<Q>(cells: set<Cell>, es: seq<Event<Q>>): map<Cell, Cell> {
    Shuffle(map c | c in cells :: c, es)
  }

  ghost predicate Injective(p: map<Cell, Cell>) {
    forall c, d | c in p && d in p && c != d :: p[c] != p[d]
  }

  ghost predicate Into(p: map<Cell, Cell>, cells: set<Cell>) {
    forall c | c in p :: p[c] in cells
  }

  // m holds in each cell what `base` gives for the cell's source.
  ghost predicate Reads<T>(m: map<Cell, T>, base: Cell -> T, p: map<Cell, Cell>) {
    m.Keys == p.Keys && forall c | c in m :: m[c] == base(p[c])
  }

  lemma {:induction false} ShuffleReads<T, Q>(m: map<Cell, T>, base: Cell -> T, p: map<Cell, Cell>, es: seq<Event<Q>>)
    requires Reads(m, base, p)
    ensures Reads(Shuffle(m, es), base, Shuffle(p, es))
    decreases |es|
  {
    if es != [] {
      if es[0].MoveAssign? && Handle(es[0].h) in m && Handle(es[0].from) in m {
        var c, d := Handle(es[0].h), Handle(es[0].from);
        ShuffleReads(Swap(m, c, d), base, Swap(p, c, d), es[1..]);
      } else {
        ShuffleReads(m, base, p, es[1..]);
      }
    }
  }

  lemma {:induction false} ShuffleInjective<Q>(p: map<Cell, Cell>, cells: set<Cell>, es: seq<Event<Q>>)
    requires Injective(p) && Into(p, cells)
    ensures Injective(Shuffle(p, es)) && Into(Shuffle(p, es), cells) && Shuffle(p, es).Keys == p.Keys
    decreases |es|
  {
    if es != [] {
      if es[0].MoveAssign? && Handle(es[0].h) in p && Handle(es[0].from) in p {
        ShuffleInjective(Swap(p, Handle(es[0].h), Handle(es[0].from)), cells, es[1..]);
      } else {
        ShuffleInjective(p, cells, es[1..]);
      }
    }
  }

  lemma {:induction false} RunIsShuffle<R, Q>(a: Algebra<R, Q>, w: World<R>, es: seq<Event<Q>>)
    requires MovesOnly(es)
    ensures Run(a, w, es) == World(w.kernel, Shuffle(w.cells, es))
    decreases |es|
  {
    if es != [] {
      RunIsShuffle(a, Step(a, w, es[0]).0, es[1..]);
    }
  }

  // Any sequence of move assignments, self-moves included, leaves the kernel untouched and the
  // handles' values permuted; which permutation depends on the moves alone.
  lemma MovesPermute<R, Q>(a: Algebra<R, Q>, w: World<R>, es: seq<Event<Q>>)
    requires MovesOnly(es)
    ensures var w', p := Run(a, w, es), Sources(w.cells.Keys, es);
            && w'.kernel == w.kernel
            && w'.cells.Keys == p.Keys == w.cells.Keys && Injective(p) && Into(p, w.cells.Keys)
            && forall c | c in w'.cells :: p[c] in w.cells && w'.cells[c] == w.cells[p[c]]
  {
    var base: Cell -> R := c => if c in w.cells then w.cells[c] else a.nil;
    var id := map c | c in w.cells.Keys :: c;
    ShuffleReads(w.cells, base, id, es);
    ShuffleInjective(id, w.cells.Keys, es);
    RunIsShuffle(a, w, es);
  }

  // The program of file::open and mmap::map once the raw value is in variable x: adopt it into a
  // temporary, move that into the result, destroy the temporary.
  function OpenInto<Q>(h: nat, temp: nat, x: nat, atExit: Verdict): seq<Event<Q>> {
    [Adopt(temp, x), MoveConstruct(h, temp), Destroy(temp, atExit)]
  }

  // A successful open ends with exactly one new handle, which owns the new incarnation; a failed
  // one leaves handles and kernel as they were.
  lemma OpenOwns<R(!new), Q(!new)>(
    a: Algebra<R, Q>, es: seq<Event<Q>>, h: nat, temp: nat, x: nat, q: Q, v: Verdict, atExit: Verdict
  )
    requires Lawful(a) && h != temp
    requires var cells := Run(a, Start(), es).cells; Handle(h) !in cells && Handle(temp) !in cells && Raw(x) !in cells
    ensures var (w, i) := After(a, es);
            var (w1, error) := Step(a, w, Acquire(x, q, v));
            var (w2, i2) := Both(a, w1, IdealStep(i, Acquire(x, q, v), error == 0), OpenInto(h, temp, x, atExit));
            && (v.Refused? ==> error == v.errno)
            && (v.Granted? ==> match a.place(w.kernel.slots, q) case Error(c) => error == c case Value(_) => error == 0)
            && (error != 0 ==> w1 == w)
            && (error == 0 ==>
                  && v.Granted? && a.place(w.kernel.slots, q).Value?
                  && w2.cells == w.cells[Handle(h) := a.place(w.kernel.slots, q).value]
                  && i2 == i.(cells := i.cells[Handle(h) := Some(w.kernel.issued)], issued := i.issued + 1)
                  && w2.kernel == w1.kernel)
  {
    AfterTracks(a, es);
    var (w, i) := After(a, es);
    var (w1, error) := Step(a, w, Acquire(x, q, v));
    AcquireReports(a, w, x, q, v);
    if error == 0 {
      var i1 := IdealStep(i, Acquire(x, q, v), true);
      AdoptMoveDestroy(a, w1, i1, h, temp, x, atExit);
      assert w1.cells - {Raw(x)} == w.cells;
      assert i1.cells - {Raw(x)} == i.cells;
    }
  }

  lemma AdoptMoveDestroy<R(!new), Q(!new)>(
    a: Algebra<R, Q>, w: World<R>, i: Ideal, h: nat, temp: nat, x: nat, atExit: Verdict
  )
    requires Lawful(a) && h != temp && w.cells.Keys == i.cells.Keys
    requires Handle(h) !in w.cells && Handle(temp) !in w.cells && Raw(x) in w.cells
    ensures Both(a, w, i, OpenInto(h, temp, x, atExit)) ==
            (World(w.kernel, (w.cells - {Raw(x)})[Handle(h) := w.cells[Raw(x)]]),
             i.(cells := (i.cells - {Raw(x)})[Handle(h) := i.cells[Raw(x)]]))
  {
    var es: seq<Event<Q>> := OpenInto(h, temp, x, atExit);
    var w1, i1 := Step(a, w, es[0]).0, IdealStep(i, es[0], true);
    var w2, i2 := Step(a, w1, es[1]).0, IdealStep(i1, es[1], true);
    var w3, i3 := Step(a, w2, es[2]).0, IdealStep(i2, es[2], false);
    assert w2.cells[Handle(temp)] == a.nil && i2.cells[Handle(temp)] == None;
    assert w3.kernel == w.kernel && w3.cells == (w.cells - {Raw(x)})[Handle(h) := w.cells[Raw(x)]];
    assert i3 == i.(cells := (i.cells - {Raw(x)})[Handle(h) := i.cells[Raw(x)]]);
    Three(a, w, i, es);
  }

  lemma Three<R, Q>(a: Algebra<R, Q>, w: World<R>, i: Ideal, es: seq<Event<Q>>)
    requires |es| == 3
    ensures var (w1, e1) := Step(a, w, es[0]);
            var i1 := IdealStep(i, es[0], e1 == 0);
            var (w2, e2) := Step(a, w1, es[1]);
            var i2 := IdealStep(i1, es[1], e2 == 0);
            var (w3, e3) := Step(a, w2, es[2]);
            Both(a, w, i, es) == (w3, IdealStep(i2, es[2], e3 == 0))
  {
    var (w1, e1) := Step(a, w, es[0]);
    var i1 := IdealStep(i, es[0], e1 == 0);
    var (w2, e2) := Step(a, w1, es[1]);
    var i2 := IdealStep(i1, es[1], e2 == 0);
    var (w3, e3) := Step(a, w2, es[2]);
    var last := [es[2]];
    assert es[1..][0] == es[1] && es[1..][1..] == last && last[0] == es[2] && last[1..] == [];
    assert Both(a, w, i, es) == Both(a, w1, i1, es[1..]);
    assert Both(a, w1, i1, es[1..]) == Both(a, w2, i2, last);
    assert Both(a, w2, i2, last) == Both(a, w3, IdealStep(i2, es[2], e3 == 0), []);
  }
}
