/** `unique_mmap_d`: page-rounded address ranges as the second resource of the same handle. */
module Mappings {
  import opened Words
  import opened Results
  import opened Kernel
  import opened Ownership
  import opened Safety

  const EINVAL: Errno := 22
  const ENOMEM: Errno := 12

  // MAP_FAILED is (void *)-1.
  const MAP_FAILED: nat := SPACE - 1

  datatype MmapD = MmapD(address: nat, length: nat)

  // What the caller asks for, and where the kernel would put it.
  datatype MapRequest = MapRequest(length: nat, page: nat)

  ghost predicate PageSize(p: nat) {
    1 < p && SPACE % p == 0
  }

  function PageCount(p: nat, length: nat): nat
    requires 0 < p
  {
    (length + p - 1) / p
  }

  // What munmap accepts: an aligned, non-empty range inside the address space.
  predicate Proper(p: nat, d: MmapD)
    requires 0 < p
  {
    d.address % p == 0 && 0 < d.length && d.address + d.length <= SPACE
  }

  function Pages(p: nat, d: MmapD): set<nat>
    requires 0 < p
  {
    if Proper(p, d) then Range(d.address / p, d.address / p + PageCount(p, d.length)) else {}
  }

  // mmap without MAP_FIXED: some free range of whole pages, never page 0.
  function MapPages(p: nat, t: Slots, q: MapRequest): Result<MmapD>
    requires 0 < p
  {
    var n := PageCount(p, q.length);
    if q.length == 0 then Error(EINVAL)
    else if 0 < q.page && q.page + n <= SPACE / p && Range(q.page, q.page + n) !! t.Keys then
      Value(MmapD(q.page * p, q.length))
    else Error(ENOMEM)
  }

  // mmap_d with null (MAP_FAILED, 0) and close_mmap.
  function Mmap(p: nat): Algebra<MmapD, MapRequest>
    requires 0 < p
  {
    Algebra(
      MmapD(MAP_FAILED, 0),
      (t, q) => MapPages(p, t, q),
      d => Pages(p, d),
      (t, d) => Proper(p, d),
      EINVAL)
  }

  lemma PageBounds(p: nat, length: nat)
    requires 0 < p
    ensures length <= PageCount(p, length) * p < length + p
    ensures 0 < length ==> 0 < PageCount(p, length)
  {}

  // A fresh mapping has the length asked for at the page the kernel chose, and covers exactly the
  // pages from there.
  lemma MappedPages(p: nat, t: Slots, q: MapRequest)
    requires PageSize(p) && MapPages(p, t, q).Value?
    ensures MapPages(p, t, q).value.length == q.length
    ensures MapPages(p, t, q).value.address == q.page * p
    ensures Proper(p, MapPages(p, t, q).value)
    ensures Pages(p, MapPages(p, t, q).value) == Range(q.page, q.page + PageCount(p, q.length))
  {
    var n := PageCount(p, q.length);
    PageBounds(p, q.length);
    assert q.page * p % p == 0 && q.page * p / p == q.page by { Quotient(q.page * p, p, q.page); }
    assert SPACE / p * p == SPACE;
    MulMonotone(q.page + n, SPACE / p, p);
    assert (q.page + n) * p == q.page * p + n * p;
  }

  lemma MulMonotone(m: nat, n: nat, p: nat)
    requires m <= n
    ensures m * p <= n * p
  {}

  lemma Distribute(m: nat, n: nat, p: nat)
    ensures (m + n) * p == m * p + n * p
  {}

  lemma BetweenPages(p: nat, first: nat, count: nat, b: nat)
    requires 0 < p && first * p <= b < (first + count) * p
    ensures first <= b / p < first + count
  {
    var n := b / p;
    assert n * p <= b < (n + 1) * p;
    if n < first { MulMonotone(n + 1, first, p); }
    if first + count <= n { MulMonotone(first + count, n, p); }
  }

  lemma PageInRange(p: nat, x: nat, count: nat, b: nat)
    requires 0 < p && x % p == 0 && x <= b < x + count * p
    ensures x / p <= b / p < x / p + count
  {
    var first := x / p;
    assert x == first * p;
    Distribute(first, count, p);
    BetweenPages(p, first, count, b);
  }

  lemma Quotient(x: nat, p: nat, n: nat)
    requires 0 < p && x == n * p
    ensures x % p == 0 && x / p == n
  {
    Distribute(n, 1, p);
    BetweenPages(p, n, 1, x);
  }

  // The first byte of a page in a range lies in the range.
  lemma FirstByte(p: nat, first: nat, count: nat, length: nat, n: nat)
    requires first <= n < first + count && count * p < length + p
    ensures first * p <= n * p < first * p + length
  {
    MulMonotone(first, n, p);
    MulMonotone(n + 1, first + count, p);
    Distribute(n, 1, p);
    Distribute(first, count, p);
  }

  lemma MmapLawful(p: nat)
    requires PageSize(p)
    ensures Lawful(Mmap(p))
  {
    var a := Mmap(p);
    forall t: Slots, q: MapRequest | a.place(t, q).Value? ensures Placed(a, t, a.place(t, q).value) {
      MappedPages(p, t, q);
      PageBounds(p, q.length);
      assert q.page in a.cover(a.place(t, q).value);
    }
  }

  lemma ByteInPage(p: nat, d: MmapD, b: nat)
    requires 0 < p && Proper(p, d) && d.address <= b < d.address + d.length
    ensures b / p in Pages(p, d)
  {
    PageBounds(p, d.length);
    PageInRange(p, d.address, PageCount(p, d.length), b);
  }

  lemma PageHasByte(p: nat, d: MmapD, n: nat) returns (b: nat)
    requires 0 < p && n in Pages(p, d)
    ensures d.address <= b < d.address + d.length && b / p == n
  {
    b := n * p;
    PageBounds(p, d.length);
    FirstByte(p, d.address / p, PageCount(p, d.length), d.length, n);
    Quotient(b, p, n);
  }

  // The pages of a range are the pages holding at least one of its bytes.
  lemma PagesHoldBytes(p: nat, d: MmapD, n: nat)
    requires 0 < p && Proper(p, d)
    ensures n in Pages(p, d) <==> exists b: nat :: d.address <= b < d.address + d.length && b / p == n
  {
    if n in Pages(p, d) {
      var b := PageHasByte(p, d, n);
    } else if b: nat :| d.address <= b < d.address + d.length && b / p == n {
      ByteInPage(p, d, b);
    }
  }

  // A map call in any world. A refusal reports its own errno. Otherwise a zero length is invalid; a
  // request whose pages lie inside the address space and are all free succeeds, and the caller gets
  // the address of its page with the length asked for; any other request runs out of memory.
  lemma MapReports(p: nat, w: World<MmapD>, x: nat, q: MapRequest, v: Verdict)
    requires PageSize(p) && Raw(x) !in w.cells
    ensures var (w', error) := Step(Mmap(p), w, Acquire(x, q, v));
            var n := PageCount(p, q.length);
            if v.Refused? then error == v.errno && w' == w
            else if q.length == 0 then error == EINVAL && w' == w
            else if 0 < q.page && (q.page + n) * p <= SPACE && Range(q.page, q.page + n) !! w.kernel.slots.Keys then
              && error == 0
              && w'.cells == w.cells[Raw(x) := MmapD(q.page * p, q.length)]
              && w'.kernel.slots.Keys == w.kernel.slots.Keys + Range(q.page, q.page + n)
              && (forall m | m in Range(q.page, q.page + n) :: w'.kernel.slots[m] == w.kernel.issued)
              && (forall m | m in w.kernel.slots :: w'.kernel.slots[m] == w.kernel.slots[m])
            else error == ENOMEM && w' == w
  {
    MmapLawful(p);
    AcquireReports(Mmap(p), w, x, q, v);
    PagesFit(p, q.page + PageCount(p, q.length));
    if MapPages(p, w.kernel.slots, q).Value? {
      MappedPages(p, w.kernel.slots, q);
    }
  }

  // Whole pages end inside the address space iff there are no more of them than it has.
  lemma PagesFit(p: nat, n: nat)
    requires PageSize(p)
    ensures n * p <= SPACE <==> n <= SPACE / p
  {
    var all := SPACE / p;
    assert all * p == SPACE;
    if n <= all {
      MulMonotone(n, all, p);
    } else {
      MulMonotone(all + 1, n, p);
      Distribute(all, 1, p);
    }
  }

  // An unmapping call in any world: EINVAL for a range that is empty, unaligned or outside the
  // address space, its own errno for a refusal; else exactly the pages of the range are unmapped.
  lemma UnmapReports(p: nat, w: World<MmapD>, e: Event<MapRequest>)
    requires PageSize(p) && Target(e).Some? && Target(e).value in w.cells
    ensures var (w', error) := Step(Mmap(p), w, e);
            var d := w.cells[Target(e).value];
            if d.length == 0 || d.address % p != 0 || d.address + d.length > SPACE then
              error == EINVAL && w'.kernel == w.kernel
            else if e.v.Refused? then error == e.v.errno && w'.kernel == w.kernel
            else error == 0 && w'.kernel == w.kernel.(slots := w.kernel.slots - Pages(p, d))
  {
    CloseReports(Mmap(p), w, e);
  }

  // The null handle's address is (void *)-1, the value mmap fails with, and no mapping held in any
  // run has it.
  lemma NullIsMapFailed(p: nat, es: seq<Event<MapRequest>>, c: Cell)
    requires PageSize(p) && c in Run(Mmap(p), Start(), es).cells
    ensures Mmap(p).nil == MmapD(0xFFFF_FFFF_FFFF_FFFF, 0)
    ensures Run(Mmap(p), Start(), es).cells[c].address == 0xFFFF_FFFF_FFFF_FFFF <==>
            Run(Mmap(p), Start(), es).cells[c] == Mmap(p).nil
  {
    MmapLawful(p);
    AfterTracks(Mmap(p), es);
    var (w, i) := After(Mmap(p), es);
    assert CellTracks(Mmap(p), w.kernel, w.cells[c], i.cells[c], false);
    if w.cells[c] != Mmap(p).nil {
      LastByteUnaligned(p);
    }
  }

  lemma LastByteUnaligned(p: nat)
    requires PageSize(p)
    ensures (SPACE - 1) % p != 0
  {
    var n, all := (SPACE - 1) / p, SPACE / p;
    assert all * p == SPACE;
    Distribute(n, 1, p);
    if n < all {
      MulMonotone(n + 1, all, p);
    } else {
      MulMonotone(all, n, p);
    }
  }

  // Live handles own disjoint page-rounded byte ranges.
  lemma MappingsDisjoint(p: nat, es: seq<Event<MapRequest>>, c: Cell, d: Cell)
    requires PageSize(p) && AllDisciplined(es)
    requires c in Run(Mmap(p), Start(), es).cells && d in Run(Mmap(p), Start(), es).cells && c != d
    requires Run(Mmap(p), Start(), es).cells[c] != Mmap(p).nil && Run(Mmap(p), Start(), es).cells[d] != Mmap(p).nil
    ensures var x, y := Run(Mmap(p), Start(), es).cells[c], Run(Mmap(p), Start(), es).cells[d];
            && Proper(p, x) && Proper(p, y)
            && (x.address + PageCount(p, x.length) * p <= y.address ||
                y.address + PageCount(p, y.length) * p <= x.address)
  {
    MmapLawful(p);
    HandlesDisjoint(Mmap(p), es, c, d);
    HandlesDisjoint(Mmap(p), es, d, c);
    var x, y := Run(Mmap(p), Start(), es).cells[c], Run(Mmap(p), Start(), es).cells[d];
    RangesApart(p, x, y);
  }

  lemma RangesOrdered(f: nat, m: nat, g: nat, n: nat)
    requires 0 < m && 0 < n && Range(f, f + m) !! Range(g, g + n)
    ensures f + m <= g || g + n <= f
  {
    assert f in Range(f, f + m) && g in Range(g, g + n);
  }

  lemma RangesApart(p: nat, x: MmapD, y: MmapD)
    requires 0 < p && Proper(p, x) && Proper(p, y) && Pages(p, x) !! Pages(p, y)
    ensures x.address + PageCount(p, x.length) * p <= y.address || y.address + PageCount(p, y.length) * p <= x.address
  {
    var f, m, g, n := x.address / p, PageCount(p, x.length), y.address / p, PageCount(p, y.length);
    PageBounds(p, x.length);
    PageBounds(p, y.length);
    RangesOrdered(f, m, g, n);
    if f + m <= g {
      EndBefore(p, x.address, m, y.address);
    } else {
      EndBefore(p, y.address, n, x.address);
    }
  }

  lemma EndBefore(p: nat, x: nat, m: nat, y: nat)
    requires 0 < p && x % p == 0 && y % p == 0 && x / p + m <= y / p
    ensures x + m * p <= y
  {
    var f, g := x / p, y / p;
    assert x == f * p && y == g * p;
    MulMonotone(f + m, g, p);
    Distribute(f, m, p);
  }

  // Closing a mapping through its handle unmaps its pages, and no page of any other handle.
  lemma MappingClosed(p: nat, es: seq<Event<MapRequest>>, h: nat, d: Cell, destroy: bool)
    requires PageSize(p) && AllDisciplined(es)
    requires Handle(h) in Run(Mmap(p), Start(), es).cells && d in Run(Mmap(p), Start(), es).cells && d != Handle(h)
    ensures var w := Run(Mmap(p), Start(), es);
            var (w', error) := Step(Mmap(p), w, if destroy then Destroy(h, Granted) else Close(h, Granted));
            && (error == 0 <==> w.cells[Handle(h)] != Mmap(p).nil)
            && w'.kernel.slots == w.kernel.slots - Pages(p, w.cells[Handle(h)])
            && Pages(p, w.cells[d]) <= w'.kernel.slots.Keys
  {
    MmapLawful(p);
    var e: Event<MapRequest> := if destroy then Destroy(h, Granted) else Close(h, Granted);
    CloseSparesOthers(Mmap(p), es, e, d);
    HandlesDisjoint(Mmap(p), es, Handle(h), d);
    NilCoversNothing(Mmap(p));
  }

  // Unlike close on a number, munmap on pages that are gone succeeds: after a successful unmap the
  // destructor's second munmap reports no error whenever it is granted, taking whatever has been
  // mapped there since.
  lemma SecondUnmapSucceeds(p: nat, w: World<MmapD>, h: nat, v: Verdict)
    requires PageSize(p) && Handle(h) in w.cells
    requires Step(Mmap(p), w, KernelClose(h, Granted)).1 == 0
    ensures var w1 := Step(Mmap(p), w, KernelClose(h, Granted)).0;
            forall w2: World<MmapD> | Handle(h) in w2.cells && w2.cells[Handle(h)] == w1.cells[Handle(h)] ::
              Step(Mmap(p), w2, Destroy(h, v)).1 == 0 <==> v.Granted?
  {}

  // A mapping made over unmapped pages loses to the destructor exactly the pages it shares with
  // the old range: all of it, part of it or nothing.
  lemma RemappedPagesLost(p: nat, es: seq<Event<MapRequest>>, h: nat, x: nat, q: MapRequest)
    requires PageSize(p)
    requires Handle(h) in Run(Mmap(p), Start(), es).cells && Raw(x) !in Run(Mmap(p), Start(), es).cells
    requires Step(Mmap(p), Run(Mmap(p), Start(), es), KernelClose(h, Granted)).1 == 0
    ensures var w := Run(Mmap(p), Start(), es);
            var w1 := Step(Mmap(p), w, KernelClose(h, Granted)).0;
            var (w2, error) := Step(Mmap(p), w1, Acquire(x, q, Granted));
            var w3 := Step(Mmap(p), w2, Destroy(h, Granted)).0;
            error == 0 ==>
              && Raw(x) in w2.cells
              && forall n :: n in w3.kernel.slots && w3.kernel.slots[n] == w.kernel.issued <==>
                             n in Pages(p, w2.cells[Raw(x)]) && n !in Pages(p, w.cells[Handle(h)])
  {
    MmapLawful(p);
    AfterTracks(Mmap(p), es);
    RemappedIn(p, Run(Mmap(p), Start(), es), h, x, q);
  }

  lemma RemappedIn(p: nat, w: World<MmapD>, h: nat, x: nat, q: MapRequest)
    requires PageSize(p) && Bounded(w.kernel) && Handle(h) in w.cells && Raw(x) !in w.cells
    requires Step(Mmap(p), w, KernelClose(h, Granted)).1 == 0
    ensures var w1 := Step(Mmap(p), w, KernelClose(h, Granted)).0;
            var (w2, error) := Step(Mmap(p), w1, Acquire(x, q, Granted));
            var w3 := Step(Mmap(p), w2, Destroy(h, Granted)).0;
            error == 0 ==>
              && Raw(x) in w2.cells
              && forall n :: n in w3.kernel.slots && w3.kernel.slots[n] == w.kernel.issued <==>
                             n in Pages(p, w2.cells[Raw(x)]) && n !in Pages(p, w.cells[Handle(h)])
  {
    var w1 := Step(Mmap(p), w, KernelClose(h, Granted)).0;
    AcquireStamps(p, w1, x, q);
    var (w2, error) := Step(Mmap(p), w1, Acquire(x, q, Granted));
    assert Proper(p, w.cells[Handle(h)]);
    if error == 0 {
      assert Step(Mmap(p), w2, Destroy(h, Granted)).0.kernel.slots == w2.kernel.slots - Pages(p, w.cells[Handle(h)]);
    }
  }

  lemma AcquireStamps(p: nat, w: World<MmapD>, x: nat, q: MapRequest)
    requires PageSize(p) && Bounded(w.kernel) && Raw(x) !in w.cells
    ensures var (w', error) := Step(Mmap(p), w, Acquire(x, q, Granted));
            error == 0 ==>
              && w'.cells.Keys == w.cells.Keys + {Raw(x)} && (forall c | c in w.cells :: w'.cells[c] == w.cells[c])
              && forall n :: n in w'.kernel.slots && w'.kernel.slots[n] == w.kernel.issued <==>
                             n in Pages(p, w'.cells[Raw(x)])
  {}
}
