/** The span family: a pointer and a length, and windows into it. */
module Spans {
  import opened Words

  // Address 0 is the null pointer.
  datatype Span = Span(data: Word, length: Word)

  // The default constructor, and the pointer-and-length one.
  const EMPTY := Span(0, 0)

  function Make(data: Word, length: Word): Span {
    Span(data, if data != 0 then length else 0)
  }

  function Subspan(s: Span, offset: Word, count: Word): Span {
    if offset >= s.length || Sub(s.length, offset) < count then EMPTY else Make(Add(s.data, offset), count)
  }

  // The conversion to the const span.
  function ToConst(s: Span): Span { Make(s.data, s.length) }

  // A span of bytes that exist: no object wraps around the address space.
  predicate InMemory(s: Span) {
    s.data + s.length <= SPACE && (s.data == 0 ==> s.length == 0)
  }

  // Any pointer to bytes that exist, with any length if it is null, makes such a span: a null
  // pointer loses its length, another keeps it.
  lemma MakeKeeps(data: Word, length: Word)
    requires data == 0 || data + length <= SPACE
    ensures InMemory(Make(data, length))
    ensures Make(0, length) == EMPTY
    ensures data != 0 ==> Make(data, length).data == data && Make(data, length).length == length
  {}

  // The conversion keeps the pointer and the length.
  lemma ToConstKeeps(s: Span)
    requires InMemory(s)
    ensures ToConst(s).data == s.data && ToConst(s).length == s.length
  {}

  // For all 64-bit arguments the machine's test decides the true one on unbounded integers.
  lemma SubspanExact(s: Span, offset: Word, count: Word)
    requires InMemory(s)
    ensures Subspan(s, offset, count) ==
            if offset < s.length && offset + count <= s.length then Span(s.data + offset, count) else EMPTY
  {}

  // Testing `offset + count <= length` in size_t instead would accept what the code rejects, and
  // exactly when the sum wraps around into the range.
  lemma WrappingTestDiffers(s: Span, offset: Word, count: Word)
    requires InMemory(s) && offset < s.length
    ensures (Add(offset, count) <= s.length && Subspan(s, offset, count) == EMPTY) <==>
            SPACE <= offset + count <= SPACE + s.length
  {}

  datatype Operation = Window(offset: Word, count: Word) | Convert

  function Apply(s: Span, ops: seq<Operation>): Span
    decreases |ops|
  {
    if ops == [] then s
    else
      match ops[0]
      case Window(o, c) => Apply(Subspan(s, o, c), ops[1..])
      case Convert => Apply(ToConst(s), ops[1..])
  }

  predicate Inside(t: Span, s: Span) {
    t == EMPTY || (s.data <= t.data && t.data + t.length <= s.data + s.length)
  }

  // Any chain of conversions and windows, whatever the arguments, gives the empty span or a
  // window inside the first one, and never a null pointer with a length.
  lemma {:induction false} ChainInside(s: Span, ops: seq<Operation>)
    requires InMemory(s)
    ensures InMemory(Apply(s, ops)) && Inside(Apply(s, ops), s)
    decreases |ops|
  {
    if ops != [] {
      var t := if ops[0].Window? then Subspan(s, ops[0].offset, ops[0].count) else ToConst(s);
      ChainInside(t, ops[1..]);
    }
  }

  // A list of windows, each into the one before.
  function Nested(s: Span, steps: seq<(Word, Word)>): Span
    decreases |steps|
  {
    if steps == [] then s else Nested(Subspan(s, steps[0].0, steps[0].1), steps[1..])
  }

  // Every step asks for a window inside the current length.
  predicate Fits(length: nat, steps: seq<(Word, Word)>)
    decreases |steps|
  {
    steps != [] ==>
      steps[0].0 < length && steps[0].1 <= length - steps[0].0 && Fits(steps[0].1, steps[1..])
  }

  function Sum(steps: seq<(Word, Word)>): nat
    decreases |steps|
  {
    if steps == [] then 0 else steps[0].0 + Sum(steps[1..])
  }

  // Nested windows that fit are one window at the sum of the offsets with the last count, and the
  // sum does not overflow; if any step does not fit, the whole nest is empty.
  lemma {:induction false} NestedCollapse(s: Span, steps: seq<(Word, Word)>)
    requires InMemory(s) && steps != []
    ensures Fits(s.length, steps) ==>
              Sum(steps) < s.length && Nested(s, steps) == Subspan(s, Sum(steps), steps[|steps| - 1].1) != EMPTY
    ensures !Fits(s.length, steps) ==> Nested(s, steps) == EMPTY
    decreases |steps|
  {
    var (o, c) := steps[0];
    var t := Subspan(s, o, c);
    SubspanExact(s, o, c);
    if |steps| > 1 {
      NestedCollapse(t, steps[1..]);
      if o >= s.length || c > s.length - o {
        assert !Fits(0, steps[1..]);
      }
    } else {
      assert steps[1..] == [] && Fits(c, []) && Nested(s, steps) == t;
    }
  }

  // The windows of a chain, its conversions left out.
  function Windows(ops: seq<Operation>): seq<(Word, Word)>
    decreases |ops|
  {
    if ops == [] then []
    else if ops[0].Window? then [(ops[0].offset, ops[0].count)] + Windows(ops[1..])
    else Windows(ops[1..])
  }

  // Conversions change nothing anywhere in a chain: it equals the nest of its windows alone.
  lemma {:induction false} ConversionsVanish(s: Span, ops: seq<Operation>)
    requires InMemory(s)
    ensures Apply(s, ops) == Nested(s, Windows(ops))
    decreases |ops|
  {
    if ops != [] {
      match ops[0]
      case Window(o, c) =>
        SubspanExact(s, o, c);
        ConversionsVanish(Subspan(s, o, c), ops[1..]);
        assert Windows(ops)[1..] == Windows(ops[1..]);
      case Convert =>
        ToConstKeeps(s);
        ConversionsVanish(s, ops[1..]);
    }
  }

  // A null pointer gives the empty span through any chain, whatever lengths are named.
  lemma {:induction false} NullStaysEmpty(length: Word, ops: seq<Operation>)
    ensures Apply(Make(0, length), ops) == EMPTY
    decreases |ops|
  {
    if ops != [] {
      NullStaysEmpty(0, ops[1..]);
    }
  }
}
