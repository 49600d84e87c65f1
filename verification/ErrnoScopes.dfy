/** errno and `errno_context`: scopes that save it, zero it and put it back. */
module ErrnoScopes {

  // The thread's errno.
  class ErrnoCell {
    var value: int

    constructor (value: int)
      ensures this.value == value
    {
      this.value := value;
    }
  }

  class ErrnoContext {
    const saved: int

    constructor (errno: ErrnoCell)
      modifies errno
      ensures saved == old(errno.value) && errno.value == 0
    {
      saved := errno.value;
      new;
      errno.value := 0;
    }

    method Restore(errno: ErrnoCell)
      modifies errno
      ensures errno.value == saved
    {
      errno.value := saved;
    }

    method Destroy(errno: ErrnoCell)
      modifies errno
      ensures errno.value == saved
    {
      Restore(errno);
    }
  }

  // What code inside and around scopes does to errno: enter a scope, leave the innermost one,
  // call `restore` on the d-th enclosing context, or run anything that writes errno.
  datatype Instruction = Enter | Leave | Restore(d: nat) | Write(value: int)

  // errno, and the values the open contexts saved, innermost first.
  datatype Scopes = Scopes(errno: int, saved: seq<int>)

  function Do(s: Scopes, i: Instruction): Scopes {
    match i
    case Enter => Scopes(0, [s.errno] + s.saved)
    case Leave => if s.saved == [] then s else Scopes(s.saved[0], s.saved[1..])
    case Restore(d) => if d < |s.saved| then s.(errno := s.saved[d]) else s
    case Write(v) => s.(errno := v)
  }

  function DoAll(s: Scopes, code: seq<Instruction>): Scopes
    decreases |code|
  {
    if code == [] then s else DoAll(Do(s, code[0]), code[1..])
  }

  // Starting inside `open` scopes of its own, the code leaves no scope it did not enter, and ends
  // with `left` scopes still open.
  predicate Nested(code: seq<Instruction>, open: nat, left: nat)
    decreases |code|
  {
    if code == [] then open == left
    else
      match code[0]
      case Enter => Nested(code[1..], open + 1, left)
      case Leave => open > 0 && Nested(code[1..], open - 1, left)
      case _ => Nested(code[1..], open, left)
  }

  // Leaves every scope it enters.
  predicate WellNested(code: seq<Instruction>) { Nested(code, 0, 0) }

  // Code never touches the contexts that were open around it.
  lemma {:induction false} SurroundingsKept(
    s: Scopes, code: seq<Instruction>, inner: seq<int>, outer: seq<int>, left: nat
  )
    requires s.saved == inner + outer && Nested(code, |inner|, left)
    ensures |DoAll(s, code).saved| == left + |outer| && DoAll(s, code).saved[left..] == outer
    decreases |code|
  {
    if code == [] {
    } else {
      match code[0]
      case Enter =>
        assert Do(s, Enter).saved == ([s.errno] + inner) + outer;
        SurroundingsKept(Do(s, Enter), code[1..], [s.errno] + inner, outer, left);
      case Leave =>
        assert Do(s, Leave).saved == inner[1..] + outer;
        SurroundingsKept(Do(s, Leave), code[1..], inner[1..], outer, left);
      case _ =>
        SurroundingsKept(Do(s, code[0]), code[1..], inner, outer, left);
    }
  }

  lemma {:induction false} DoAllConcat(s: Scopes, first: seq<Instruction>, second: seq<Instruction>)
    ensures DoAll(s, first + second) == DoAll(DoAll(s, first), second)
    decreases |first|
  {
    if first == [] {
      assert first + second == second;
    } else {
      assert (first + second)[1..] == first[1..] + second;
      DoAllConcat(Do(s, first[0]), first[1..], second);
    }
  }

  // Wherever a scope is entered, whatever well-nested code its body is, and whatever code ran
  // before: the body starts with errno zero, and leaving it puts errno and the enclosing scopes
  // back as they were just before.
  lemma ScopeRestores(s: Scopes, before: seq<Instruction>, body: seq<Instruction>)
    requires WellNested(body)
    ensures DoAll(s, before + [Enter]).errno == 0
    ensures DoAll(s, before + [Enter] + body + [Leave]) == DoAll(s, before)
  {
    var at := DoAll(s, before);
    var entered := Do(at, Enter);
    DoAllConcat(s, before, [Enter]);
    assert DoAll(at, [Enter]) == DoAll(entered, []);
    DoAllConcat(s, before + [Enter], body);
    SurroundingsKept(entered, body, [], entered.saved, 0);
    assert DoAll(entered, body).saved == entered.saved;
    DoAllConcat(s, before + [Enter] + body, [Leave]);
    var finished := DoAll(entered, body);
    assert DoAll(finished, [Leave]) == DoAll(Do(finished, Leave), []);
    assert entered.saved[1..] == at.saved;
  }

  // Restoring a scope from inside it, with any number of scopes entered since still open, gives
  // errno the value it had just before that scope was entered, and leaves all scopes open.
  lemma RestoreInside(s: Scopes, before: seq<Instruction>, body: seq<Instruction>, depth: nat)
    requires Nested(body, 0, depth)
    ensures var inside := DoAll(s, before + [Enter] + body);
            DoAll(s, before + [Enter] + body + [Restore(depth)]) == Scopes(DoAll(s, before).errno, inside.saved)
  {
    var at := DoAll(s, before);
    var entered := Do(at, Enter);
    DoAllConcat(s, before, [Enter]);
    assert DoAll(at, [Enter]) == DoAll(entered, []);
    DoAllConcat(s, before + [Enter], body);
    SurroundingsKept(entered, body, [], entered.saved, depth);
    var inside := DoAll(entered, body);
    assert inside.saved[depth] == inside.saved[depth..][0] == at.errno;
    DoAllConcat(s, before + [Enter] + body, [Restore(depth)]);
    assert DoAll(inside, [Restore(depth)]) == DoAll(Do(inside, Restore(depth)), []);
  }

  // The same instructions on context objects.
  class Thread {
    const errno: ErrnoCell
    var contexts: seq<ErrnoContext>

    constructor (errno: ErrnoCell)
      ensures this.errno == errno && contexts == []
    {
      this.errno := errno;
      contexts := [];
    }

    ghost function State(): Scopes
      reads this, errno
    {
      Scopes(errno.value, seq(|contexts|, k requires 0 <= k < |contexts| reads this => contexts[k].saved))
    }

    method Run(code: seq<Instruction>)
      modifies this, errno
      ensures State() == DoAll(old(State()), code)
    {
      for n := 0 to |code|
        invariant DoAll(State(), code[n..]) == DoAll(old(State()), code)
      {
        ghost var was := State();
        match code[n] {
          case Enter =>
            var context := new ErrnoContext(errno);
            contexts := [context] + contexts;
          case Leave =>
            if contexts != [] {
              contexts[0].Destroy(errno);
              contexts := contexts[1..];
            }
          case Restore(d) =>
            if d < |contexts| {
              contexts[d].Restore(errno);
            }
          case Write(v) =>
            errno.value := v;
        }
        assert State() == Do(was, code[n]);
        assert code[n..][0] == code[n] && code[n..][1..] == code[n + 1..];
      }
    }
  }
}
