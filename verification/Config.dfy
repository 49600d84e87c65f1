/** `sysconf`, `confstr_length` and `confstr`: calls that report through errno, made inside an
    errno scope. */
module Config {
  import opened Results
  import opened ErrnoScopes
  import opened Spans
  import opened Words
  import opened Kernel

  // ----------------------------------------------------------------------------- sysconf

  // What ::sysconf does: the value returned, and what it stores in errno, if anything.
  datatype SysconfReply = SysconfReply(value: int, sets: Option<int>)

  method SysSysconf(errno: ErrnoCell, reply: SysconfReply) returns (value: int)
    modifies errno
    ensures value == reply.value
    ensures errno.value == match reply.sets case None => old(errno.value) case Some(e) => e
  {
    value := reply.value;
    if reply.sets.Some? {
      errno.value := reply.sets.value;
    }
  }

  // The caller's errno is kept and plays no part in the outcome.
  method Sysconf(errno: ErrnoCell, reply: SysconfReply) returns (r: Result<int>)
    modifies errno
    ensures errno.value == old(errno.value)
    ensures r.Value? <==> reply.value != -1 || reply.sets == None || reply.sets == Some(0)
    ensures r.Value? ==> r.value == reply.value
    ensures r.Error? ==> reply.value == -1 && reply.sets == Some(r.code) && r.code != 0
  {
    var context := new ErrnoContext(errno);
    var value := SysSysconf(errno, reply);
    if value != -1 {
      r := Value(value);
    } else if errno.value != 0 {
      r := Error(errno.value);
    } else {
      r := Value(value);
    }
    context.Destroy(errno);
  }

  // ----------------------------------------------------------------------------- confstr

  // A configuration name is unknown to the call, which then stores an errno, or known without a
  // value, or has a string value.
  datatype Setting = Unknown(errno: Errno) | Unset | Text(text: string)

  const NUL: char := '\0'

  // What ::confstr returns: the size of buffer the whole value needs.
  function Needed(s: Setting): nat {
    match s case Text(t) => |t| + 1 case _ => 0
  }

  // What it stores in a buffer of the given length: the value and its terminator, or as much of
  // the value as leaves room for a terminator.
  function Stored(s: Setting, length: nat): string {
    match s
    case Text(t) =>
      if length == 0 then "" else if |t| + 1 <= length then t + [NUL] else t[..length - 1] + [NUL]
    case _ => ""
  }

  // Memory with the bytes of s stored at an address.
  function Poke(memory: seq<char>, at: nat, s: string): seq<char>
    requires at + |s| <= |memory|
  {
    memory[..at] + s + memory[at + |s|..]
  }

  lemma PokeNext(memory: seq<char>, at: nat, s: string, c: char)
    requires at + |s| < |memory|
    ensures Poke(memory, at, s)[at + |s| := c] == Poke(memory, at, s + [c])
  {}

  method SysConfstr(errno: ErrnoCell, memory: array<char>, s: Setting, data: Word, length: Word) returns (needed: nat)
    requires data != 0 ==> data + length <= memory.Length
    modifies errno, memory
    ensures needed == Needed(s)
    ensures errno.value == if s.Unknown? then s.errno else old(errno.value)
    ensures data == 0 ==> memory[..] == old(memory[..])
    ensures data != 0 ==> memory[..] == Poke(old(memory[..]), data, Stored(s, length))
  {
    needed := Needed(s);
    if s.Unknown? {
      errno.value := s.errno;
    }
    if data != 0 {
      var stored := Stored(s, length);
      for k := 0 to |stored|
        modifies memory
        invariant memory[..] == Poke(old(memory[..]), data, stored[..k])
      {
        PokeNext(old(memory[..]), data, stored[..k], stored[k]);
        memory[data + k] := stored[k];
        assert stored[..k + 1] == stored[..k] + [stored[k]];
      }
      assert stored[..|stored|] == stored;
    }
  }

  method ConfstrLength(errno: ErrnoCell, memory: array<char>, s: Setting) returns (r: Result<nat>)
    modifies errno, memory
    ensures errno.value == old(errno.value) && memory[..] == old(memory[..])
    ensures match s
            case Unknown(e) => r == Error(e)
            case Unset => r == Value(0)
            case Text(t) => r == Value(|t| + 1)
  {
    var context := new ErrnoContext(errno);
    var length := SysConfstr(errno, memory, s, 0, 0);
    if errno.value != 0 {
      r := Error(errno.value);
    } else {
      r := Value(length);
    }
    context.Destroy(errno);
  }

  // The kernel counts the value in a size_t.
  predicate Countable(s: Setting) { Needed(s) < SPACE }

  // The span has the caller's pointer and the length the value needs, not the length stored.
  function ConfstrResult(s: Setting, buffer: Span): Result<Span>
    requires Countable(s)
  {
    if s.Unknown? then Error(s.errno) else Value(Make(buffer.data, Needed(s)))
  }

  method Confstr(errno: ErrnoCell, memory: array<char>, s: Setting, buffer: Span) returns (r: Result<Span>)
    requires buffer.data != 0 ==> buffer.data + buffer.length <= memory.Length
    requires Countable(s)
    modifies errno, memory
    ensures errno.value == old(errno.value)
    ensures r == ConfstrResult(s, buffer)
    ensures match s
            case Unknown(e) => r == Error(e) && memory[..] == old(memory[..])
            case Unset => r == Value(Span(buffer.data, 0)) && memory[..] == old(memory[..])
            case Text(t) => r == Value(if buffer.data == 0 then EMPTY else Span(buffer.data, |t| + 1))
    ensures buffer.data == 0 ==> memory[..] == old(memory[..])
    ensures buffer.data != 0 ==> memory[..] == Poke(old(memory[..]), buffer.data, Stored(s, buffer.length))
  {
    var context := new ErrnoContext(errno);
    var length := SysConfstr(errno, memory, s, buffer.data, buffer.length);
    if errno.value != 0 {
      r := Error(errno.value);
    } else {
      r := Value(Make(buffer.data, length));
    }
    context.Destroy(errno);
  }

  // The two-call protocol: the span handed back lies inside the caller's buffer iff the buffer is
  // as long as confstr_length said, and then it is the whole value with its terminator. A shorter
  // buffer holds a terminated prefix and the span runs past its end. No other byte is written.
  lemma TwoCalls(memory: seq<char>, s: Setting, buffer: Span)
    requires Countable(s) && !s.Unknown?
    requires buffer.data != 0 && buffer.data + buffer.length <= |memory|
    ensures var span := ConfstrResult(s, buffer).value;
            var after := Poke(memory, buffer.data, Stored(s, buffer.length));
            var end := buffer.data + buffer.length;
            && span.data == buffer.data
            && (s == Unset ==> Needed(s) == 0 && span.length == 0 && after == memory)
            && (Inside(span, buffer) <==> Needed(s) <= buffer.length)
            && (s.Text? && Needed(s) <= buffer.length ==>
                  after[span.data..span.data + span.length] == s.text + [NUL])
            && (s.Text? && 0 < buffer.length < Needed(s) ==>
                  after[buffer.data..end] == s.text[..buffer.length - 1] + [NUL] && span.length > buffer.length)
            && after[..buffer.data] == memory[..buffer.data] && after[end..] == memory[end..]
  {
    var stored := Stored(s, buffer.length);
    var after := Poke(memory, buffer.data, stored);
    assert |stored| <= buffer.length;
    assert after[buffer.data..buffer.data + |stored|] == stored;
  }
}
