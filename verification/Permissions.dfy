/** Permission literals: `"rwx"_user | "rx"_group | "r"_other`. */
module Permissions {
  import opened Results
  import opened Bits

  datatype Letter = Read | Write | Execute

  // The literal operators _user, _group and _other.
  datatype Who = User | Group | Other

  // The permission char_to_permission is instantiated with for a letter (S_IRUSR and so on).
  function Bit(w: Who, l: Letter): nat {
    match (w, l)
    case (User, Read) => 0x100
    case (User, Write) => 0x80
    case (User, Execute) => 0x40
    case (Group, Read) => 0x20
    case (Group, Write) => 0x10
    case (Group, Execute) => 0x8
    case (Other, Read) => 0x4
    case (Other, Write) => 0x2
    case (Other, Execute) => 0x1
  }

  function LetterOf(c: char): Option<Letter> {
    if c == 'R' || c == 'r' then Some(Read)
    else if c == 'W' || c == 'w' then Some(Write)
    else if c == 'X' || c == 'x' then Some(Execute)
    else None
  }

  function CharToPermission(w: Who, c: char): nat {
    match LetterOf(c) case None => 0 case Some(l) => Bit(w, l)
  }

  // The literal's value: the OR over its characters.
  function Literal(w: Who, s: string): nat
    decreases |s|
  {
    if s == [] then 0 else Or(Literal(w, s[..|s| - 1]), CharToPermission(w, s[|s| - 1]))
  }

  method StrToPermission(w: Who, s: string) returns (p: nat)
    ensures p == Literal(w, s)
    ensures forall l: Letter :: HasBit(p, Position(w, l)) <==> l in Letters(s)
  {
    p := 0;
    for k := 0 to |s|
      invariant p == Literal(w, s[..k])
    {
      p := Or(p, CharToPermission(w, s[k]));
      assert s[..k + 1][..k] == s[..k];
    }
    assert s[..|s|] == s;
    forall l: Letter ensures HasBit(p, Position(w, l)) <==> l in Letters(s) {
      LiteralBits(w, s, Position(w, l));
      PositionsDistinct(w, l);
    }
  }

  // ----------------------------------------------------------------- the literal as a set

  // The recognised letters of a string.
  function Letters(s: string): set<Letter> {
    set c | c in s && LetterOf(c).Some? :: LetterOf(c).value
  }

  // Which of the nine bits a permission is.
  function Position(w: Who, l: Letter): nat {
    (match w case User => 6 case Group => 3 case Other => 0) +
    (match l case Read => 2 case Write => 1 case Execute => 0)
  }

  lemma BitIsOne(w: Who, l: Letter)
    ensures Bit(w, l) == One(Position(w, l))
  {
    assert One(2) == 4 && One(4) == 16 && One(6) == 64 && One(8) == 256;
    match (w, l)
    case (User, _) =>
    case (Group, _) =>
    case (Other, _) =>
  }

  lemma PositionsDistinct(w: Who, l: Letter)
    ensures forall w', l' :: Position(w', l') == Position(w, l) ==> w' == w && l' == l
  {}

  // Bit k belongs to one of these letters.
  ghost predicate Among(w: Who, ls: set<Letter>, k: nat) {
    exists l :: l in ls && Position(w, l) == k
  }

  // The bits of a literal are those of the recognised letters in it, and no others.
  lemma {:induction false} LiteralBits(w: Who, s: string, k: nat)
    ensures HasBit(Literal(w, s), k) <==> Among(w, Letters(s), k)
    decreases |s|
  {
    if s == [] {
      ZeroBits(k);
    } else {
      var init, c := s[..|s| - 1], s[|s| - 1];
      LiteralBits(w, init, k);
      OrBits(Literal(w, init), CharToPermission(w, c), k);
      assert s == init + [c];
      LettersSnoc(init, c);
      match LetterOf(c)
      case None => ZeroBits(k);
      case Some(l) =>
        BitIsOne(w, l);
        OneBits(Position(w, l), k);
    }
  }

  lemma LettersSnoc(s: string, c: char)
    ensures Letters(s + [c]) == Letters(s) + (match LetterOf(c) case None => {} case Some(l) => {l})
  {
    assert c in s + [c];
    forall d | d in s ensures d in s + [c] {}
  }

  // Over characters, with the POSIX bits spelled out: r, w and x of either case give user bits 8, 7
  // and 6, group bits 5, 4 and 3, other bits 2, 1 and 0, and no character gives any further bit.
  lemma LiteralCharacters(w: Who, s: string, k: nat)
    ensures HasBit(Literal(w, s), k) <==>
            var low := match w case User => 6 case Group => 3 case Other => 0;
            (k == low + 2 && ('R' in s || 'r' in s)) ||
            (k == low + 1 && ('W' in s || 'w' in s)) ||
            (k == low && ('X' in s || 'x' in s))
  {
    LiteralBits(w, s, k);
    LettersAre(s);
  }

  lemma LettersAre(s: string)
    ensures Read in Letters(s) <==> 'R' in s || 'r' in s
    ensures Write in Letters(s) <==> 'W' in s || 'w' in s
    ensures Execute in Letters(s) <==> 'X' in s || 'x' in s
  {
    assert LetterOf('R') == LetterOf('r') == Some(Read);
    assert LetterOf('W') == LetterOf('w') == Some(Write);
    assert LetterOf('X') == LetterOf('x') == Some(Execute);
  }

  predicate IsLetter(c: char) { c in "RrWwXx" }

  predicate OtherCase(c: char, d: char) {
    (c, d) in {('R', 'r'), ('r', 'R'), ('W', 'w'), ('w', 'W'), ('X', 'x'), ('x', 'X')}
  }

  function OnlyLetters(s: string): string
    decreases |s|
  {
    if s == [] then [] else if IsLetter(s[0]) then [s[0]] + OnlyLetters(s[1..]) else OnlyLetters(s[1..])
  }

  lemma {:induction false} OnlyLettersKeeps(s: string, c: char)
    ensures c in OnlyLetters(s) <==> c in s && IsLetter(c)
    decreases |s|
  {
    if s != [] {
      OnlyLettersKeeps(s[1..], c);
    }
  }

  // Changing the case of one letter, whichever, leaves the value as it is.
  lemma CaseIgnored(w: Who, s: string, k: nat, c: char)
    requires k < |s| && OtherCase(s[k], c)
    ensures Literal(w, s[k := c]) == Literal(w, s)
  {
    var t := s[k := c];
    forall d, e | OtherCase(d, e) ensures d in s || e in s <==> d in t || e in t {
      CaseOccurs(s, k, c, d, e);
    }
    assert OtherCase('R', 'r') && OtherCase('W', 'w') && OtherCase('X', 'x');
    SameCharacters(w, s, t);
  }

  lemma CaseOccurs(s: string, k: nat, c: char, d: char, e: char)
    requires k < |s| && OtherCase(s[k], c) && OtherCase(d, e)
    ensures d in s || e in s <==> d in s[k := c] || e in s[k := c]
  {
    var t := s[k := c];
    assert s[k] in s && t[k] in t;
    if j: nat :| j < |s| && (s[j] == d || s[j] == e) {
      assert t[j] in t;
    }
    if j: nat :| j < |t| && (t[j] == d || t[j] == e) {
      assert s[j] in s;
    }
  }

  // Deleting every character that is no letter leaves the value as it is.
  lemma OthersIgnored(w: Who, s: string)
    ensures Literal(w, OnlyLetters(s)) == Literal(w, s)
  {
    forall c | IsLetter(c) ensures c in OnlyLetters(s) <==> c in s {
      OnlyLettersKeeps(s, c);
    }
    assert IsLetter('R') && IsLetter('r') && IsLetter('W') && IsLetter('w') && IsLetter('X') && IsLetter('x');
    SameCharacters(w, OnlyLetters(s), s);
  }

  lemma SameCharacters(w: Who, s: string, t: string)
    requires 'R' in s || 'r' in s <==> 'R' in t || 'r' in t
    requires 'W' in s || 'w' in s <==> 'W' in t || 'w' in t
    requires 'X' in s || 'x' in s <==> 'X' in t || 'x' in t
    ensures Literal(w, s) == Literal(w, t)
  {
    forall k: nat ensures HasBit(Literal(w, s), k) == HasBit(Literal(w, t), k) {
      LiteralCharacters(w, s, k);
      LiteralCharacters(w, t, k);
    }
    SameBits(Literal(w, s), Literal(w, t));
  }

  // So the value depends only on which letters occur: order, repetition, case and characters that
  // are no letter do not matter. And it determines them.
  lemma LiteralIsLetters(w: Who, s: string, t: string)
    ensures Literal(w, s) == Literal(w, t) <==> Letters(s) == Letters(t)
  {
    if Letters(s) == Letters(t) {
      forall k: nat ensures HasBit(Literal(w, s), k) == HasBit(Literal(w, t), k) {
        LiteralBits(w, s, k);
        LiteralBits(w, t, k);
      }
      SameBits(Literal(w, s), Literal(w, t));
    }
    if Literal(w, s) == Literal(w, t) {
      forall l: Letter ensures l in Letters(s) <==> l in Letters(t) {
        LiteralBits(w, s, Position(w, l));
        LiteralBits(w, t, Position(w, l));
        PositionsDistinct(w, l);
      }
    }
  }

  lemma ConcatIsOr(w: Who, s: string, t: string)
    ensures Literal(w, s + t) == Or(Literal(w, s), Literal(w, t))
  {
    assert Letters(s + t) == Letters(s) + Letters(t);
    forall k: nat ensures HasBit(Literal(w, s + t), k) == HasBit(Or(Literal(w, s), Literal(w, t)), k) {
      LiteralBits(w, s, k);
      LiteralBits(w, t, k);
      LiteralBits(w, s + t, k);
      OrBits(Literal(w, s), Literal(w, t), k);
    }
    SameBits(Literal(w, s + t), Or(Literal(w, s), Literal(w, t)));
  }

  // ------------------------------------------------------------ three literals in one mode

  function Combined(user: string, group: string, other: string): nat {
    Or(Or(Literal(User, user), Literal(Group, group)), Literal(Other, other))
  }

  lemma CombinedBits(u: string, g: string, o: string, k: nat)
    ensures HasBit(Combined(u, g, o), k) <==>
            Among(User, Letters(u), k) || Among(Group, Letters(g), k) || Among(Other, Letters(o), k)
  {
    OrBits(Or(Literal(User, u), Literal(Group, g)), Literal(Other, o), k);
    OrBits(Literal(User, u), Literal(Group, g), k);
    LiteralBits(User, u, k);
    LiteralBits(Group, g, k);
    LiteralBits(Other, o, k);
  }

  lemma CombinedHas(u: string, g: string, o: string, l: Letter)
    ensures HasBit(Combined(u, g, o), Position(User, l)) <==> l in Letters(u)
    ensures HasBit(Combined(u, g, o), Position(Group, l)) <==> l in Letters(g)
    ensures HasBit(Combined(u, g, o), Position(Other, l)) <==> l in Letters(o)
  {
    CombinedBits(u, g, o, Position(User, l));
    CombinedBits(u, g, o, Position(Group, l));
    CombinedBits(u, g, o, Position(Other, l));
    PositionsDistinct(User, l);
    PositionsDistinct(Group, l);
    PositionsDistinct(Other, l);
  }

  // The mode determines the three letter sets, and depends on nothing else.
  lemma CombinedDetermines(u: string, g: string, o: string, u': string, g': string, o': string)
    ensures Combined(u, g, o) == Combined(u', g', o') <==>
            Letters(u) == Letters(u') && Letters(g) == Letters(g') && Letters(o) == Letters(o')
  {
    if Combined(u, g, o) == Combined(u', g', o') {
      forall l: Letter
        ensures (l in Letters(u) <==> l in Letters(u')) && (l in Letters(g) <==> l in Letters(g')) &&
                (l in Letters(o) <==> l in Letters(o'))
      {
        CombinedHas(u, g, o, l);
        CombinedHas(u', g', o', l);
      }
    } else {
      LiteralIsLetters(User, u, u');
      LiteralIsLetters(Group, g, g');
      LiteralIsLetters(Other, o, o');
    }
  }

  // One class of a mode as the usual three characters.
  function Print(w: Who, m: nat): string {
    [if And(m, Bit(w, Read)) != 0 then 'r' else '-',
     if And(m, Bit(w, Write)) != 0 then 'w' else '-',
     if And(m, Bit(w, Execute)) != 0 then 'x' else '-']
  }

  lemma PrintLetters(w: Who, m: nat, l: Letter)
    ensures l in Letters(Print(w, m)) <==> HasBit(m, Position(w, l))
  {
    BitIsOne(w, l);
    AndOne(m, Position(w, l));
    var s := Print(w, m);
    assert s[0] in s && s[1] in s && s[2] in s;
    match l
    case Read =>
    case Write =>
    case Execute =>
  }

  // Printing any nine permission bits and reading the three strings back gives the same bits.
  lemma PrintRoundTrip(m: nat)
    requires m < 0x200
    ensures Combined(Print(User, m), Print(Group, m), Print(Other, m)) == m
  {
    var c := Combined(Print(User, m), Print(Group, m), Print(Other, m));
    forall k: nat ensures HasBit(c, k) == HasBit(m, k) {
      CombinedBits(Print(User, m), Print(Group, m), Print(Other, m), k);
      forall w: Who ensures Among(w, Letters(Print(w, m)), k) <==> HasBit(m, k) && exists l :: Position(w, l) == k {
        forall l: Letter { PrintLetters(w, m, l); }
      }
      if k >= 9 {
        assert One(9) == 0x200;
        HighBits(m, 9, k);
      } else {
        PositionOf(k);
      }
    }
    SameBits(c, m);
  }

  lemma PositionOf(k: nat)
    requires k < 9
    ensures exists w, l :: Position(w, l) == k
  {
    var w := if k >= 6 then User else if k >= 3 then Group else Other;
    var l := if k % 3 == 2 then Read else if k % 3 == 1 then Write else Execute;
    assert Position(w, l) == k;
  }
}
