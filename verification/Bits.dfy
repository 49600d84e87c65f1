/** Unsigned integers bit by bit: the operators `|`, `&` and `1 << k`, and what they do to the set
    of one bits. */
module Bits {

  function Or(m: nat, n: nat): nat
    decreases m + n
  {
    if m == 0 then n else if n == 0 then m
    else 2 * Or(m / 2, n / 2) + (if m % 2 == 1 || n % 2 == 1 then 1 else 0)
  }

  function And(m: nat, n: nat): nat
    decreases m + n
  {
    if m == 0 || n == 0 then 0
    else 2 * And(m / 2, n / 2) + (if m % 2 == 1 && n % 2 == 1 then 1 else 0)
  }

  // 1 << k
  function One(k: nat): nat {
    if k == 0 then 1 else 2 * One(k - 1)
  }

  predicate HasBit(m: nat, k: nat)
    decreases k
  {
    if k == 0 then m % 2 == 1 else HasBit(m / 2, k - 1)
  }

  lemma {:induction false} ZeroBits(k: nat)
    ensures !HasBit(0, k)
    decreases k
  {
    if k > 0 { ZeroBits(k - 1); }
  }

  lemma {:induction false} OrBits(m: nat, n: nat, k: nat)
    ensures HasBit(Or(m, n), k) <==> HasBit(m, k) || HasBit(n, k)
    decreases k
  {
    ZeroBits(k);
    if k > 0 && m > 0 && n > 0 {
      OrBits(m / 2, n / 2, k - 1);
      assert Or(m, n) / 2 == Or(m / 2, n / 2);
    }
  }

  lemma {:induction false} AndBits(m: nat, n: nat, k: nat)
    ensures HasBit(And(m, n), k) <==> HasBit(m, k) && HasBit(n, k)
    decreases k
  {
    ZeroBits(k);
    if k > 0 && m > 0 && n > 0 {
      AndBits(m / 2, n / 2, k - 1);
      assert And(m, n) / 2 == And(m / 2, n / 2);
    }
  }

  lemma {:induction false} OneBits(k: nat, j: nat)
    ensures HasBit(One(k), j) <==> j == k
    decreases k
  {
    if k == 0 {
      if j > 0 { ZeroBits(j - 1); }
    } else {
      assert One(k) / 2 == One(k - 1) && One(k) % 2 == 0;
      if j > 0 { OneBits(k - 1, j - 1); }
    }
  }

  // Numbers with the same bits are equal.
  lemma {:induction false} SameBits(m: nat, n: nat)
    requires forall k: nat :: HasBit(m, k) == HasBit(n, k)
    ensures m == n
    decreases m + n
  {
    assert HasBit(m, 0) == HasBit(n, 0);
    if m > 0 || n > 0 {
      forall k: nat ensures HasBit(m / 2, k) == HasBit(n / 2, k) {
        assert HasBit(m, k + 1) == HasBit(n, k + 1);
      }
      SameBits(m / 2, n / 2);
    }
  }

  // Testing with a one-bit mask.
  lemma AndOne(m: nat, k: nat)
    ensures And(m, One(k)) != 0 <==> HasBit(m, k)
  {
    AndBits(m, One(k), k);
    OneBits(k, k);
    ZeroBits(k);
    if !HasBit(m, k) {
      forall j: nat ensures HasBit(And(m, One(k)), j) == HasBit(0, j) {
        AndBits(m, One(k), j);
        OneBits(k, j);
        ZeroBits(j);
      }
      SameBits(And(m, One(k)), 0);
    }
  }

  lemma {:induction false} HighBits(m: nat, n: nat, k: nat)
    requires m < One(n) && n <= k
    ensures !HasBit(m, k)
    decreases n
  {
    if n == 0 {
      ZeroBits(k);
    } else {
      assert m / 2 < One(n - 1);
      HighBits(m / 2, n - 1, k - 1);
    }
  }
}
