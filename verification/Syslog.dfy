/** `syslog_priority_set`, a bit mask used as a set, and `setlogmask`, which exchanges the
    process's mask for another. */
module Syslog {
  import opened Bits

  // LOG_EMERG = 0 to LOG_DEBUG = 7.
  type Priority = p: nat | p < 8

  function Members(mask: nat): set<Priority> {
    set p: Priority | p in {0, 1, 2, 3, 4, 5, 6, 7} && HasBit(mask, p)
  }

  function With(mask: nat, p: Priority): nat { Or(mask, One(p)) }

  lemma MembersWith(mask: nat, p: Priority)
    ensures Members(With(mask, p)) == Members(mask) + {p}
  {
    forall q: Priority ensures HasBit(With(mask, p), q) <==> HasBit(mask, q) || q == p {
      OrBits(mask, One(p), q);
      OneBits(p, q);
    }
  }

  // The mask built from a list of priorities, first to last.
  function FromList(list: seq<Priority>): nat
    decreases |list|
  {
    if list == [] then 0 else With(FromList(list[..|list| - 1]), list[|list| - 1])
  }

  class PrioritySet {
    var mask: nat

    constructor (list: seq<Priority>)
      ensures mask == FromList(list)
      ensures Members(mask) == set p | p in list
    {
      mask := 0;
      new;
      for k := 0 to |list|
        invariant mask == FromList(list[..k])
      {
        Set(list[k]);
        assert list[..k + 1][..k] == list[..k];
      }
      assert list[..|list|] == list;
      ListMembers(list);
    }

    constructor FromMask(mask: nat)
      ensures this.mask == mask
    {
      this.mask := mask;
    }

    method Set(p: Priority)
      modifies this
      ensures mask == With(old(mask), p) && Members(mask) == Members(old(mask)) + {p}
    {
      mask := Or(mask, One(p));
      MembersWith(old(mask), p);
    }

    method Test(p: Priority) returns (b: bool)
      ensures b <==> p in Members(mask)
    {
      AndOne(mask, p);
      b := And(mask, One(p)) != 0;
    }
  }

  lemma {:induction false} ListBits(list: seq<Priority>, k: nat)
    ensures HasBit(FromList(list), k) <==> k < 8 && k in list
    decreases |list|
  {
    if list == [] {
      ZeroBits(k);
    } else {
      var init, p := list[..|list| - 1], list[|list| - 1];
      ListBits(init, k);
      OrBits(FromList(init), One(p), k);
      OneBits(p, k);
      assert list == init + [p];
    }
  }

  lemma ListMembers(list: seq<Priority>)
    ensures Members(FromList(list)) == set p | p in list
  {
    forall p: Priority ensures p in Members(FromList(list)) <==> p in list {
      ListBits(list, p);
    }
  }

  // Two lists build the same mask iff they name the same priorities: order and repetition do not
  // show, and nothing else is lost.
  lemma SameMaskSameSet(list: seq<Priority>, other: seq<Priority>)
    ensures FromList(list) == FromList(other) <==> forall p: Priority :: p in list <==> p in other
  {
    if FromList(list) == FromList(other) {
      forall p: Priority ensures p in list <==> p in other {
        ListBits(list, p);
        ListBits(other, p);
      }
    }
    if forall p: Priority :: p in list <==> p in other {
      forall k: nat ensures HasBit(FromList(list), k) == HasBit(FromList(other), k) {
        ListBits(list, k);
        ListBits(other, k);
      }
      SameBits(FromList(list), FromList(other));
    }
  }

  // ------------------------------------------------------------------------- setlogmask

  // POSIX: a zero mask only queries.
  function Installed(current: nat, requested: nat): nat {
    if requested == 0 then current else requested
  }

  class Log {
    var mask: nat

    constructor ()
      ensures mask == 0xFF
    {
      mask := 0xFF;
    }

    // ::setlogmask
    method SysSetLogMask(requested: nat) returns (previous: nat)
      modifies this
      ensures previous == old(mask) && mask == Installed(old(mask), requested)
    {
      previous := mask;
      if requested != 0 {
        mask := requested;
      }
    }

    method SetLogMask(priorities: PrioritySet) returns (previous: PrioritySet)
      modifies this
      ensures fresh(previous) && previous.mask == old(mask)
      ensures mask == Installed(old(mask), priorities.mask)
    {
      var m := SysSetLogMask(priorities.mask);
      previous := new PrioritySet.FromMask(m);
    }
  }

  // The masks returned by a sequence of calls, and the mask in force after it.
  function Exchange(current: nat, requests: seq<nat>): (seq<nat>, nat)
    decreases |requests|
  {
    if requests == [] then ([], current)
    else
      var (returned, last) := Exchange(Installed(current, requests[0]), requests[1..]);
      ([current] + returned, last)
  }

  // The mask in force by its history: the last non-empty request, or the initial one.
  function InForce(initial: nat, requests: seq<nat>): nat
    decreases |requests|
  {
    if requests == [] then initial
    else if requests[|requests| - 1] != 0 then requests[|requests| - 1]
    else InForce(initial, requests[..|requests| - 1])
  }

  lemma {:induction false} InForceFront(initial: nat, requests: seq<nat>)
    requires requests != []
    ensures InForce(initial, requests) == InForce(Installed(initial, requests[0]), requests[1..])
    decreases |requests|
  {
    var init := requests[..|requests| - 1];
    if |requests| > 1 {
      InForceFront(initial, init);
      assert init[1..] == requests[1..][..|requests| - 2];
    }
  }

  // Each call returns the mask that was in force before it.
  lemma {:induction false} ExchangeReturns(initial: nat, requests: seq<nat>)
    ensures var (returned, last) := Exchange(initial, requests);
            && |returned| == |requests|
            && last == InForce(initial, requests)
            && forall k :: 0 <= k < |returned| ==> returned[k] == InForce(initial, requests[..k])
    decreases |requests|
  {
    if requests != [] {
      var next, rest := Installed(initial, requests[0]), requests[1..];
      ExchangeReturns(next, rest);
      InForceFront(initial, requests);
      var (returned, last) := Exchange(initial, requests);
      forall k | 0 < k < |returned| ensures returned[k] == InForce(initial, requests[..k]) {
        InForceFront(initial, requests[..k]);
        assert requests[..k][1..] == rest[..k - 1];
        assert returned[k] == Exchange(next, rest).0[k - 1];
      }
    }
  }

  // From a non-empty mask, no call ever returns an empty one, so installing what the k-th call
  // returned puts logging back to what it was before that call, whatever was installed since.
  lemma ReinstallRestores(initial: nat, requests: seq<nat>, k: nat)
    requires initial != 0 && k < |requests|
    ensures var returned := Exchange(initial, requests).0;
            k < |returned| && returned[k] != 0 &&
            Exchange(initial, requests + [returned[k]]).1 == Exchange(initial, requests[..k]).1
  {
    ExchangeReturns(initial, requests);
    var returned := Exchange(initial, requests).0;
    ExchangeReturns(initial, requests[..k]);
    ExchangeReturns(initial, requests + [returned[k]]);
    InForceNonEmpty(initial, requests[..k]);
  }

  lemma {:induction false} InForceNonEmpty(initial: nat, requests: seq<nat>)
    requires initial != 0
    ensures InForce(initial, requests) != 0
    decreases |requests|
  {
    if requests != [] {
      InForceNonEmpty(initial, requests[..|requests| - 1]);
    }
  }
}
