/** Reading a chain of slots byte by byte, as `fbuf_getChar` moves the read position. */
module FbufReading {
  import opened FbufChains

  /** The read position after the one at byte `at.1` of slot `at.0`. */
  function NextRead(p: Slots, at: (nat, nat)): (nat, nat)
    requires at.0 < |p|
  {
    if at.1 == p[at.0].length - 1 then (p[at.0].next, 0) else (at.0, at.1 + 1)
  }

  /** The position after `n` reads, or where the slots end. */
  function ReadOn(p: Slots, at: (nat, nat), n: nat): (nat, nat) {
    if n == 0 then at
    else
      var r := ReadOn(p, at, n - 1);
      if r.0 < |p| then NextRead(p, r) else r
  }

  /** From the start of the buffer its end is reached. */
  ghost predicate ReadsToEnd(p: Slots, c: Chain) {
    exists n: nat :: ReadOn(p, (Head(c), 0), n).0 == NIL
  }

  lemma {:induction false} ReadOnAgain(p: Slots, at: (nat, nat), m: nat, n: nat)
    ensures ReadOn(p, ReadOn(p, at, m), n) == ReadOn(p, at, m + n)
  {
    if n > 0 {
      ReadOnAgain(p, at, m, n - 1);
    }
  }

  lemma {:induction false} StaysInSlot(p: Slots, s: nat, n: nat)
    requires s < |p| && (p[s].length == 0 || n < p[s].length)
    ensures ReadOn(p, (s, 0), n) == (s, n)
  {
    if n > 0 {
      StaysInSlot(p, s, n - 1);
    }
  }

  lemma LeavesSlot(p: Slots, s: nat)
    requires s < |p| && p[s].length > 0
    ensures ReadOn(p, (s, 0), p[s].length) == (p[s].next, 0)
  {
    StaysInSlot(p, s, p[s].length - 1);
  }

  /** Through slots that are not empty, from place `j` of the chain to place `k`. */
  lemma {:induction false} ReachesPlace(p: Slots, c: Chain, j: nat, k: nat) returns (n: nat)
    requires Linked(p, c) && j < |c| && j <= k <= |c|
    requires forall i :: j <= i < k ==> c[i] < |p| && p[c[i]].length > 0
    ensures ReadOn(p, (c[j], 0), n) == (if k < |c| then c[k] else NIL, 0)
    decreases k - j
  {
    n := 0;
    if j < k {
      assert p[c[j]].next == Next(c, j);
      LeavesSlot(p, c[j]);
      n := p[c[j]].length;
      if j + 1 < |c| {
        var m := ReachesPlace(p, c, j + 1, k);
        ReadOnAgain(p, (c[j], 0), n, m);
        n := n + m;
      }
    }
  }

  lemma {:induction false} StaysAtEnd(p: Slots, at: (nat, nat), n: nat)
    requires at.0 >= |p|
    ensures ReadOn(p, at, n) == at
  {
    if n > 0 {
      StaysAtEnd(p, at, n - 1);
    }
  }

  /** A buffer can be read to its end if and only if none of its slots is empty. */
  lemma ReadsToEndIff(p: Slots, c: Chain)
    requires |p| <= NIL && Linked(p, c)
    ensures ReadsToEnd(p, c) <==> forall i :: 0 <= i < |c| ==> c[i] < |p| && p[c[i]].length > 0
  {
    if c == [] {
      assert ReadOn(p, (Head(c), 0), 0).0 == NIL;
    } else if forall i :: 0 <= i < |c| ==> c[i] < |p| && p[c[i]].length > 0 {
      var n := ReachesPlace(p, c, 0, |c|);
      assert ReadOn(p, (Head(c), 0), n).0 == NIL;
    } else {
      var j := FirstEmpty(p, c);
      var m := ReachesPlace(p, c, 0, j);
      NeverLeaves(p, c[0], c[j], m);
    }
  }

  lemma NeverLeaves(p: Slots, first: nat, s: nat, m: nat)
    requires |p| <= NIL && s < |p| && p[s].length == 0 && ReadOn(p, (first, 0), m) == (s, 0)
    ensures forall n: nat :: ReadOn(p, (first, 0), n).0 != NIL
  {
    forall n: nat ensures ReadOn(p, (first, 0), n).0 != NIL {
      if n >= m {
        ReadOnAgain(p, (first, 0), m, n - m);
        StaysInSlot(p, s, n - m);
      } else if ReadOn(p, (first, 0), n).0 == NIL {
        ReadOnAgain(p, (first, 0), n, m - n);
        StaysAtEnd(p, ReadOn(p, (first, 0), n), m - n);
      }
    }
  }

  lemma FirstEmpty(p: Slots, c: Chain) returns (j: nat)
    requires Linked(p, c) && exists i :: 0 <= i < |c| && !(c[i] < |p| && p[c[i]].length > 0)
    ensures j < |c| && c[j] < |p| && p[c[j]].length == 0
    ensures forall i :: 0 <= i < j ==> c[i] < |p| && p[c[i]].length > 0
  {
    j := 0;
    while p[c[j]].length > 0
      invariant j < |c| && forall i :: 0 <= i < j ==> c[i] < |p| && p[c[i]].length > 0
      invariant c[j] < |p|
      decreases |c| - j
    {
      j := j + 1;
    }
  }

  ghost predicate AllOk(p: Slots, c: Chain) {
    forall s :: s in c ==> s < |p| && p[s].Ok()
  }

  lemma ReadableIff(p: Slots, c: Chain)
    requires |p| <= NIL && Linked(p, c) && AllOk(p, c)
    ensures ReadsToEnd(p, c) <==> NoneEmpty(Parts(p, c))
  {
    ReadsToEndIff(p, c);
    hide ReadsToEnd, Linked;
    assert forall i :: 0 <= i < |c| ==> c[i] in c && |Parts(p, c)[i]| == p[c[i]].length;
  }
}
