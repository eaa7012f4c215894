/** Where `fbuf_connect` cuts a buffer, and when what it leaves can be read. */
module FbufCuts {
  import opened FbufChains
  import opened FbufReading

  /** No slot holds more than it can. */
  predicate Small(l: seq<Part>) {
    forall i :: 0 <= i < |l| ==> |l[i]| <= SLOT_SIZE
  }

  lemma FlatCons(l: seq<Part>)
    requires l != []
    ensures Flat(l) == l[0] + Flat(l[1..])
  {
  }

  lemma FlatTake(l: seq<Part>, j: nat)
    requires j < |l|
    ensures Flat(l[..j + 1]) == Flat(l[..j]) + l[j]
  {
    hide Flat;
    assert l[..j + 1] == l[..j] + [l[j]];
    FlatConcat(l[..j], [l[j]]);
    FlatOne(l[j]);
  }

  lemma FlatDrop(l: seq<Part>, j: nat)
    requires j <= |l|
    ensures Flat(l) == Flat(l[..j]) + Flat(l[j..])
  {
    hide Flat;
    assert l == l[..j] + l[j..];
    FlatConcat(l[..j], l[j..]);
  }

  /** The walk to a position: the slot where it ends, and the position in it. Position 0 is
      the end of that slot. */
  function Walk(l: seq<Part>, pos: nat): (w: (nat, nat))
    requires 0 < pos <= |Flat(l)| && Small(l)
    ensures w.0 < |l| && w.1 < SLOT_SIZE
    decreases |l|
  {
    if pos < SLOT_SIZE then (0, pos)
    else if pos == |l[0]| then (0, 0)
    else
      assert l[1..] == l[1..] && |Flat(l)| == |l[0]| + |Flat(l[1..])|;
      var w := Walk(l[1..], pos - |l[0]|);
      (w.0 + 1, w.1)
  }

  /** Where that is in what the buffer holds. */
  lemma {:induction false} WalkIsAt(l: seq<Part>, pos: nat)
    requires 0 < pos <= |Flat(l)| && Small(l)
    ensures var (j, r) := Walk(l, pos);
            pos == if r == 0 then |Flat(l[..j + 1])| else |Flat(l[..j])| + r
    decreases |l|
  {
    if pos < SLOT_SIZE {
      assert l[..0] == [];
    } else if pos == |l[0]| {
      assert l[..1] == [l[0]];
      FlatOne(l[0]);
    } else {
      var (j, r) := Walk(l, pos);
      WalkIsAt(l[1..], pos - |l[0]|);
      TakeFromTail(l, j);
      TakeFromTail(l, j + 1);
    }
  }

  lemma TakeFromTail(l: seq<Part>, j: nat)
    requires 0 < j <= |l|
    ensures |Flat(l[..j])| == |l[0]| + |Flat(l[1..][..j - 1])|
  {
    assert l[..j][0] == l[0] && l[..j][1..] == l[1..][..j - 1];
    FlatCons(l[..j]);
  }

  /** The cut is inside the bytes of its slot, or at the end of a slot that is walked past. */
  predicate CutFits(l: seq<Part>, pos: nat)
    requires 0 < pos <= |Flat(l)| && Small(l)
  {
    var (j, r) := Walk(l, pos); r <= |l[j]|
  }

  predicate CutIsClean(l: seq<Part>, pos: nat)
    requires 0 < pos <= |Flat(l)| && Small(l)
  {
    var (j, r) := Walk(l, pos); r == 0 || r < |l[j]|
  }

  /** The parts after the cut. */
  function CutParts(l: seq<Part>, pos: nat): (r: seq<Part>)
    requires 0 < pos <= |Flat(l)| && Small(l) && CutFits(l, pos)
    ensures |r| > Walk(l, pos).0
  {
    var (j, r) := Walk(l, pos); if r == 0 then l else InTwo(l, j, r)
  }

  /** The part that starts at the cut, and what follows. */
  function CutTail(l: seq<Part>, pos: nat): seq<Part>
    requires 0 < pos <= |Flat(l)| && Small(l) && CutFits(l, pos)
  {
    CutParts(l, pos)[Walk(l, pos).0 + 1..]
  }

  lemma CutHolds(l: seq<Part>, pos: nat)
    requires 0 < pos <= |Flat(l)| && Small(l) && CutFits(l, pos)
    ensures Flat(CutParts(l, pos)) == Flat(l) && Flat(CutTail(l, pos)) == Flat(l)[pos..]
  {
    var (j, r) := Walk(l, pos);
    WalkIsAt(l, pos);
    hide Flat, Walk, Small;
    if r == 0 {
      FlatDrop(l, j + 1);
    } else {
      var e := InTwo(l, j, r);
      FlatInTwo(l, j, r);
      FlatDrop(e, j + 1);
      FlatTake(e, j);
      assert e[..j] == l[..j] && e[j] == l[j][..r];
    }
  }

  /** No slot in which the first `n` bytes are is empty: they can be read. */
  predicate ClearTo(l: seq<Part>, n: nat) {
    forall i :: 0 <= i < |l| && |Flat(l[..i])| < n ==> l[i] != []
  }

  lemma ClearIfReadable(l: seq<Part>, n: nat)
    ensures NoneEmpty(l) ==> ClearTo(l, n)
  {
  }

  lemma ClearToLess(l: seq<Part>, m: nat, n: nat)
    requires ClearTo(l, n) && m <= n
    ensures ClearTo(l, m)
  {
  }

  /** A part in two leaves nothing empty if and only if it is cut inside. */
  lemma InTwoIff(l: seq<Part>, j: nat, pos: nat)
    requires j < |l| && 0 < pos <= |l[j]|
    ensures NoneEmpty(InTwo(l, j, pos)) <==> NoneEmpty(l) && pos < |l[j]|
    ensures NoneEmpty(l) ==> (NoneEmpty(InTwo(l, j, pos)[j + 1..]) <==> pos < |l[j]|)
  {
    var e := InTwo(l, j, pos);
    assert l[j] != [];
    assert forall i :: j < i < |l| ==> l[i] == e[i + 1];
    assert e[j] == l[j][..pos] && e[j + 1] == l[j][pos..] && e[j + 1..][0] == e[j + 1];
    assert forall i :: 0 <= i < j ==> e[i] == l[i];
    assert forall i :: j + 2 <= i < |e| ==> e[i] == l[i - 1];
    assert forall i :: j + 1 <= i < |e| ==> e[j + 1..][i - (j + 1)] == e[i];
  }

  lemma CutIsCleanIff(l: seq<Part>, pos: nat)
    requires 0 < pos <= |Flat(l)| && Small(l) && CutFits(l, pos)
    ensures NoneEmpty(CutParts(l, pos)) <==> NoneEmpty(l) && CutIsClean(l, pos)
    ensures NoneEmpty(l) ==> (NoneEmpty(CutTail(l, pos)) <==> CutIsClean(l, pos))
  {
    var (j, r) := Walk(l, pos);
    if r > 0 { InTwoIff(l, j, r); }
  }

  // ---- All cuts, on the slots themselves -------------------------------------------------

  /** What `_split` leaves of slot `i` at any position in a slot, be it past the slot's bytes:
      the lengths are octets. */
  ghost predicate AfterSplit(p: Slots, q: Slots, i: nat, pos: nat, n: nat) {
    && i < |p| == |q| && n < |p| && i != n && (forall t :: 0 <= t < |p| && t != n && t != i ==> q[t] == p[t])
    && q[i] == p[i].(length := pos, next := n)
    && q[n].refcnt == p[i].refcnt && q[n].next == p[i].next && |q[n].buf| == SLOT_SIZE
    && q[n].length == (p[i].length - pos) % 256
    && (pos <= p[i].length <= SLOT_SIZE && |p[i].buf| == SLOT_SIZE ==>
          q[n].buf[..p[i].length - pos] == p[i].buf[pos..p[i].length])
  }

  /** After a cut a buffer that could be read to its end holds the same bytes and can be read
      to its end, if and only if the walk ends at the end of a slot or before the end of the
      bytes of one. */
  lemma CutIff(p: Slots, q: Slots, c: Chain, pos: nat, n: nat)
    requires |p| <= NIL && Linked(p, c) && AllOk(p, c) && n !in c && ReadsToEnd(p, c)
    requires 0 < pos <= |Content(p, c)| && Small(Parts(p, c))
    requires var (j, r) := Walk(Parts(p, c), pos); if r == 0 then q == p else AfterSplit(p, q, c[j], r, n)
    ensures var (j, r) := Walk(Parts(p, c), pos);
            var e := if r == 0 then c else Insert(c, c[j], n);
            Content(q, e) == Content(p, c) && ReadsToEnd(q, e) <==> CutIsClean(Parts(p, c), pos)
  {
    hide ReadsToEnd, Flat, Walk;
    var (j, r) := Walk(Parts(p, c), pos);
    ReadableIff(p, c);
    if r > 0 {
      LinkedIsDistinct(p, c);
      PlaceIs(c, j);
      assert c[j] in c;
      if r <= p[c[j]].length {
        CutInside(p, q, c, j, r, n);
      } else {
        CutPast(p, q, c, j, r, n);
      }
    }
  }

  lemma CutInside(p: Slots, q: Slots, c: Chain, j: nat, r: nat, n: nat)
    requires |p| <= NIL && Linked(p, c) && AllOk(p, c) && Distinct(c) && n !in c && j < |c| && NoneEmpty(Parts(p, c))
    requires c[j] < |p| && 0 < r <= p[c[j]].length && AfterSplit(p, q, c[j], r, n)
    ensures Content(q, Insert(c, c[j], n)) == Content(p, c)
    ensures ReadsToEnd(q, Insert(c, c[j], n)) <==> r < p[c[j]].length
  {
    var l, e := Parts(p, c), Insert(c, c[j], n);
    InsertedSlots(p, q, c, j, r, n);
    hide AfterSplit, Linked, AllOk, Insert, Distinct, ReadsToEnd, Flat;
    PlaceIs(c, j);
    ReadableIff(q, e);
    hide Parts;
    InTwoIff(l, j, r);
  }

  lemma InsertedSlots(p: Slots, q: Slots, c: Chain, j: nat, r: nat, n: nat)
    requires |p| <= NIL && Linked(p, c) && AllOk(p, c) && Distinct(c) && n !in c && j < |c|
    requires c[j] < |p| && 0 < r <= p[c[j]].length && AfterSplit(p, q, c[j], r, n)
    ensures var e := Insert(c, c[j], n);
            && |q| <= NIL && Linked(q, e) && AllOk(q, e) && Content(q, e) == Content(p, c)
            && |Parts(p, c)[j]| == p[c[j]].length && PlaceOf(c, c[j]) == j
            && Parts(q, e) == InTwo(Parts(p, c), j, r)
  {
    assert c[j] in c;
    hide Parts, Flat, Insert;
    AfterIsSplit(p, q, c[j], r, n);
    hide AfterSplit, Linked, SplitSlots;
    PlaceIs(c, j);
    SplitParts(p, q, c, c[j], n, r, q[c[j]], q[n]);
    PartLength(p, c, j);
    InsertMembers(c, c[j], n);
    SplitLinked(p, q, c, c[j], n);
    hide Slot.Ok, Distinct;
  }

  lemma AfterIsSplit(p: Slots, q: Slots, i: nat, r: nat, n: nat)
    requires i < |p| && p[i].Ok() && 0 < r <= p[i].length && AfterSplit(p, q, i, r, n)
    ensures SplitSlots(p[i], r, n, q[i], q[n]) && TwoChanged(p, q, n, q[n], i, q[i])
    ensures q[i].next == n && q[n].next == p[i].next && q[i].Ok() && q[n].Ok()
  {
  }

  lemma PartLength(p: Slots, c: Chain, j: nat)
    requires j < |c| && c[j] < |p| && p[c[j]].Ok()
    ensures |Parts(p, c)[j]| == p[c[j]].length
  {
  }

  /** Past the bytes of its slot, a cut makes the buffer longer than it was. */
  lemma CutPast(p: Slots, q: Slots, c: Chain, j: nat, r: nat, n: nat)
    requires |p| <= NIL && Linked(p, c) && AllOk(p, c) && Distinct(c) && n !in c && j < |c|
    requires c[j] < |p| && p[c[j]].length < r < SLOT_SIZE && AfterSplit(p, q, c[j], r, n)
    ensures |Content(q, Insert(c, c[j], n))| > |Content(p, c)|
  {
    var i, a, d := c[j], c[..j], c[j + 1..];
    assert i in c;
    Around(c, j, n);
    SlotGrows(p, q, i, r, n);
    hide Flat, Parts, Linked, Distinct, Insert, Bytes;
    PartsFrame(p, q, a);
    PartsFrame(p, q, d);
    hide AfterSplit;
    FourParts(p, a, [i], [], d);
    FourParts(q, a, [i], [n], d);
    ContentOne(p, i);
    ContentOne(q, i);
    EmptyChain(p);
  }

  lemma Around(c: Chain, j: nat, n: nat)
    requires Distinct(c) && j < |c| && n !in c
    ensures var a, d := c[..j], c[j + 1..];
            && Insert(c, c[j], n) == a + [c[j]] + [n] + d && c == a + [c[j]] + [] + d
            && c[j] !in a && c[j] !in d && n !in a && n !in d
  {
    InsertAt(c, j, n);
    hide Insert;
  }

  lemma SlotGrows(p: Slots, q: Slots, i: nat, r: nat, n: nat)
    requires i < |p| && p[i].Ok() && p[i].length < r < SLOT_SIZE && AfterSplit(p, q, i, r, n)
    ensures |Bytes(q[i])| > |Bytes(p[i])|
  {
  }

  lemma FourParts(p: Slots, a: Chain, b: Chain, c: Chain, d: Chain)
    ensures |Content(p, a + b + c + d)| == |Content(p, a)| + |Content(p, b)| + |Content(p, c)| + |Content(p, d)|
  {
    hide Content;
    ContentConcat(p, a + b + c, d);
    ContentConcat(p, a + b, c);
    ContentConcat(p, a, b);
  }

  // ---- Buffers that were only written to --------------------------------------------------

  /** In such a buffer every cut fits, and one before the end is clean. */
  lemma {:induction false} WalkFull(l: seq<Part>, pos: nat)
    requires 0 < pos <= |Flat(l)| && Small(l) && FullBefore(l)
    ensures Walk(l, pos) == if pos % SLOT_SIZE == 0 then (pos / SLOT_SIZE - 1, 0) else (pos / SLOT_SIZE, pos % SLOT_SIZE)
    ensures CutFits(l, pos) && (CutIsClean(l, pos) <==> pos < |Flat(l)| || pos % SLOT_SIZE == 0)
    decreases |l|
  {
    hide Flat, Walk, CutFits, CutIsClean;
    FlatOne([]);
    FlatCons(l);
    if |l| == 1 { FlatOne(l[0]); assert l == [l[0]]; }
    if |l| == 1 || pos <= SLOT_SIZE {
      FirstSlot(l, pos);
    } else {
      assert |l[0]| == SLOT_SIZE;
      assert forall i :: 0 <= i < |l[1..]| ==> l[1..][i] == l[i + 1];
      WalkFull(l[1..], pos - SLOT_SIZE);
      NextSlot(l, pos);
      OneSlotLess(pos);
    }
  }

  lemma FirstSlot(l: seq<Part>, pos: nat)
    requires 0 < pos <= |Flat(l)| && Small(l) && pos <= SLOT_SIZE && (|l| > 1 ==> |l[0]| == SLOT_SIZE)
    ensures Walk(l, pos) == if pos == SLOT_SIZE then (0, 0) else (0, pos)
    ensures CutFits(l, pos) && (CutIsClean(l, pos) <==> pos < |Flat(l)| || pos == SLOT_SIZE)
  {
    FlatCons(l);
    if |l| == 1 { assert l[1..] == []; }
  }

  lemma NextSlot(l: seq<Part>, pos: nat)
    requires |l| > 1 && SLOT_SIZE < pos <= |Flat(l)| && Small(l) && |l[0]| == SLOT_SIZE
    requires Small(l[1..]) && pos - SLOT_SIZE <= |Flat(l[1..])|
    ensures var w := Walk(l[1..], pos - SLOT_SIZE);
            && Walk(l, pos) == (w.0 + 1, w.1) && (CutFits(l, pos) <==> CutFits(l[1..], pos - SLOT_SIZE))
            && (CutIsClean(l, pos) <==> CutIsClean(l[1..], pos - SLOT_SIZE))
  {
    hide Flat;
  }

  lemma OneSlotLess(pos: nat)
    requires pos > SLOT_SIZE
    ensures (pos - SLOT_SIZE) / SLOT_SIZE == pos / SLOT_SIZE - 1 && (pos - SLOT_SIZE) % SLOT_SIZE == pos % SLOT_SIZE
  {
  }

  /** Where it has been cut inside a slot, the next cut at the same place leaves an empty slot. */
  lemma SecondCut(l: seq<Part>, pos: nat)
    requires 0 < pos < |Flat(l)| && Small(l) && FullBefore(l) && NoneEmpty(l) && pos % SLOT_SIZE > 0
    ensures CutFits(l, pos) && CutIsClean(l, pos)
    ensures var e := CutParts(l, pos);
            && Small(e) && |Flat(e)| == |Flat(l)| && NoneEmpty(e)
            && CutFits(e, pos) && !CutIsClean(e, pos) && !NoneEmpty(CutParts(e, pos)) && !NoneEmpty(CutTail(e, pos))
            && Walk(e, pos) == Walk(l, pos)
  {
    WalkFull(l, pos);
    var (j, r) := Walk(l, pos);
    var e := CutParts(l, pos);
    CutHolds(l, pos);
    CutIsCleanIff(l, pos);
    InTwoAt(l, j, r);
    hide InTwo, NoneEmpty, Flat;
    WalkAlong(l, e, pos, j, r);
    CutIsCleanIff(e, pos);
  }

  lemma InTwoAt(l: seq<Part>, j: nat, r: nat)
    requires j < |l| && r <= |l[j]| && Small(l)
    ensures var e := InTwo(l, j, r);
            && e[j] == l[j][..r] && Small(e) && forall i :: 0 <= i < j ==> e[i] == l[i]
  {
    var e := InTwo(l, j, r);
    assert e[j + 1] == l[j][r..];
    assert forall i :: j + 2 <= i < |e| ==> e[i] == l[i - 1];
  }

  /** The walk through full slots depends on them alone. */
  lemma {:induction false} WalkAlong(l: seq<Part>, e: seq<Part>, pos: nat, j: nat, r: nat)
    requires 0 < pos <= |Flat(l)| && Small(l) && FullBefore(l) && Walk(l, pos) == (j, r) && r > 0
    requires pos <= |Flat(e)| && Small(e) && j < |e| && forall i :: 0 <= i < j ==> e[i] == l[i]
    ensures Walk(e, pos) == (j, r)
    decreases |l|
  {
    if pos >= SLOT_SIZE {
      FlatCons(l);
      FlatCons(e);
      assert e[0] == l[0];
      assert forall i :: 0 <= i < |l[1..]| ==> l[1..][i] == l[i + 1];
      assert forall i :: 0 <= i < |e[1..]| ==> e[1..][i] == e[i + 1];
      WalkAlong(l[1..], e[1..], pos - |l[0]|, j - 1, r);
    }
  }

  /** And so does the first cut at the very end, unless that is the end of a full slot. */
  lemma CutAtEnd(l: seq<Part>, pos: nat)
    requires 0 < pos == |Flat(l)| && Small(l) && FullBefore(l) && NoneEmpty(l) && pos % SLOT_SIZE > 0
    ensures CutFits(l, pos) && !CutIsClean(l, pos) && !NoneEmpty(CutParts(l, pos)) && !NoneEmpty(CutTail(l, pos))
  {
    WalkFull(l, pos);
    CutIsCleanIff(l, pos);
  }
}
