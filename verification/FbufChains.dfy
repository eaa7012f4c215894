/** The buffer pool on values: slots, the chains of live buffers through them, and the
    accounting that ties reference counts and free slots to the chains. */
module FbufChains {
  const FBUF_SLOTS: nat := 900
  const SLOT_SIZE: nat := 32     // FBUF_SLOTSIZE
  const NIL: nat := 0xFFFF       // NILPTR

  datatype Slot = Slot(refcnt: nat, length: nat, next: nat, buf: seq<bv8>) {
    predicate Ok() { |buf| == SLOT_SIZE && length <= SLOT_SIZE }
  }

  type Slots = seq<Slot>
  type Chain = seq<nat>

  // ---- Chains ---------------------------------------------------------------------

  /** `c` is the list of slots that following `next` from its first one gives, up to NIL. */
  ghost predicate Linked(p: Slots, c: Chain) {
    forall i :: 0 <= i < |c| ==> c[i] < |p| && p[c[i]].next == Next(c, i)
  }

  function Next(c: Chain, i: nat): nat {
    if i + 1 < |c| then c[i + 1] else NIL
  }

  function Head(c: Chain): nat { if c == [] then NIL else c[0] }

  function Last(c: Chain): nat
    requires c != []
  {
    c[|c| - 1]
  }

  /** Chains that meet run together to the end. */
  lemma {:induction false} TailsAgree(p: Slots, c: Chain, d: Chain, i: nat, j: nat)
    requires |p| <= NIL && Linked(p, c) && Linked(p, d)
    requires i < |c| && j < |d| && c[i] == d[j]
    ensures c[i..] == d[j..]
    decreases |c| - i
  {
    assert Next(c, i) == Next(d, j);
    if i + 1 < |c| {
      TailsAgree(p, c, d, i + 1, j + 1);
    }
    assert c[i..] == [c[i]] + c[i + 1..] && d[j..] == [d[j]] + d[j + 1..];
  }

  ghost predicate Distinct(c: Chain) {
    forall i, j :: 0 <= i < j < |c| ==> c[i] != c[j]
  }

  /** A chain that ends is acyclic. */
  lemma LinkedIsDistinct(p: Slots, c: Chain)
    requires |p| <= NIL && Linked(p, c)
    ensures Distinct(c)
  {
    forall i, j | 0 <= i < j < |c| ensures c[i] != c[j] {
      if c[i] == c[j] {
        TailsAgree(p, c, c, i, j);
      }
    }
  }

  // ---- Contents --------------------------------------------------------------------

  function Bytes(s: Slot): seq<bv8> {
    if s.length <= |s.buf| then s.buf[..s.length] else s.buf
  }

  type Part = seq<bv8>

  /** What the slots of a chain hold, slot by slot. */
  function Parts(p: Slots, c: Chain): (l: seq<Part>)
    ensures |l| == |c|
  {
    seq(|c|, i requires 0 <= i < |c| => PartAt(p, c[i]))
  }

  function PartAt(p: Slots, s: nat): Part { if s < |p| then Bytes(p[s]) else [] }

  function Flat(l: seq<Part>): seq<bv8> {
    if l == [] then [] else l[0] + Flat(l[1..])
  }

  /** The bytes a chain holds. */
  function Content(p: Slots, c: Chain): seq<bv8> { Flat(Parts(p, c)) }

  lemma {:induction false} FlatConcat(a: seq<Part>, b: seq<Part>)
    ensures Flat(a + b) == Flat(a) + Flat(b)
  {
    if a == [] {
      assert a + b == b;
    } else {
      assert (a + b)[1..] == a[1..] + b;
      FlatConcat(a[1..], b);
    }
  }

  lemma FlatOne(x: Part)
    ensures Flat([x]) == x && Flat([]) == []
  {
    assert [x][1..] == [];
  }

  lemma PartsConcat(p: Slots, a: Chain, b: Chain)
    ensures Parts(p, a + b) == Parts(p, a) + Parts(p, b)
  {
  }

  lemma ContentConcat(p: Slots, a: Chain, b: Chain)
    ensures Content(p, a + b) == Content(p, a) + Content(p, b)
  {
    PartsConcat(p, a, b);
    FlatConcat(Parts(p, a), Parts(p, b));
  }

  lemma PartsFrame(p: Slots, q: Slots, c: Chain)
    requires |p| == |q|
    requires forall s :: s in c && s < |p| ==> Bytes(p[s]) == Bytes(q[s])
    ensures Parts(p, c) == Parts(q, c)
  {
    hide Bytes;
  }

  lemma PartsOne(p: Slots, s: nat)
    requires s < |p|
    ensures Parts(p, [s]) == [Bytes(p[s])]
  {
  }

  lemma ContentOne(p: Slots, s: nat)
    requires s < |p|
    ensures Content(p, [s]) == Bytes(p[s])
  {
    PartsOne(p, s);
    FlatOne(Bytes(p[s]));
  }

  predicate NoneEmpty(l: seq<Part>) {
    forall i :: 0 <= i < |l| ==> l[i] != []
  }

  /** All slots but the last are full. */
  predicate FullBefore(l: seq<Part>) {
    forall i :: 0 <= i < |l| - 1 ==> |l[i]| == SLOT_SIZE
  }

  /** How a buffer looks that was only written to. */
  predicate Plain(l: seq<Part>) {
    l != [] && FullBefore(l) && (|l| > 1 ==> l[|l| - 1] != [])
  }

  lemma PlainNotEmpty(l: seq<Part>)
    requires Plain(l) && Flat(l) != []
    ensures NoneEmpty(l)
  {
    if |l| == 1 { FlatOne(l[0]); assert l == [l[0]]; }
  }

  /** A byte added at the end. */
  function AppendByte(l: seq<Part>, c: bv8): (r: seq<Part>)
    requires l != []
    ensures |l| <= |r| <= |l| + 1
  {
    var n := |l| - 1;
    if |l[n]| == SLOT_SIZE then l + [[c]] else l[..n] + [l[n] + [c]]
  }

  lemma AppendHolds(l: seq<Part>, c: bv8)
    requires l != []
    ensures Flat(AppendByte(l, c)) == Flat(l) + [c]
    ensures Plain(l) ==> Plain(AppendByte(l, c))
  {
    hide Flat;
    var n := |l| - 1;
    assert l == l[..n] + [l[n]];
    FlatConcat(l, [[c]]);
    FlatConcat(l[..n], [l[n]]);
    FlatConcat(l[..n], [l[n] + [c]]);
    FlatOne(l[n]);
    FlatOne([c]);
    FlatOne(l[n] + [c]);
  }

  /** The last byte taken away; a slot that gets empty is dropped unless it is the only one. */
  function DropByte(l: seq<Part>): seq<Part>
    requires l != [] && l[|l| - 1] != []
  {
    var n := |l| - 1;
    if |l[n]| == 1 && n > 0 then l[..n] else l[..n] + [l[n][..|l[n]| - 1]]
  }

  lemma PlainDrop(l: seq<Part>)
    requires l != [] && l[|l| - 1] != []
    ensures Plain(l) ==> Plain(DropByte(l))
  {
    hide Flat;
  }

  lemma DropHolds(l: seq<Part>)
    requires l != [] && l[|l| - 1] != []
    ensures Flat(l) != [] && Flat(DropByte(l)) == Flat(l)[..|Flat(l)| - 1]
    ensures Plain(l) ==> Plain(DropByte(l))
  {
    PlainDrop(l);
    hide Flat, Plain;
    var n := |l| - 1;
    FlatLast(l[..n], l[n]);
    FlatLast(l[..n], l[n][..|l[n]| - 1]);
    assert l == l[..n] + [l[n]];
  }

  lemma FlatLast(l: seq<Part>, x: Part)
    ensures Flat(l + [x]) == Flat(l) + x
  {
    FlatConcat(l, [x]);
    FlatOne(x);
  }

  // ---- Accounting -------------------------------------------------------------------

  /** Each slot of the chain is counted once. */
  ghost predicate UnsharedIn(p: Slots, c: Chain) {
    forall s :: s in c ==> s < |p| && p[s].refcnt == 1
  }

  /** The live buffers whose chain passes through slot `s`. */
  ghost function Holders<K>(chains: map<K, Chain>, s: nat): set<K> {
    set k | k in chains && s in chains[k]
  }

  ghost function FreeSet(p: Slots): set<nat> {
    set s: nat | s < |p| && p[s].refcnt == 0
  }

  ghost predicate SlotsOk(p: Slots) {
    |p| == FBUF_SLOTS && forall s :: 0 <= s < |p| ==> p[s].Ok()
  }

  ghost predicate ChainsOk<K>(p: Slots, chains: map<K, Chain>) {
    forall k :: k in chains ==> Linked(p, chains[k])
  }

  ghost predicate CountsOk<K>(p: Slots, chains: map<K, Chain>) {
    forall s :: 0 <= s < |p| ==> p[s].refcnt == |Holders(chains, s)|
  }

  /** Slots are well formed, chains end, reference counts are the numbers of
      live buffers, and the free count is the number of unreferenced slots. */
  ghost predicate Inv<K>(p: Slots, free: nat, chains: map<K, Chain>) {
    SlotsOk(p) && ChainsOk(p, chains) && CountsOk(p, chains) && free == |FreeSet(p)|
  }

  lemma FreeSetChange(p: Slots, s: nat, x: Slot)
    requires s < |p|
    ensures p[s].refcnt == 0 && x.refcnt > 0 ==> |FreeSet(p[s := x])| == |FreeSet(p)| - 1
    ensures p[s].refcnt > 0 && x.refcnt == 0 ==> |FreeSet(p[s := x])| == |FreeSet(p)| + 1
    ensures (p[s].refcnt == 0) == (x.refcnt == 0) ==> FreeSet(p[s := x]) == FreeSet(p)
  {
    var q := p[s := x];
    if p[s].refcnt == 0 && x.refcnt > 0 {
      assert FreeSet(q) == FreeSet(p) - {s};
    } else if p[s].refcnt > 0 && x.refcnt == 0 {
      assert FreeSet(q) == FreeSet(p) + {s};
    } else {
      assert FreeSet(q) == FreeSet(p);
    }
  }

  lemma FreeSlotUnused<K>(p: Slots, free: nat, chains: map<K, Chain>, s: nat)
    requires Inv(p, free, chains) && s < |p| && p[s].refcnt == 0
    ensures forall k :: k in chains ==> s !in chains[k]
  {
    assert Holders(chains, s) == {};
    forall k | k in chains ensures s !in chains[k] {
      assert k !in Holders(chains, s);
    }
  }

  /** With every buffer released, every slot is back in the pool. */
  lemma AllReleased<K>(p: Slots, free: nat, chains: map<K, Chain>)
    requires Inv(p, free, chains) && forall k :: k in chains ==> chains[k] == []
    ensures free == FBUF_SLOTS
  {
    forall s | 0 <= s < |p| ensures p[s].refcnt == 0 {
      assert Holders(chains, s) == {};
    }
    UptoSize(FBUF_SLOTS);
    assert FreeSet(p) == Upto(FBUF_SLOTS);
  }

  function Upto(n: nat): set<nat> {
    if n == 0 then {} else Upto(n - 1) + {n - 1}
  }

  lemma {:induction false} UptoSize(n: nat)
    ensures |Upto(n)| == n && forall s: nat :: s in Upto(n) <==> s < n
  {
    if n > 0 {
      UptoSize(n - 1);
    }
  }

  // ---- Releasing and sharing a chain -----------------------------------------------------

  function Dec(s: Slot): Slot { if s.refcnt > 0 then s.(refcnt := s.refcnt - 1) else s }
  function Inc(s: Slot): Slot { s.(refcnt := s.refcnt + 1) }

  function DecAll(p: Slots, c: Chain): (q: Slots)
    ensures |q| == |p|
  {
    seq(|p|, s requires 0 <= s < |p| => if s in c then Dec(p[s]) else p[s])
  }

  function IncAll(p: Slots, c: Chain): (q: Slots)
    ensures |q| == |p|
  {
    seq(|p|, s requires 0 <= s < |p| => if s in c then Inc(p[s]) else p[s])
  }

  lemma NoneChanged(p: Slots)
    ensures DecAll(p, []) == p && IncAll(p, []) == p
  {
  }

  lemma DecOneMore(p: Slots, c: Chain, i: nat)
    requires Distinct(c) && i < |c| && c[i] < |p|
    ensures DecAll(p, c[..i])[c[i]] == p[c[i]]
    ensures DecAll(p, c[..i + 1]) == DecAll(p, c[..i])[c[i] := Dec(p[c[i]])]
  {
    assert c[i] !in c[..i];
    assert c[..i + 1] == c[..i] + [c[i]];
  }

  lemma IncOneMore(p: Slots, c: Chain, i: nat)
    requires Distinct(c) && i < |c| && c[i] < |p|
    ensures IncAll(p, c[..i])[c[i]] == p[c[i]]
    ensures IncAll(p, c[..i + 1]) == IncAll(p, c[..i])[c[i] := Inc(p[c[i]])]
  {
    assert c[i] !in c[..i];
    assert c[..i + 1] == c[..i] + [c[i]];
  }

  /** `q` differs from `p` in reference counts only. */
  ghost predicate SameButCounts(p: Slots, q: Slots) {
    |p| == |q| && forall s :: 0 <= s < |p| ==> q[s].length == p[s].length && q[s].next == p[s].next && q[s].buf == p[s].buf
  }

  lemma CountsOnly<K>(p: Slots, q: Slots, chains: map<K, Chain>)
    requires SameButCounts(p, q)
    ensures SlotsOk(p) ==> SlotsOk(q)
    ensures ChainsOk(p, chains) ==> ChainsOk(q, chains)
    ensures forall k :: k in chains ==> Parts(q, chains[k]) == Parts(p, chains[k])
  {
    forall k | k in chains ensures Parts(q, chains[k]) == Parts(p, chains[k]) {
      PartsFrame(p, q, chains[k]);
    }
  }

  lemma DropCounts<K>(p: Slots, chains: map<K, Chain>, b: K)
    requires CountsOk(p, chains) && b in chains
    ensures CountsOk(DecAll(p, chains[b]), chains[b := []])
  {
    var q, after := DecAll(p, chains[b]), chains[b := []];
    forall s | 0 <= s < |q| ensures q[s].refcnt == |Holders(after, s)| {
      assert Holders(after, s) == Holders(chains, s) - {b};
      assert s in chains[b] <==> b in Holders(chains, s);
    }
  }

  /** Dropping a buffer lowers the count of exactly the slots on its chain. */
  lemma DropInv<K>(p: Slots, free: nat, chains: map<K, Chain>, b: K)
    requires Inv(p, free, chains) && b in chains
    ensures Inv(DecAll(p, chains[b]), |FreeSet(DecAll(p, chains[b]))|, chains[b := []])
    ensures forall k :: k in chains ==> Parts(DecAll(p, chains[b]), chains[k]) == Parts(p, chains[k])
  {
    hide SlotsOk, CountsOk, FreeSet, DecAll, Parts, SameButCounts, Linked;
    DropCounts(p, chains, b);
    DecSame(p, chains[b]);
    CountsOnly(p, DecAll(p, chains[b]), chains);
    EmptyChain(DecAll(p, chains[b]));
  }

  lemma DecSame(p: Slots, c: Chain)
    ensures SameButCounts(p, DecAll(p, c))
  {
  }

  lemma EmptyChain(p: Slots)
    ensures Linked(p, []) && Parts(p, []) == [] && Content(p, []) == []
  {
  }

  lemma ShareCounts<K>(p: Slots, chains: map<K, Chain>, b: K, nb: K)
    requires CountsOk(p, chains) && b in chains && (nb in chains ==> chains[nb] == [])
    ensures CountsOk(IncAll(p, chains[b]), chains[nb := chains[b]])
    ensures FreeSet(IncAll(p, chains[b])) == FreeSet(p)
    ensures SameButCounts(p, IncAll(p, chains[b]))
  {
    var c, q, after := chains[b], IncAll(p, chains[b]), chains[nb := chains[b]];
    forall s | 0 <= s < |q| ensures q[s].refcnt == |Holders(after, s)| {
      assert Holders(after, s) == Holders(chains, s) + if s in c then {nb} else {};
    }
    forall s | 0 <= s < |q| && s in c ensures p[s].refcnt > 0 {
      assert b in Holders(chains, s);
    }
  }

  /** A further buffer on an existing chain raises the count of exactly its slots. */
  lemma ShareInv<K>(p: Slots, free: nat, chains: map<K, Chain>, b: K, nb: K)
    requires Inv(p, free, chains) && b in chains && (nb in chains ==> chains[nb] == [])
    ensures Inv(IncAll(p, chains[b]), free, chains[nb := chains[b]])
    ensures forall k :: k in chains ==> Parts(IncAll(p, chains[b]), chains[k]) == Parts(p, chains[k])
  {
    hide SlotsOk, CountsOk, Linked, FreeSet, IncAll, Parts, SameButCounts;
    ShareCounts(p, chains, b, nb);
    CountsOnly(p, IncAll(p, chains[b]), chains);
  }

  // ---- Taking a slot ------------------------------------------------------------------

  function Fresh(s: Slot): Slot { Slot(1, 0, NIL, s.buf) }

  /** Slots change only outside all chains but `b`'s, which is replaced by `c`. */
  lemma OthersUntouched<K>(p: Slots, q: Slots, chains: map<K, Chain>, b: K, c: Chain)
    requires ChainsOk(p, chains) && Linked(q, c) && Elsewhere(p, q, chains, b)
    ensures ChainsOk(q, chains[b := c])
    ensures forall k :: k in chains && k != b ==> Parts(q, chains[k]) == Parts(p, chains[k])
  {
    hide Parts;
    forall k | k in chains && k != b
      ensures Linked(q, chains[k]) && Parts(q, chains[k]) == Parts(p, chains[k])
    {
      PartsFrame(p, q, chains[k]);
    }
  }

  /** Nothing that concerns buffers other than `b` has changed. */
  ghost predicate Elsewhere<K>(p: Slots, q: Slots, chains: map<K, Chain>, b: K) {
    |p| == |q| && forall k, s :: k in chains && k != b && s in chains[k] && s < |p| ==> q[s] == p[s]
  }

  lemma NewCounts<K>(p: Slots, chains: map<K, Chain>, b: K, s: nat)
    requires CountsOk(p, chains) && (b in chains ==> chains[b] == [])
    requires s < |p| && forall k :: k in chains ==> s !in chains[k]
    ensures CountsOk(p[s := Fresh(p[s])], chains[b := [s]])
  {
    var after := chains[b := [s]];
    forall t | 0 <= t < |p| ensures p[s := Fresh(p[s])][t].refcnt == |Holders(after, t)| {
      assert Holders(after, t) == if t == s then {b} else Holders(chains, t);
    }
  }

  /** A new buffer of one empty slot. */
  lemma NewInv<K>(p: Slots, free: nat, chains: map<K, Chain>, b: K, s: nat)
    requires Inv(p, free, chains) && (b in chains ==> chains[b] == [])
    requires s < |p| && p[s].refcnt == 0
    ensures free > 0 && Inv(p[s := Fresh(p[s])], free - 1, chains[b := [s]])
    ensures Parts(p[s := Fresh(p[s])], [s]) == [[]] && UnsharedIn(p[s := Fresh(p[s])], [s])
    ensures forall k :: k in chains ==> Parts(p[s := Fresh(p[s])], chains[k]) == Parts(p, chains[k])
  {
    var q := p[s := Fresh(p[s])];
    hide Parts, FreeSet, CountsOk, ChainsOk, Linked, SlotsOk, UnsharedIn, Elsewhere;
    FreeSlotUnused(p, free, chains, s);
    NewFree(p, s);
    NewCounts(p, chains, b, s);
    NewChain(p, s);
    UnusedSlot(p, chains, b, s, Fresh(p[s]));
    OthersUntouched(p, q, chains, b, [s]);
    EmptyChain(p);
    EmptyChain(q);
  }

  lemma NewFree(p: Slots, s: nat)
    requires SlotsOk(p) && s < |p| && p[s].refcnt == 0
    ensures |FreeSet(p[s := Fresh(p[s])])| == |FreeSet(p)| - 1 && SlotsOk(p[s := Fresh(p[s])])
  {
    FreeSetChange(p, s, Fresh(p[s]));
  }

  lemma NewChain(p: Slots, s: nat)
    requires s < |p|
    ensures var q := p[s := Fresh(p[s])];
            Linked(q, [s]) && Parts(q, [s]) == [[]] && UnsharedIn(q, [s])
  {
    PartsOne(p[s := Fresh(p[s])], s);
  }

  lemma UnusedSlot<K>(p: Slots, chains: map<K, Chain>, b: K, s: nat, x: Slot)
    requires s < |p| && forall k :: k in chains ==> s !in chains[k]
    ensures Elsewhere(p, p[s := x], chains, b)
  {
  }

  // ---- Writing and removing at the end ------------------------------------------------------

  /** A slot counted once belongs to one buffer only. */
  lemma SoleHolder<K>(p: Slots, chains: map<K, Chain>, b: K, s: nat)
    requires CountsOk(p, chains) && b in chains && s in chains[b] && s < |p| && p[s].refcnt == 1
    ensures forall k :: k in chains && k != b ==> s !in chains[k]
  {
    forall k | k in chains && k != b ensures s !in chains[k] {
      if s in chains[k] {
        assert {b, k} <= Holders(chains, s);
        assert |{b, k}| == 2;
        SubsetSize({b, k}, Holders(chains, s));
      }
    }
  }

  lemma {:induction false} SubsetSize<T>(a: set<T>, b: set<T>)
    requires a <= b
    ensures |a| <= |b|
    decreases a
  {
    if a != {} {
      var x :| x in a;
      SubsetSize(a - {x}, b - {x});
    }
  }

  /** Everything before the last slot. */
  function Front(c: Chain): Chain
    requires c != []
  {
    c[..|c| - 1]
  }

  lemma FrontAndLast(c: Chain)
    requires c != []
    ensures c == Front(c) + [Last(c)]
  {
  }

  lemma PartsAtEnd(p: Slots, c: Chain)
    requires c != [] && Last(c) < |p|
    ensures Parts(p, c) == Parts(p, Front(c)) + [Bytes(p[Last(c)])]
  {
    hide Parts;
    FrontAndLast(c);
    hide Front, Last;
    PartsConcat(p, Front(c), [Last(c)]);
    PartsOne(p, Last(c));
  }

  lemma LastIsElsewhere(p: Slots, c: Chain)
    requires |p| <= NIL && Linked(p, c) && c != []
    ensures Last(c) < |p| && Last(c) !in Front(c) && p[Last(c)].next == NIL
    ensures |c| > 1 ==> Last(Front(c)) < |p| && Last(Front(c)) != Last(c) && p[Last(Front(c))].next == Last(c)
  {
    LinkedIsDistinct(p, c);
    assert Next(c, |c| - 1) == NIL;
    if |c| > 1 { assert Next(c, |c| - 2) == Last(c); }
  }

  /** Changing the contents of the last, unshared slot of `b`. */
  lemma RewriteLastInv<K>(p: Slots, free: nat, chains: map<K, Chain>, b: K, x: Slot)
    requires Inv(p, free, chains) && b in chains && chains[b] != []
    requires var w := Last(chains[b]);
             w < |p| && p[w].refcnt == 1 && x.Ok() && x.refcnt == 1 && x.next == p[w].next
    ensures var q := p[Last(chains[b]) := x];
            && Inv(q, free, chains)
            && Parts(q, chains[b]) == Parts(p, Front(chains[b])) + [Bytes(x)]
            && forall k :: k in chains && k != b ==> Parts(q, chains[k]) == Parts(p, chains[k])
  {
    var c := chains[b];
    var w := Last(c);
    var q := p[w := x];
    assert w in c;
    LastIsElsewhere(p, c);
    SoleHolder(p, chains, b, w);
    FreeSetChange(p, w, x);
    OthersUntouched(p, q, chains, b, c);
    assert chains[b := c] == chains;
    PartsAtEnd(q, c);
    PartsFrame(p, q, Front(c));
    hide Parts;
  }

  lemma {:induction false} LinkedCons(p: Slots, c: Chain)
    ensures Linked(p, c) <==> c == [] || (c[0] < |p| && p[c[0]].next == Head(c[1..]) && Linked(p, c[1..]))
  {
    if c != [] {
      var t := c[1..];
      assert Next(c, 0) == Head(t);
      assert forall i :: 0 <= i < |t| ==> t[i] == c[i + 1] && Next(t, i) == Next(c, i + 1);
      if Linked(p, t) && c[0] < |p| && p[c[0]].next == Head(t) {
        forall i | 0 <= i < |c| ensures c[i] < |p| && p[c[i]].next == Next(c, i) {
          if i > 0 { assert c[i] == t[i - 1]; }
        }
      }
    }
  }

  /** Two chains end to end: the first linked onto the second. */
  lemma {:induction false} LinkedConcat(p: Slots, a: Chain, b: Chain)
    requires a != [] && Linked(p, b)
    requires forall i :: 0 <= i < |a| ==> a[i] < |p| && p[a[i]].next == (if i + 1 < |a| then a[i + 1] else Head(b))
    ensures Linked(p, a + b)
  {
    var c := a + b;
    forall i | 0 <= i < |a| ensures c[i] < |p| && p[c[i]].next == Next(c, i) {
      assert c[i] == a[i] && p[a[i]].next == if i + 1 < |a| then a[i + 1] else Head(b);
      if i + 1 < |a| {
        assert c[i + 1] == a[i + 1] && Next(c, i) == a[i + 1];
      } else if b != [] {
        assert c[i + 1] == b[0] && Next(c, i) == b[0];
      } else {
        assert c == a && Next(c, i) == NIL;
      }
    }
    forall i | |a| <= i < |c| ensures c[i] < |p| && p[c[i]].next == Next(c, i) {
      var j := i - |a|;
      assert c[i] == b[j] && p[b[j]].next == Next(b, j);
      assert j + 1 < |b| ==> c[i + 1] == b[j + 1];
    }
  }

  lemma JoinLinks(p: Slots, q: Slots, c: Chain, d: Chain)
    requires |p| == |q| && Linked(p, c) && Linked(q, d) && c != []
    requires forall s :: s in Front(c) && s < |p| ==> q[s] == p[s]
    requires Last(c) < |q| && q[Last(c)].next == Head(d)
    ensures Linked(q, c + d)
  {
    forall i | 0 <= i < |c| ensures c[i] < |q| && q[c[i]].next == (if i + 1 < |c| then c[i + 1] else Head(d)) {
      assert p[c[i]].next == Next(c, i);
      if i + 1 < |c| { assert c[i] == Front(c)[i]; }
    }
    LinkedConcat(q, c, d);
  }

  /** `q` is `p` with slots `s` and `w` changed. */
  ghost predicate TwoChanged(p: Slots, q: Slots, s: nat, x: Slot, w: nat, y: Slot) {
    && |p| == |q| && s < |p| && w < |p| && s != w
    && q[s] == x && q[w] == y && forall t :: 0 <= t < |p| && t != s && t != w ==> q[t] == p[t]
  }

  lemma TwoUpdates(p: Slots, s: nat, x: Slot, w: nat, y: Slot)
    requires s < |p| && w < |p| && s != w
    ensures TwoChanged(p, p[s := x][w := y], s, x, w, y)
    ensures p[w].refcnt > 0 && y.refcnt > 0 && p[s].refcnt == 0 && x.refcnt > 0 ==>
              |FreeSet(p[s := x][w := y])| == |FreeSet(p)| - 1
    ensures p[w].refcnt > 0 && y.refcnt > 0 && p[s].refcnt > 0 && x.refcnt == 0 ==>
              |FreeSet(p[s := x][w := y])| == |FreeSet(p)| + 1
  {
    FreeSetChange(p, s, x);
    FreeSetChange(p[s := x], w, y);
  }

  /** The buffer grows by a slot holding one byte. */
  lemma ExtendInv<K>(p: Slots, free: nat, chains: map<K, Chain>, b: K, s: nat, x: Slot, q: Slots)
    requires Inv(p, free, chains) && b in chains && chains[b] != []
    requires s < |p| && p[s].refcnt == 0 && x.Ok() && x.refcnt == 1 && x.next == NIL
    requires Last(chains[b]) < |p| && p[Last(chains[b])].refcnt == 1
    requires q == p[s := x][Last(chains[b]) := p[Last(chains[b])].(next := s)]
    ensures free > 0 && Inv(q, free - 1, chains[b := chains[b] + [s]])
    ensures Parts(q, chains[b] + [s]) == Parts(p, chains[b]) + [Bytes(x)]
    ensures forall k :: k in chains && k != b ==> Parts(q, chains[k]) == Parts(p, chains[k])
  {
    var c := chains[b];
    var w := Last(c);
    assert w in c;
    assert s != w;
    TwoUpdates(p, s, x, w, p[w].(next := s));
    FreeSlotUnused(p, free, chains, s);
    SoleHolder(p, chains, b, w);
    hide Parts, FreeSet;
    ExtendChain(p, q, c, s, x);
    ExtendCounts(p, q, chains, b, c + [s], s);
    OthersUntouched(p, q, chains, b, c + [s]);
    hide CountsOk;
    assert SlotsOk(q);
  }

  lemma ExtendChain(p: Slots, q: Slots, c: Chain, s: nat, x: Slot)
    requires |p| <= NIL && Linked(p, c) && c != [] && s !in c
    requires x.next == NIL && Last(c) < |p| && TwoChanged(p, q, s, x, Last(c), p[Last(c)].(next := s))
    ensures Linked(q, c + [s]) && Parts(q, c + [s]) == Parts(p, c) + [Bytes(x)]
  {
    hide Parts;
    LastIsElsewhere(p, c);
    assert forall t :: t in Front(c) ==> t in c;
    assert Linked(q, [s]);
    JoinLinks(p, q, c, [s]);
    PartsFrame(p, q, c);
    PartsConcat(q, c, [s]);
    PartsOne(q, s);
  }

  lemma ExtendCounts<K>(p: Slots, q: Slots, chains: map<K, Chain>, b: K, c: Chain, s: nat)
    requires CountsOk(p, chains) && b in chains && c == chains[b] + [s] && |q| == |p| && s < |p|
    requires forall k :: k in chains ==> s !in chains[k]
    requires q[s].refcnt == 1 && forall t :: 0 <= t < |p| && t != s ==> q[t].refcnt == p[t].refcnt
    ensures CountsOk(q, chains[b := c])
  {
    forall t | 0 <= t < |q| ensures q[t].refcnt == |Holders(chains[b := c], t)| {
      assert Holders(chains[b := c], t) == if t == s then {b} else Holders(chains, t);
    }
  }

  /** Whoever shares the slot before the last shares the last. */
  lemma SharesLast(p: Slots, c: Chain, d: Chain)
    requires |p| <= NIL && Linked(p, c) && Linked(p, d) && |c| > 1
    ensures Last(Front(c)) in d ==> Last(c) in d
  {
    if j :| 0 <= j < |d| && d[j] == Last(Front(c)) {
      TailsAgree(p, c, d, |c| - 2, j);
      assert c[|c| - 2..][1] == d[j..][1] == d[j + 1];
    }
  }

  /** The last slot, down to its last byte, goes back to the pool. */
  lemma DropLastInv<K>(p: Slots, free: nat, chains: map<K, Chain>, b: K, q: Slots)
    requires Inv(p, free, chains) && b in chains && |chains[b]| > 1
    requires Last(chains[b]) < |p| && p[Last(chains[b])].refcnt == 1 && Last(Front(chains[b])) < |p|
    requires q == p[Last(chains[b]) := p[Last(chains[b])].(length := 0, refcnt := 0)]
                   [Last(Front(chains[b])) := p[Last(Front(chains[b]))].(next := NIL)]
    ensures Inv(q, free + 1, chains[b := Front(chains[b])])
    ensures Parts(q, Front(chains[b])) == Parts(p, Front(chains[b]))
    ensures forall k :: k in chains && k != b ==> Parts(q, chains[k]) == Parts(p, chains[k])
  {
    var c := chains[b];
    var f := Front(c);
    var w, v := Last(c), Last(f);
    assert w in c && v in c;
    LastIsElsewhere(p, c);
    assert p[v].refcnt > 0 by { assert b in Holders(chains, v); }
    TwoUpdates(p, w, p[w].(length := 0, refcnt := 0), v, p[v].(next := NIL));
    SoleHolder(p, chains, b, w);
    forall k | k in chains && k != b ensures v !in chains[k] { SharesLast(p, c, chains[k]); }
    hide Parts, FreeSet;
    DropLastChain(p, q, c);
    DropLastCounts(p, q, chains, b, w);
    OthersUntouched(p, q, chains, b, f);
    hide CountsOk;
    assert SlotsOk(q);
  }

  lemma DropLastChain(p: Slots, q: Slots, c: Chain)
    requires |p| <= NIL && Linked(p, c) && |c| > 1
    requires Last(c) < |p| && Last(Front(c)) < |p|
    requires TwoChanged(p, q, Last(c), p[Last(c)].(length := 0, refcnt := 0), Last(Front(c)), p[Last(Front(c))].(next := NIL))
    ensures Linked(q, Front(c)) && Parts(q, Front(c)) == Parts(p, Front(c))
  {
    var f := Front(c);
    hide Parts;
    LastIsElsewhere(p, c);
    LinkedIsDistinct(p, c);
    PartsFrame(p, q, f);
    forall i | 0 <= i < |f| ensures f[i] < |q| && q[f[i]].next == Next(f, i) {
      assert p[c[i]].next == Next(c, i);
    }
  }

  lemma DropLastCounts<K>(p: Slots, q: Slots, chains: map<K, Chain>, b: K, w: nat)
    requires CountsOk(p, chains) && b in chains && chains[b] != [] && w == Last(chains[b]) && |q| == |p| && w < |p|
    requires w !in Front(chains[b]) && forall k :: k in chains && k != b ==> w !in chains[k]
    requires q[w].refcnt == 0 && forall t :: 0 <= t < |p| && t != w ==> q[t].refcnt == p[t].refcnt
    ensures CountsOk(q, chains[b := Front(chains[b])])
  {
    var c := chains[b];
    assert c == Front(c) + [w];
    forall t | 0 <= t < |q| ensures q[t].refcnt == |Holders(chains[b := Front(c)], t)| {
      assert Holders(chains[b := Front(c)], t) == if t == w then {} else Holders(chains, t);
    }
  }

  // ---- Splitting a slot -----------------------------------------------------------------

  /** A chain after slot `i` was split: `n` comes right behind it. */
  function Insert(c: Chain, i: nat, n: nat): Chain {
    if c == [] then [] else if c[0] == i then [i, n] + c[1..] else [c[0]] + Insert(c[1..], i, n)
  }

  function InsertAll<K>(chains: map<K, Chain>, i: nat, n: nat): (r: map<K, Chain>)
    ensures r.Keys == chains.Keys
    ensures forall k :: k in chains ==> r[k] == Insert(chains[k], i, n)
  {
    map k | k in chains :: Insert(chains[k], i, n)
  }

  lemma {:induction false} InsertMembers(c: Chain, i: nat, n: nat)
    ensures i !in c ==> Insert(c, i, n) == c
    ensures forall s :: s in Insert(c, i, n) <==> s in c || (s == n && i in c)
  {
    if c != [] {
      InsertMembers(c[1..], i, n);
      if c[0] != i {
        assert c == [c[0]] + c[1..];
      }
    }
  }

  lemma {:induction false} InsertAt(c: Chain, j: nat, n: nat)
    requires Distinct(c) && j < |c|
    ensures Insert(c, c[j], n) == c[..j + 1] + [n] + c[j + 1..]
  {
    if j > 0 {
      assert c[0] != c[j];
      InsertAt(c[1..], j - 1, n);
      assert c[1..][..j] == c[1..j + 1] && c[1..][j..] == c[j + 1..];
      assert [c[0]] + (c[1..j + 1] + [n] + c[j + 1..]) == c[..j + 1] + [n] + c[j + 1..];
    } else {
      assert [c[0], n] + c[1..] == c[..1] + [n] + c[1..];
    }
  }

  /** What a split leaves in the two slots. */
  ghost predicate SplitSlots(was: Slot, pos: nat, n: nat, low: Slot, high: Slot) {
    && 0 < pos <= was.length && was.Ok() && high.Ok()
    && low == was.(length := pos, next := n)
    && high.refcnt == was.refcnt && high.next == was.next && high.length == was.length - pos
    && high.buf[..was.length - pos] == was.buf[pos..was.length]
  }

  lemma SplitBytes(was: Slot, pos: nat, n: nat, low: Slot, high: Slot)
    requires SplitSlots(was, pos, n, low, high)
    ensures pos <= |Bytes(was)| && Bytes(low) == Bytes(was)[..pos] && Bytes(high) == Bytes(was)[pos..]
  {
  }

  /** The first place of slot `i` in a chain, or the chain's length. */
  function PlaceOf(c: Chain, i: nat): (j: nat)
    ensures j <= |c| && (j < |c| <==> i in c) && (j < |c| ==> c[j] == i)
  {
    if c == [] || c[0] == i then 0 else 1 + PlaceOf(c[1..], i)
  }

  lemma PlaceIs(c: Chain, j: nat)
    requires Distinct(c) && j < |c|
    ensures PlaceOf(c, c[j]) == j
  {
    assert c[PlaceOf(c, c[j])] == c[j];
  }

  /** Part `j` in two. */
  function InTwo(l: seq<Part>, j: nat, pos: nat): (r: seq<Part>)
    requires j < |l| && pos <= |l[j]|
    ensures |r| == |l| + 1
  {
    l[..j] + [l[j][..pos], l[j][pos..]] + l[j + 1..]
  }

  /** What a chain holds, slot by slot, when slot `i` has been split at `pos`. */
  function PartsSplit(l: seq<Part>, c: Chain, i: nat, pos: nat): seq<Part> {
    if i in c && PlaceOf(c, i) < |l| && pos <= |l[PlaceOf(c, i)]| then InTwo(l, PlaceOf(c, i), pos) else l
  }

  lemma FlatInTwo(l: seq<Part>, j: nat, pos: nat)
    requires j < |l| && pos <= |l[j]|
    ensures Flat(InTwo(l, j, pos)) == Flat(l)
  {
    hide Flat;
    var a, x, z := l[..j], l[j], l[j + 1..];
    assert l == a + [x] + z;
    FlatConcat(a + [x], z);
    FlatConcat(a, [x]);
    FlatOne(x);
    FlatConcat(a + [x[..pos], x[pos..]], z);
    FlatConcat(a, [x[..pos], x[pos..]]);
    assert [x[..pos], x[pos..]] == [x[..pos]] + [x[pos..]];
    FlatConcat([x[..pos]], [x[pos..]]);
    FlatOne(x[..pos]);
    FlatOne(x[pos..]);
    assert x[..pos] + x[pos..] == x;
  }

  lemma LinkedPrepend(p: Slots, s: nat, c: Chain)
    ensures Linked(p, [s] + c) <==> s < |p| && p[s].next == Head(c) && Linked(p, c)
  {
    LinkedCons(p, [s] + c);
    assert ([s] + c)[1..] == c;
  }

  lemma LinkedElsewhere(p: Slots, q: Slots, c: Chain, i: nat, n: nat)
    requires Linked(p, c) && |p| == |q| && i !in c && n !in c
    requires forall t :: 0 <= t < |p| && t != n && t != i ==> q[t].next == p[t].next
    ensures Linked(q, c)
  {
  }

  /** Every chain through the split slot goes through the new one next. */
  lemma {:induction false} SplitLinked(p: Slots, q: Slots, c: Chain, i: nat, n: nat)
    requires |p| == |q| <= NIL && Linked(p, c) && n !in c && i < |p| && n < |p| && i != n
    requires q[i].next == n && q[n].next == p[i].next
    requires forall t :: 0 <= t < |p| && t != n && t != i ==> q[t].next == p[t].next
    ensures Linked(q, Insert(c, i, n))
    decreases |c|
  {
    hide Linked;
    if c != [] {
      var t := c[1..];
      assert c == [c[0]] + t;
      LinkedPrepend(p, c[0], t);
      if c[0] == i {
        HeadNotInTail(p, c);
        LinkedElsewhere(p, q, t, i, n);
        LinkedPrepend(q, n, t);
        LinkedPrepend(q, i, [n] + t);
        assert [i] + ([n] + t) == [i, n] + t;
      } else {
        SplitLinked(p, q, t, i, n);
        assert Head(Insert(t, i, n)) == Head(t);
        LinkedPrepend(q, c[0], Insert(t, i, n));
      }
    } else {
      EmptyChain(q);
    }
  }

  lemma HeadNotInTail(p: Slots, c: Chain)
    requires |p| <= NIL && Linked(p, c) && c != []
    ensures c[0] !in c[1..]
  {
    LinkedIsDistinct(p, c);
  }

  /** What the sharers of a split slot hold after it. */
  lemma SplitParts(p: Slots, q: Slots, c: Chain, i: nat, n: nat, pos: nat, low: Slot, high: Slot)
    requires |p| <= NIL && Linked(p, c) && n !in c && i < |p|
    requires SplitSlots(p[i], pos, n, low, high) && TwoChanged(p, q, n, high, i, low)
    ensures i in c ==> pos <= |Parts(p, c)[PlaceOf(c, i)]|
    ensures Parts(q, Insert(c, i, n)) == PartsSplit(Parts(p, c), c, i, pos)
    ensures Content(q, Insert(c, i, n)) == Content(p, c)
  {
    SplitBytes(p[i], pos, n, low, high);
    LinkedIsDistinct(p, c);
    InsertMembers(c, i, n);
    hide Flat, Linked, Insert, SplitSlots;
    if i in c {
      var j := PlaceOf(c, i);
      InsertAt(c, j, n);
      SplitAtPlace(p, q, c, j, n, pos);
      FlatInTwo(Parts(p, c), j, pos);
    } else {
      PartsFrame(p, q, c);
    }
  }

  lemma SplitAtPlace(p: Slots, q: Slots, c: Chain, j: nat, n: nat, pos: nat)
    requires Distinct(c) && j < |c| && n !in c && c[j] < |p| == |q| && n < |p|
    requires pos <= |Bytes(p[c[j]])| && Bytes(q[c[j]]) == Bytes(p[c[j]])[..pos] && Bytes(q[n]) == Bytes(p[c[j]])[pos..]
    requires forall t :: 0 <= t < |p| && t != n && t != c[j] ==> q[t] == p[t]
    ensures Parts(q, c[..j + 1] + [n] + c[j + 1..]) == InTwo(Parts(p, c), j, pos)
  {
    hide Bytes;
  }

  lemma SplitCounts<K>(p: Slots, q: Slots, chains: map<K, Chain>, i: nat, n: nat)
    requires CountsOk(p, chains) && |q| == |p| && i < |p| && n < |p| && i != n
    requires forall k :: k in chains ==> n !in chains[k]
    requires q[n].refcnt == p[i].refcnt && forall t :: 0 <= t < |p| && t != n ==> q[t].refcnt == p[t].refcnt
    ensures CountsOk(q, InsertAll(chains, i, n))
  {
    var after := InsertAll(chains, i, n);
    forall k | k in chains ensures forall s :: s in after[k] <==> s in chains[k] || (s == n && i in chains[k]) {
      InsertMembers(chains[k], i, n);
    }
    forall t | 0 <= t < |q| ensures q[t].refcnt == |Holders(after, t)| {
      assert Holders(after, t) == Holders(chains, if t == n then i else t);
    }
  }

  lemma SplitChains<K>(p: Slots, q: Slots, chains: map<K, Chain>, i: nat, n: nat, pos: nat, low: Slot, high: Slot)
    requires |p| <= NIL && ChainsOk(p, chains) && i < |p| && forall k :: k in chains ==> n !in chains[k]
    requires SplitSlots(p[i], pos, n, low, high) && TwoChanged(p, q, n, high, i, low)
    ensures ChainsOk(q, InsertAll(chains, i, n))
    ensures forall k :: k in chains ==>
              && Parts(q, Insert(chains[k], i, n)) == PartsSplit(Parts(p, chains[k]), chains[k], i, pos)
              && Content(q, Insert(chains[k], i, n)) == Content(p, chains[k])
  {
    forall k | k in chains
      ensures Linked(q, Insert(chains[k], i, n))
      ensures Parts(q, Insert(chains[k], i, n)) == PartsSplit(Parts(p, chains[k]), chains[k], i, pos)
      ensures Content(q, Insert(chains[k], i, n)) == Content(p, chains[k])
    {
      SplitParts(p, q, chains[k], i, n, pos, low, high);
      hide Parts, Content;
      SplitLinked(p, q, chains[k], i, n);
    }
    hide Content, Linked, Parts, PartsSplit, TwoChanged, SplitSlots;
  }

  /** Splitting a slot in use changes the chains of all its sharers, and what none of them reads. */
  lemma SplitInv<K>(p: Slots, free: nat, chains: map<K, Chain>, i: nat, n: nat, pos: nat, low: Slot, high: Slot, q: Slots)
    requires Inv(p, free, chains) && i < |p| && n < |p| && p[i].refcnt > 0 && p[n].refcnt == 0
    requires SplitSlots(p[i], pos, n, low, high) && q == p[n := high][i := low]
    ensures free > 0 && Inv(q, free - 1, InsertAll(chains, i, n))
    ensures forall k :: k in chains ==>
              && Parts(q, Insert(chains[k], i, n)) == PartsSplit(Parts(p, chains[k]), chains[k], i, pos)
              && Content(q, Insert(chains[k], i, n)) == Content(p, chains[k])
  {
    TwoUpdates(p, n, high, i, low);
    FreeSlotUnused(p, free, chains, n);
    SplitCounts(p, q, chains, i, n);
    SplitChains(p, q, chains, i, n, pos, low, high);
    assert SlotsOk(q);
    hide CountsOk, FreeSet, ChainsOk, Content, Parts, PartsSplit, Linked, SlotsOk;
  }

  // ---- Joining a header to a tail -----------------------------------------------------------

  lemma JoinCounts<K>(p: Slots, q: Slots, chains: map<K, Chain>, b: K, d: Chain)
    requires CountsOk(p, chains) && b in chains && |q| == |p|
    requires forall s :: s in d ==> s !in chains[b]
    requires forall s :: 0 <= s < |p| ==> q[s].refcnt == p[s].refcnt + if s in d then 1 else 0
    ensures CountsOk(q, chains[b := chains[b] + d])
  {
    var after := chains[b := chains[b] + d];
    forall s | 0 <= s < |q| ensures q[s].refcnt == |Holders(after, s)| {
      assert Holders(after, s) == Holders(chains, s) + if s in d then {b} else {};
    }
  }

  /** Unshared slots are on no other chain. */
  lemma UnsharedDisjoint<K>(p: Slots, chains: map<K, Chain>, b: K)
    requires CountsOk(p, chains) && b in chains
    requires UnsharedIn(p, chains[b])
    ensures forall k, s :: k in chains && k != b && s in chains[k] ==> s !in chains[b]
  {
    forall k, s | k in chains && k != b && s in chains[k] ensures s !in chains[b] {
      if s in chains[b] { SoleHolder(p, chains, b, s); }
    }
  }

  /** An unshared buffer linked onto the tail `d` of another one's chain. */
  lemma JoinInv<K>(p: Slots, free: nat, chains: map<K, Chain>, b: K, x: K, d: Chain, m: nat, q: Slots)
    requires Inv(p, free, chains) && b in chains && x in chains && b != x && chains[b] != []
    requires m <= |chains[x]| && d == chains[x][m..]
    requires UnsharedIn(p, chains[b]) && Last(chains[b]) < |p|
    requires q == IncAll(p[Last(chains[b]) := p[Last(chains[b])].(next := Head(d))], d)
    ensures Inv(q, free, chains[b := chains[b] + d])
    ensures Parts(q, chains[b] + d) == Parts(p, chains[b]) + Parts(p, d)
    ensures forall k :: k in chains && k != b ==> Parts(q, chains[k]) == Parts(p, chains[k])
  {
    var c := chains[b];
    var w := Last(c);
    assert w in c;
    UnsharedDisjoint(p, chains, b);
    assert forall s :: s in d ==> s in chains[x];
    SuffixLinked(p, chains[x], m);
    JoinSlots(p, q, c, d);
    SlotsStayOk(p, q, c, d);
    hide Parts, FreeSet, IncAll, Linked, Distinct, SlotsOk, Relinked;
    JoinCounts(p, q, chains, b, d);
    JoinFree(p, q, chains, x, d);
    JoinChain(p, q, c, d);
    hide CountsOk;
    JoinOthers(p, q, chains, b, c + d, d);
  }

  lemma SlotsStayOk(p: Slots, q: Slots, c: Chain, d: Chain)
    requires SlotsOk(p) && c != [] && Relinked(p, q, c, d)
    ensures SlotsOk(q)
  {
  }

  lemma JoinSlots(p: Slots, q: Slots, c: Chain, d: Chain)
    requires c != [] && Last(c) < |p|
    requires q == IncAll(p[Last(c) := p[Last(c)].(next := Head(d))], d)
    requires Last(c) !in d
    ensures Relinked(p, q, c, d)
    ensures forall s :: 0 <= s < |p| ==> q[s].refcnt == p[s].refcnt + if s in d then 1 else 0
  {
  }

  lemma SuffixLinked(p: Slots, c: Chain, m: nat)
    requires Linked(p, c) && m <= |c|
    ensures Linked(p, c[m..])
  {
    var d := c[m..];
    forall i | 0 <= i < |d| ensures d[i] < |p| && p[d[i]].next == Next(d, i) {
      assert d[i] == c[m + i] && Next(d, i) == Next(c, m + i);
    }
  }

  lemma JoinFree<K>(p: Slots, q: Slots, chains: map<K, Chain>, x: K, d: Chain)
    requires CountsOk(p, chains) && x in chains && |q| == |p| && forall s :: s in d ==> s in chains[x]
    requires forall s :: 0 <= s < |p| ==> q[s].refcnt == p[s].refcnt + if s in d then 1 else 0
    ensures FreeSet(q) == FreeSet(p)
  {
    forall s | 0 <= s < |p| && s in d ensures p[s].refcnt > 0 {
      assert x in Holders(chains, s);
    }
  }

  /** `q` differs from `p` in counts, and in where the last slot of `c` leads. */
  ghost predicate Relinked(p: Slots, q: Slots, c: Chain, d: Chain) {
    && c != [] && Last(c) < |p| && |p| == |q| && q[Last(c)].next == Head(d)
    && forall s :: 0 <= s < |p| ==>
         q[s].length == p[s].length && q[s].buf == p[s].buf && (s != Last(c) ==> q[s].next == p[s].next)
  }

  lemma RelinkedParts(p: Slots, q: Slots, c: Chain, d: Chain, e: Chain)
    requires Relinked(p, q, c, d)
    ensures Parts(q, e) == Parts(p, e)
    ensures Last(c) !in e && Linked(p, e) ==> Linked(q, e)
  {
    PartsFrame(p, q, e);
    hide Parts;
  }

  lemma JoinChain(p: Slots, q: Slots, c: Chain, d: Chain)
    requires |p| <= NIL && Linked(p, c) && Linked(p, d) && Relinked(p, q, c, d)
    requires forall s :: s in d ==> s !in c
    ensures Linked(q, c + d) && Parts(q, c + d) == Parts(p, c) + Parts(p, d)
  {
    hide Parts;
    assert Last(c) in c;
    RelinkedParts(p, q, c, d, c);
    RelinkedParts(p, q, c, d, d);
    LastIsElsewhere(p, c);
    forall i | 0 <= i < |c| ensures c[i] < |q| && q[c[i]].next == (if i + 1 < |c| then c[i + 1] else Head(d)) {
      assert p[c[i]].next == Next(c, i);
      if i + 1 < |c| { assert c[i] == Front(c)[i]; }
    }
    LinkedConcat(q, c, d);
    PartsConcat(q, c, d);
  }

  lemma JoinOthers<K>(p: Slots, q: Slots, chains: map<K, Chain>, b: K, e: Chain, d: Chain)
    requires ChainsOk(p, chains) && b in chains && chains[b] != [] && Linked(q, e)
    requires Relinked(p, q, chains[b], d)
    requires forall k :: k in chains && k != b ==> Last(chains[b]) !in chains[k]
    ensures ChainsOk(q, chains[b := e])
    ensures forall k :: k in chains && k != b ==> Parts(q, chains[k]) == Parts(p, chains[k])
  {
    hide Parts, Relinked;
    forall k | k in chains && k != b
      ensures Linked(q, chains[k]) && Parts(q, chains[k]) == Parts(p, chains[k])
    {
      RelinkedParts(p, q, chains[b], d, chains[k]);
    }
  }
}
