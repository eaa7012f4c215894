/** Packet buffers: reference-counted chains of slots in one fixed pool. */
module FbufPool {
  import opened FbufChains
  import opened FbufReading
  import opened FbufCuts

  /** A buffer handle, the program's FBUF. */
  class Fbuf {
    var head: nat
    var wslot: nat    // where writing goes on, NIL if writing is not allowed
    var rslot: nat
    var rpos: nat
    var length: nat

    constructor ()
      ensures head == wslot == rslot == 0xFFFF && rpos == length == 0
    {
      head, wslot, rslot, rpos, length := NIL, NIL, NIL, 0, 0;
    }

    method Reset()
      modifies this`rslot, this`rpos
      ensures rslot == head && rpos == 0
    {
      rslot := head;
      rpos := 0;
    }
  }

  class Pool {
    const slots: array<Slot>
    var free_slots: nat
    ghost var chains: map<Fbuf, Chain>   // the live buffers; a released one has no slots

    ghost function P(): Slots
      reads slots
    {
      slots[..]
    }

    ghost predicate HandleOk(h: Fbuf)
      requires h in chains
      reads this, slots, h`head, h`length
    {
      h.head == Head(chains[h]) && h.length == |ContentOf(h)|
    }

    ghost predicate Valid()
      reads this, slots, chains.Keys`head, chains.Keys`length
    {
      && Inv(P(), free_slots, chains)
      && forall h :: h in chains ==> HandleOk(h)
    }

    /** What a buffer holds, slot by slot. */
    ghost function PartsOf(h: Fbuf): seq<Part>
      requires h in chains
      reads this, slots
    {
      Parts(P(), chains[h])
    }

    /** What a buffer reads as. */
    ghost function ContentOf(h: Fbuf): seq<bv8>
      requires h in chains
      reads this, slots
    {
      Content(P(), chains[h])
    }

    /** None of the buffer's slots is on another buffer's chain. */
    ghost predicate Unshared(h: Fbuf)
      requires h in chains
      reads this, slots
    {
      UnsharedIn(P(), chains[h])
    }

    /** None of the buffer's slots is empty. */
    ghost predicate Readable(h: Fbuf)
      requires h in chains
      reads this, slots
    {
      NoneEmpty(PartsOf(h))
    }

    /** The first `n` bytes can be read. */
    ghost predicate ReadableTo(h: Fbuf, n: nat)
      requires h in chains
      reads this, slots
    {
      ClearTo(PartsOf(h), n)
    }

    /** That is what it takes to read it to its end. */
    lemma ReadableMeans(h: Fbuf)
      requires Valid() && h in chains
      ensures Readable(h) <==> ReadsToEnd(P(), chains[h])
    {
      BufferFacts(h);
      hide Inv, Linked, Distinct, ReadsToEnd, Parts;
      ReadableIff(P(), chains[h]);
    }

    /** The buffer looks as if it was only written to. */
    ghost predicate OnlyWritten(h: Fbuf)
      requires h in chains
      reads this, slots
    {
      Plain(PartsOf(h))
    }

    /** Such a buffer can be read, from its start on. */
    lemma OnlyWrittenFacts(h: Fbuf)
      requires Valid() && h in chains && OnlyWritten(h) && ContentOf(h) != []
      ensures Readable(h) && chains[h] != [] && FullBefore(PartsOf(h)) && Small(PartsOf(h))
      ensures h.rslot == h.head && h.rpos == 0 ==> ReadsAt(h, 0)
      ensures forall n: nat :: ReadableTo(h, n)
    {
      BufferFacts(h);
      hide Inv, Parts, Flat, Linked, Distinct, AllOk, Small;
      PlainNotEmpty(PartsOf(h));
      hide NoneEmpty;
      forall n: nat ensures ReadableTo(h, n) { ClearIfReadable(PartsOf(h), n); }
      assert ReadableTo(h, 1);
      CursorAtStart(P(), chains[h]);
    }

    /** The buffer may be written to, at the end of its chain. */
    ghost predicate Writable(h: Fbuf)
      requires h in chains
      reads this, slots, h`wslot
    {
      chains[h] != [] && h.wslot == Last(chains[h]) && Unshared(h)
    }

    constructor ()
      ensures Valid() && fresh(slots) && free_slots == slots.Length == 900 && chains == map[]
    {
      slots := new Slot[FBUF_SLOTS](_ => Slot(0, 0, 0, seq(SLOT_SIZE, _ => 0)));
      free_slots := FBUF_SLOTS;
      chains := map[];
      new;
      EmptyPool(P(), chains);
    }

    /** `_fbuf_newslot`: the first unreferenced slot, or NIL if there is none. */
    method NewSlot() returns (i: nat)
      requires slots.Length == FBUF_SLOTS && free_slots == |FreeSet(P())|
      modifies this`free_slots, slots
      ensures free_slots == |FreeSet(P())|
      ensures old(free_slots) == 0 ==> i == NIL && P() == old(P()) && free_slots == 0
      ensures old(free_slots) > 0 ==> i < FBUF_SLOTS && old(P())[i].refcnt == 0
      ensures old(free_slots) > 0 ==> forall s :: 0 <= s < i ==> old(P())[s].refcnt > 0
      ensures old(free_slots) > 0 ==> P() == old(P())[i := Fresh(old(P())[i])] && free_slots == old(free_slots) - 1
    {
      i := 0;
      while i < FBUF_SLOTS
        invariant i <= FBUF_SLOTS
        invariant forall s :: 0 <= s < i ==> slots[s].refcnt > 0
      {
        if slots[i].refcnt == 0 {
          FreeSetChange(P(), i, Fresh(slots[i]));
          slots[i] := Slot(1, 0, NIL, slots[i].buf);
          assert i in FreeSet(old(P()));
          free_slots := free_slots - 1;
          return;
        }
        i := i + 1;
      }
      assert FreeSet(P()) == {};
      i := NIL;
    }

    /** `fbuf_new`. On an exhausted pool the buffer stays without a slot. */
    method New(b: Fbuf)
      requires Valid() && (b in chains ==> chains[b] == [])
      modifies this, slots, b
      ensures Valid() && chains.Keys == old(chains.Keys) + {b}
      ensures old(free_slots) > 0 ==> PartsOf(b) == [[]] && Writable(b) && free_slots == old(free_slots) - 1
      ensures old(free_slots) == 0 ==> PartsOf(b) == [] && b.wslot == NIL && free_slots == 0
      ensures b.rslot == b.head && b.rpos == 0
      ensures forall h :: h in old(chains) && h != b ==> chains[h] == old(chains)[h] && PartsOf(h) == old(PartsOf(h))
    {
      hide Inv, FreeSet, Parts, Flat, UnsharedIn, Linked, Fresh;
      ghost var p, free := P(), free_slots;
      InvFree(p, free, chains);
      var s := NewSlot();
      if s != NIL {
        NewInv(p, free, chains, b, s);
        chains := chains[b := [s]];
      } else {
        chains := chains[b := []];
        AddEmpty(p, free, old(chains), b);
      }
      NothingHeld();
      StartAt(b, s);
    }

    /** The fields of a buffer that begins at slot `s` and is empty. */
    method StartAt(b: Fbuf, s: nat)
      requires Inv(P(), free_slots, chains) && b in chains && forall h :: h in chains && h != b ==> HandleOk(h)
      requires s == Head(chains[b]) && ContentOf(b) == []
      modifies b
      ensures Valid() && b.head == b.wslot == b.rslot == s && b.rpos == 0
    {
      hide Inv, Parts, Flat;
      b.head, b.wslot, b.rslot := s, s, s;
      b.rpos := 0;
      b.length := 0;
    }
  
    /** One reference less; the slot is free when it was the last. */
    method DropRef(b: nat)
      requires slots.Length == FBUF_SLOTS && free_slots == |FreeSet(P())| && b < FBUF_SLOTS
      modifies this`free_slots, slots
      ensures P() == old(P())[b := Dec(old(slots[b]))] && free_slots == |FreeSet(P())|
    {
      hide FreeSet;
      FreeSetChange(P(), b, Dec(slots[b]));
      if slots[b].refcnt > 0 {
        slots[b] := slots[b].(refcnt := slots[b].refcnt - 1);
        if slots[b].refcnt == 0 {
          free_slots := free_slots + 1;
        }
      }
    }

    /** The loop of `fbuf_release`. */
    method DropRefs(head: nat, ghost c: Chain)
      requires slots.Length == FBUF_SLOTS && free_slots == |FreeSet(P())|
      requires Linked(P(), c) && Distinct(c) && head == Head(c)
      modifies this`free_slots, slots
      ensures P() == DecAll(old(P()), c) && free_slots == |FreeSet(P())|
    {
      hide FreeSet, DecAll, Distinct, Linked;
      ghost var p, i := P(), 0;
      NoneChanged(p);
      assert c[..0] == [];
      var b := head;
      while b != NIL
        invariant 0 <= i <= |c| && b == (if i < |c| then c[i] else NIL)
        invariant P() == DecAll(p, c[..i]) && free_slots == |FreeSet(P())|
        decreases |c| - i
      {
        WalkStep(p, c, i);
        DecOneMore(p, c, i);
        assert P()[b] == p[b];
        DropRef(b);
        b := slots[b].next;
        i := i + 1;
      }
      if i < |c| { WalkStep(p, c, i); }
      assert c[..i] == c;
    }

    /** `fbuf_release`. Releasing twice does nothing. */
    method Release(bb: Fbuf)
      requires Valid() && bb in chains
      modifies this, slots, bb
      ensures Valid() && chains == old(chains)[bb := []]
      ensures ContentOf(bb) == [] && bb.head == bb.wslot == bb.rslot == NIL && bb.rpos == 0
      ensures forall h :: h in chains && h != bb ==> PartsOf(h) == old(PartsOf(h))
    {
      hide Inv, FreeSet, Parts, Flat, DecAll, Linked, Distinct;
      ghost var p, free, c := P(), free_slots, chains[bb];
      DropInv(p, free, chains, bb);
      ChainFacts(p, free, chains, bb);
      DropRefs(bb.head, c);
      chains := chains[bb := []];
      EmptyChain(P());
      bb.head, bb.wslot, bb.rslot := NIL, NIL, NIL;
      bb.rpos, bb.length := 0, 0;
    }

    /** Releasing every buffer, in whatever order, gives every slot back. */
    method ReleaseAll(order: seq<Fbuf>)
      requires Valid() && forall h :: h in chains ==> h in order
      requires forall h :: h in order ==> h in chains
      modifies this, slots, set h | h in order
      ensures Valid() && free_slots == 900 && forall h :: h in chains ==> chains[h] == []
    {
      hide Inv, Parts, Flat;
      var i := 0;
      while i < |order|
        invariant i <= |order| && Valid() && chains.Keys == old(chains.Keys)
        invariant forall k :: 0 <= k < i ==> chains[order[k]] == []
      {
        Release(order[i]);
        i := i + 1;
      }
      forall h | h in chains ensures chains[h] == [] {
        var k :| 0 <= k < |order| && order[k] == h;
      }
      AllReleased(P(), free_slots, chains);
    }

    /** The loop of `fbuf_newRef`. */
    method AddRefs(head: nat, ghost c: Chain)
      requires slots.Length == FBUF_SLOTS
      requires Linked(P(), c) && Distinct(c) && head == Head(c)
      modifies slots
      ensures P() == IncAll(old(P()), c)
    {
      hide IncAll, Distinct, Linked;
      ghost var p, i := P(), 0;
      NoneChanged(p);
      assert c[..0] == [];
      var b := head;
      while b != NIL
        invariant 0 <= i <= |c| && b == (if i < |c| then c[i] else NIL)
        invariant P() == IncAll(p, c[..i])
        decreases |c| - i
      {
        WalkStep(p, c, i);
        IncOneMore(p, c, i);
        assert P()[b] == p[b];
        slots[b] := slots[b].(refcnt := slots[b].refcnt + 1);
        b := slots[b].next;
        i := i + 1;
      }
      if i < |c| { WalkStep(p, c, i); }
      assert c[..i] == c;
    }

    /** `fbuf_newRef`: another handle on the same chain. */
    method NewRef(bb: Fbuf) returns (nb: Fbuf)
      requires Valid() && bb in chains
      modifies this, slots
      ensures Valid() && fresh(nb) && chains == old(chains)[nb := old(chains)[bb]]
      ensures free_slots == old(free_slots)
      ensures PartsOf(nb) == old(PartsOf(bb)) && nb.wslot == bb.wslot && nb.rslot == nb.head && nb.rpos == 0
      ensures forall h :: h in old(chains) ==> PartsOf(h) == old(PartsOf(h))
    {
      hide Inv, FreeSet, Parts, Flat, IncAll, Linked, Distinct;
      ghost var p, free, c := P(), free_slots, chains[bb];
      nb := new Fbuf();
      ShareInv(p, free, chains, bb, nb);
      ChainFacts(p, free, chains, bb);
      AddRefs(bb.head, c);
      chains := chains[nb := c];
      nb.head := bb.head;
      nb.length := bb.length;
      nb.Reset();
      nb.wslot := bb.wslot;
    }
  
    /** How many more bytes a buffer can take. */
    ghost function Room(h: Fbuf): int
      requires h in chains
      reads this, slots
    {
      if chains[h] == [] then 0 else SLOT_SIZE * free_slots + SLOT_SIZE - |PartsOf(h)[|chains[h]| - 1]|
    }

    /** `fbuf_putChar`. On an exhausted pool the byte is dropped. */
    method PutChar(b: Fbuf, c: bv8)
      requires Valid() && b in chains && (b.wslot == NIL || Writable(b))
      modifies this, slots, b`wslot, b`length
      ensures Valid() && chains.Keys == old(chains.Keys)
      ensures old(b.wslot) == NIL ==> P() == old(P()) && chains == old(chains) && b.wslot == NIL && free_slots == old(free_slots)
      ensures old(Writable(b)) ==> Writable(b) && old(chains[b]) <= chains[b]
      ensures old(Writable(b)) ==>
                var l := old(PartsOf(b));
                var full := |l[|l| - 1]| == SLOT_SIZE;
                && PartsOf(b) == (if full && old(free_slots) == 0 then l else AppendByte(l, c))
                && free_slots == if full && old(free_slots) > 0 then old(free_slots) - 1 else old(free_slots)
      ensures forall h :: h in chains && h != b ==> chains[h] == old(chains[h]) && PartsOf(h) == old(PartsOf(h))
    {
      if b.wslot == NIL {
        return;
      }
      LastPart(b);
      hide Inv, Parts, Flat;
      if slots[b.wslot].length == SLOT_SIZE {
        PutInNewSlot(b, c);
      } else {
        PutInSlot(b, c);
      }
    }

    lemma LastPart(b: Fbuf)
      requires Valid() && b in chains && Writable(b)
      ensures slots.Length == FBUF_SLOTS && forall s :: 0 <= s < FBUF_SLOTS ==> P()[s].Ok()
      ensures b.wslot < FBUF_SLOTS && P()[b.wslot].refcnt == 1
      ensures |PartsOf(b)[|chains[b]| - 1]| == slots[b.wslot].length <= SLOT_SIZE
    {
      AllSlotsOk(P(), free_slots, chains);
      BufferFacts(b);
      assert b.wslot in chains[b];
    }

    /** A byte into the last slot, which has room for it. */
    method PutInSlot(b: Fbuf, c: bv8)
      requires Valid() && b in chains && Writable(b)
      requires b.wslot < FBUF_SLOTS == slots.Length && slots[b.wslot].length < SLOT_SIZE == |slots[b.wslot].buf|
      modifies slots, b`length
      ensures Valid() && Writable(b) && PartsOf(b) == AppendByte(old(PartsOf(b)), c)
      ensures forall h :: h in chains && h != b ==> PartsOf(h) == old(PartsOf(h))
    {
      hide Inv, FreeSet, Parts, Flat, Linked, Distinct, Small, AllOk;
      ghost var p, free, ch := P(), free_slots, chains[b];
      LastPart(b);
      BufferFacts(b);
      var pos := slots[b.wslot].length;
      var x := slots[b.wslot].(buf := slots[b.wslot].buf[pos := c], length := pos + 1);
      RewriteLastInv(p, free, chains, b, x);
      PartsAtEnd(p, ch);
      assert Bytes(x) == Bytes(p[b.wslot]) + [c];
      AppendHolds(Parts(p, ch), c);
      slots[b.wslot] := x;
      assert P() == p[b.wslot := x];
      b.length := b.length + 1;
    }

    /** A byte into a further slot, if there is one. */
    method PutInNewSlot(b: Fbuf, c: bv8)
      requires Valid() && b in chains && Writable(b)
      requires b.wslot < FBUF_SLOTS == slots.Length && slots[b.wslot].length == SLOT_SIZE
      modifies this, slots, b`wslot, b`length
      ensures Valid() && chains.Keys == old(chains.Keys) && Writable(b)
      ensures old(free_slots) == 0 ==> P() == old(P()) && chains == old(chains) && free_slots == 0
      ensures old(free_slots) > 0 ==>
                && PartsOf(b) == AppendByte(old(PartsOf(b)), c)
                && chains[b] == old(chains[b]) + [b.wslot] && free_slots == old(free_slots) - 1
      ensures forall h :: h in chains && h != b ==> chains[h] == old(chains[h]) && PartsOf(h) == old(PartsOf(h))
    {
      hide Inv, FreeSet, Parts, Flat, Linked, Distinct, Small, AllOk, UnsharedIn;
      ghost var p, free, ch, w := P(), free_slots, chains[b], b.wslot;
      LastPart(b);
      BufferFacts(b);
      var newslot := AppendSlot(b.wslot, c);
      if newslot == NIL {
        return;
      }
      FreeSlotIsOk(p, free, chains, newslot);
      ghost var x := OneByteSlot(p[newslot], c);
      ExtendInv(p, free, chains, b, newslot, x, P());
      AppendHolds(Parts(p, ch), c);
      OneByte(p[newslot], c);
      ExtendUnshared(p, ch, newslot, x, P());
      b.wslot := newslot;
      b.length := b.length + 1;
      chains := chains[b := ch + [newslot]];
    }

    /** A byte put where the buffer can be written to, if there is room for it. */
    method PutByte(b: Fbuf, c: bv8)
      requires Valid() && b in chains && Writable(b)
      modifies this, slots, b`wslot, b`length
      ensures Valid() && chains.Keys == old(chains.Keys) && Writable(b)
      ensures ContentOf(b) == old(ContentOf(b)) + Fit([c], old(Room(b)))
      ensures 0 <= Room(b) == old(Room(b)) - |Fit([c], old(Room(b)))|
      ensures (old(OnlyWritten(b)) ==> OnlyWritten(b)) && free_slots <= old(free_slots)
      ensures forall h :: h in chains && h != b ==> chains[h] == old(chains[h]) && PartsOf(h) == old(PartsOf(h))
    {
      hide Valid, Inv, Parts, Flat, Plain, AppendByte;
      LastPart(b);
      AppendHolds(PartsOf(b), c);
      AppendRoom(PartsOf(b), c);
      PutChar(b, c);
    }

    /** `fbuf_write`: as much of the data as there is room for. */
    method Write(b: Fbuf, data: seq<bv8>)
      requires Valid() && b in chains && (b.wslot == NIL || Writable(b))
      modifies this, slots, b`wslot, b`length
      ensures Valid() && chains.Keys == old(chains.Keys)
      ensures old(b.wslot) == NIL ==> P() == old(P()) && chains == old(chains) && b.wslot == NIL && free_slots == old(free_slots)
      ensures old(Writable(b)) ==>
                && Writable(b) && ContentOf(b) == old(ContentOf(b)) + Fit(data, old(Room(b)))
                && 0 <= Room(b) == old(Room(b)) - |Fit(data, old(Room(b)))|
      ensures old(Writable(b)) && old(OnlyWritten(b)) ==> OnlyWritten(b)
      ensures free_slots <= old(free_slots)
      ensures forall h :: h in chains && h != b ==> chains[h] == old(chains[h]) && PartsOf(h) == old(PartsOf(h))
    {
      if b.wslot == NIL {
        WriteNothing(b, data);
      } else {
        WriteSome(b, data);
      }
    }

    method WriteNothing(b: Fbuf, data: seq<bv8>)
      requires Valid() && b in chains && b.wslot == NIL
      modifies this, slots, b`wslot, b`length
      ensures Valid() && P() == old(P()) && chains == old(chains) && b.wslot == NIL && free_slots == old(free_slots)
    {
      var i := 0;
      while i < |data|
        invariant Valid() && P() == old(P()) && chains == old(chains) && b.wslot == NIL && free_slots == old(free_slots)
      {
        hide Inv, Parts, Flat;
        PutChar(b, data[i]);
        i := i + 1;
      }
    }

    method WriteSome(b: Fbuf, data: seq<bv8>)
      requires Valid() && b in chains && Writable(b)
      modifies this, slots, b`wslot, b`length
      ensures Valid() && chains.Keys == old(chains.Keys) && Writable(b) && free_slots <= old(free_slots)
      ensures ContentOf(b) == old(ContentOf(b)) + Fit(data, old(Room(b)))
      ensures 0 <= Room(b) == old(Room(b)) - |Fit(data, old(Room(b)))|
      ensures old(OnlyWritten(b)) ==> OnlyWritten(b)
      ensures forall h :: h in chains && h != b ==> chains[h] == old(chains[h]) && PartsOf(h) == old(PartsOf(h))
    {
      hide Inv, Parts, Flat, Writable, Plain, Room, Valid, Fit;
      RoomIsNatural(b);
      ghost var room := Room(b);
      FitNothing(room);
      var i := 0;
      while i < |data|
        invariant i <= |data| && Valid() && chains.Keys == old(chains.Keys) && Writable(b) && free_slots <= old(free_slots)
        invariant ContentOf(b) == old(ContentOf(b)) + Fit(data[..i], room) && 0 <= Room(b) == room - |Fit(data[..i], room)|
        invariant old(OnlyWritten(b)) ==> OnlyWritten(b)
        invariant forall h :: h in chains && h != b ==> chains[h] == old(chains[h]) && PartsOf(h) == old(PartsOf(h))
      {
        FitConcat(data[..i], [data[i]], room);
        assert data[..i + 1] == data[..i] + [data[i]];
        PutByte(b, data[i]);
        i := i + 1;
      }
      assert data[..i] == data;
    }

    lemma RoomIsNatural(b: Fbuf)
      requires Valid() && b in chains && Writable(b)
      ensures chains[b] != [] && Room(b) >= 0
    {
      LastPart(b);
    }

    /** Links a further slot with one byte in it to slot `w`. */
    method AppendSlot(w: nat, c: bv8) returns (newslot: nat)
      requires w < FBUF_SLOTS == slots.Length && slots[w].refcnt > 0
      requires free_slots == |FreeSet(P())| && forall s :: 0 <= s < FBUF_SLOTS ==> P()[s].Ok()
      modifies this`free_slots, slots
      ensures old(free_slots) == 0 ==> newslot == NIL && P() == old(P()) && free_slots == 0
      ensures old(free_slots) > 0 ==>
                && newslot < FBUF_SLOTS && old(P())[newslot].refcnt == 0 && free_slots == old(free_slots) - 1
                && P() == old(P())[newslot := OneByteSlot(old(P())[newslot], c)][w := old(P())[w].(next := newslot)]
    {
      hide FreeSet;
      ghost var p := P();
      newslot := NewSlot();
      if newslot != NIL {
        assert p[newslot].Ok();
        slots[w] := slots[w].(next := newslot);
        slots[newslot] := slots[newslot].(buf := slots[newslot].buf[0 := c], length := slots[newslot].length + 1);
        assert P() == p[newslot := OneByteSlot(p[newslot], c)][w := p[w].(next := newslot)];
      }
    }

    /** Walks to the end of a chain; `prev` is the slot before the last, or the last of a one-slot chain. */
    method FindLast(head: nat, ghost c: Chain) returns (last: nat, prev: nat)
      requires slots.Length == FBUF_SLOTS && c != [] && Linked(P(), c) && head == c[0]
      ensures last == Last(c) && prev == if |c| > 1 then Last(Front(c)) else last
    {
      last, prev := head, head;
      ghost var i := 0;
      while slots[last].next != NIL
        invariant 0 <= i < |c| && last == c[i] && prev == (if i > 0 then c[i - 1] else last)
        decreases |c| - i
      {
        assert slots[last].next == P()[c[i]].next == Next(c, i);
        prev := last;
        last := slots[last].next;
        i := i + 1;
      }
      assert P()[c[i]].next == Next(c, i);
    }

    /** `fbuf_removeLast`. The last slot goes back to the pool when it gets empty, unless it
        is the only one; the write position is then left where it was. */
    method RemoveLast(x: Fbuf)
      requires Valid() && x in chains && chains[x] != []
      requires Last(chains[x]) < slots.Length && slots[Last(chains[x])].refcnt == 1 && slots[Last(chains[x])].length > 0
      modifies this, slots, x`length
      ensures Valid() && chains.Keys == old(chains.Keys)
      ensures old(PartsOf(x)) != [] && old(PartsOf(x))[old(|chains[x]|) - 1] != [] && PartsOf(x) == DropByte(old(PartsOf(x)))
      ensures old(|chains[x]| > 1 && slots[Last(chains[x])].length == 1) ==>
                chains[x] == old(Front(chains[x])) && free_slots == old(free_slots) + 1
      ensures old(|chains[x]| == 1 || slots[Last(chains[x])].length > 1) ==>
                chains[x] == old(chains[x]) && free_slots == old(free_slots)
      ensures old(Writable(x)) ==>
                (Writable(x) <==> old(|chains[x]| == 1 || slots[Last(chains[x])].length > 1)) && x.wslot == old(x.wslot)
      ensures (old(Unshared(x)) ==> Unshared(x)) && (old(OnlyWritten(x)) ==> OnlyWritten(x))
      ensures forall h :: h in chains && h != x ==> chains[h] == old(chains[h]) && PartsOf(h) == old(PartsOf(h))
    {
      hide Inv, FreeSet, Parts, Flat, Linked, Distinct, Small, AllOk, Plain;
      ghost var p, free, c := P(), free_slots, chains[x];
      BufferFacts(x);
      var xlast, prev := FindLast(x.head, c);
      assert xlast in c;
      PartsAtEnd(p, c);
      DropHolds(Parts(p, c));
      ghost var y := p[xlast].(length := p[xlast].length - 1);
      if slots[xlast].length == 1 && prev != xlast {
        FreeLastSlot(x, xlast, prev);
      } else {
        if |c| > 1 { FrontIsNotLast(p, c); }
        RewriteLastInv(p, free, chains, x, y);
        slots[xlast] := slots[xlast].(length := slots[xlast].length - 1);
        assert P() == p[xlast := y];
        assert Bytes(y) == Bytes(p[xlast])[..|Bytes(p[xlast])| - 1];
      }
      x.length := x.length - 1;
    }

    /** The last slot, which has one byte left, goes back to the pool. */
    method FreeLastSlot(x: Fbuf, xlast: nat, prev: nat)
      requires Inv(P(), free_slots, chains) && x in chains && |chains[x]| > 1
      requires xlast == Last(chains[x]) < slots.Length && prev == Last(Front(chains[x])) < slots.Length && xlast != prev
      requires slots[xlast].refcnt == 1 && slots[xlast].length == 1
      modifies this, slots
      ensures Inv(P(), free_slots, chains) && chains == old(chains)[x := old(Front(chains[x]))]
      ensures free_slots == old(free_slots) + 1 && PartsOf(x) == old(Parts(P(), Front(chains[x])))
      ensures old(Unshared(x)) ==> Unshared(x)
      ensures forall h :: h in chains && h != x ==> PartsOf(h) == old(PartsOf(h))
    {
      ghost var p, free, c := P(), free_slots, chains[x];
      hide Inv, FreeSet, Parts, Flat, Linked, Distinct, UnsharedIn;
      ghost var q := p[xlast := p[xlast].(length := 0, refcnt := 0)][prev := p[prev].(next := NIL)];
      DropLastInv(p, free, chains, x, q);
      FrontUnshared(p, q, free, chains, x);
      Unlink(xlast, prev);
      chains := chains[x := Front(c)];
    }

    method Unlink(xlast: nat, prev: nat)
      requires xlast < slots.Length && prev < slots.Length && xlast != prev
      requires slots[xlast].refcnt == 1 && slots[xlast].length == 1
      modifies this`free_slots, slots
      ensures P() == old(P()[xlast := P()[xlast].(length := 0, refcnt := 0)][prev := P()[prev].(next := NIL)])
      ensures free_slots == old(free_slots) + 1
    {
      slots[xlast] := slots[xlast].(length := 0);
      slots[xlast] := slots[xlast].(refcnt := slots[xlast].refcnt - 1);
      free_slots := free_slots + 1;
      slots[prev] := slots[prev].(next := NIL);
    }

    // ---- Reading ------------------------------------------------------------------------------

    /** The next read returns byte `k` of the contents; at the end the position is NIL. */
    ghost predicate ReadsAt(h: Fbuf, k: nat)
      requires h in chains
      reads this, slots, h`rslot, h`rpos
    {
      Cursor(P(), chains[h], h.rslot, h.rpos, k)
    }

    lemma BufferFacts(b: Fbuf)
      requires Valid() && b in chains
      ensures slots.Length == FBUF_SLOTS && Linked(P(), chains[b]) && Distinct(chains[b])
      ensures forall s :: s in chains[b] ==> s < |P()| && P()[s].refcnt > 0 && P()[s].Ok()
      ensures Small(PartsOf(b)) && AllOk(P(), chains[b]) && |PartsOf(b)| == |chains[b]|
      ensures b.length == |ContentOf(b)| && b.head == Head(chains[b]) && Inv(P(), free_slots, chains)
    {
      ChainFacts(P(), free_slots, chains, b);
    }

    lemma SlotsFact()
      requires Valid()
      ensures slots.Length == FBUF_SLOTS && free_slots == |FreeSet(P())| && forall s :: 0 <= s < FBUF_SLOTS ==> P()[s].Ok()
    {
      AllSlotsOk(P(), free_slots, chains);
    }

    /** `fbuf_getChar`. Anywhere inside the slots it reads what is there and moves on; at byte
        `k` of a buffer's contents it reads that byte. */
    method GetChar(b: Fbuf, ghost k: nat) returns (x: bv8)
      requires Valid() && b in chains
      requires (ReadsAt(b, k) && k < |ContentOf(b)|) || (b.rslot < slots.Length && b.rpos < SLOT_SIZE)
      modifies b`rslot, b`rpos
      ensures Valid() && old(b.rslot) < slots.Length && old(b.rpos) < SLOT_SIZE && x == slots[old(b.rslot)].buf[old(b.rpos)]
      ensures (b.rslot, b.rpos) == NextRead(P(), (old(b.rslot), old(b.rpos)))
      ensures old(ReadsAt(b, k)) && k < |ContentOf(b)| ==> x == ContentOf(b)[k] && (ReadableTo(b, k + 2) ==> ReadsAt(b, k + 1))
    {
      hide Valid, Inv, Linked, Distinct, Cursor, Parts, Flat, ClearTo, AllOk, Small;
      BufferFacts(b);
      SlotsFact();
      if ReadsAt(b, k) && k < |ContentOf(b)| {
        CursorStep(P(), chains[b], b.rslot, b.rpos, k);
      }
      x := slots[b.rslot].buf[b.rpos];
      if b.rpos == slots[b.rslot].length - 1 {
        b.rslot := slots[b.rslot].next;
        b.rpos := 0;
      } else {
        b.rpos := b.rpos + 1;
      }
    }

    /** `fbuf_rseek`. It finds every position but the end of a slot: there it stays in the
        slot, at its end, and the next read is of whatever lies behind the slot's bytes. */
    method Rseek(b: Fbuf, pos: nat)
      requires Valid() && b in chains && chains[b] != []
      modifies b`rslot, b`rpos
      ensures Valid()
      ensures pos > b.length ==> b.rslot == old(b.rslot) && b.rpos == old(b.rpos)
      ensures 0 < pos <= b.length ==>
                && b.rslot < slots.Length
                && (b.rpos == slots[b.rslot].length <==> AtSlotEnd(P(), chains[b], pos))
                && (!AtSlotEnd(P(), chains[b], pos) ==> ReadsAt(b, pos))
      ensures pos == 0 ==> b.rslot == b.head && b.rpos == 0
    {
      hide Valid, Inv, Linked, Distinct, Parts, Flat, Small, Cursor, AtSlotEnd;
      if pos > b.length {
        return;
      }
      ghost var c := chains[b];
      BufferFacts(b);
      b.Reset();
      var i := Seek(b, pos, c);
      b.rpos := i;
    }

    /** The loop of `fbuf_rseek`. */
    method Seek(b: Fbuf, pos: nat, ghost c: Chain) returns (i: nat)
      requires Linked(P(), c) && c != [] && b.rslot == c[0] && pos <= |Content(P(), c)|
      requires forall s :: s in c ==> s < |P()| && P()[s].Ok()
      modifies b`rslot
      ensures pos == 0 ==> i == 0 && b.rslot == old(b.rslot)
      ensures pos > 0 ==>
                && b.rslot < slots.Length
                && (i == slots[b.rslot].length <==> AtSlotEnd(P(), c, pos))
                && (!AtSlotEnd(P(), c, pos) ==> Cursor(P(), c, b.rslot, i, pos))
    {
      hide Linked, Content, Cursor, AtSlotEnd;
      ghost var p := P();
      i := pos;
      ghost var j := 0;
      NoContent(p, c);
      SlotFacts(p, c, 0);
      while i > slots[b.rslot].length
        invariant 0 <= j < |c| && b.rslot == c[j] < slots.Length && i + |Content(p, c[..j])| == pos
        invariant j > 0 ==> i > 0
        decreases |c| - j
      {
        SlotFacts(p, c, j);
        i := i - slots[b.rslot].length;
        b.rslot := slots[b.rslot].next;
        j := j + 1;
        SlotFacts(p, c, j);
      }
      SlotFacts(p, c, j);
      if pos > 0 { SeekLands(p, c, j, i); }
    }

    /** The copying loop of `_split`. */
    method CopyTail(islot: nat, newslot: nat, pos: nat)
      requires islot < slots.Length && newslot < slots.Length && islot != newslot
      requires slots[islot].Ok() && |slots[newslot].buf| == SLOT_SIZE && pos <= slots[islot].length
      modifies slots
      ensures P() == old(P())[newslot := old(P())[newslot].(buf := P()[newslot].buf)] && |slots[newslot].buf| == SLOT_SIZE
      ensures slots[newslot].buf[..slots[islot].length - pos] == slots[islot].buf[pos..slots[islot].length]
    {
      ghost var p := P();
      var i := 0;
      while i < slots[islot].length - pos
        invariant 0 <= i <= slots[islot].length - pos
        invariant P() == p[newslot := p[newslot].(buf := P()[newslot].buf)] && |P()[newslot].buf| == SLOT_SIZE
        invariant slots[islot] == p[islot]
        invariant P()[newslot].buf[..i] == p[islot].buf[pos..pos + i]
      {
        CopyOne(slots[newslot].buf, slots[islot].buf, pos, i);
        slots[newslot] := slots[newslot].(buf := slots[newslot].buf[i := slots[islot].buf[pos + i]]);
        i := i + 1;
      }
    }

    /** The work of `_split` inside a slot. */
    method SplitSlot(islot: nat, pos: nat) returns (newslot: nat)
      requires islot < FBUF_SLOTS == slots.Length && slots[islot].refcnt > 0 && free_slots == |FreeSet(P())| > 0
      requires 0 < pos <= slots[islot].length && forall s :: 0 <= s < FBUF_SLOTS ==> P()[s].Ok()
      modifies this`free_slots, slots
      ensures newslot < FBUF_SLOTS && old(P())[newslot].refcnt == 0 && free_slots == old(free_slots) - 1
      ensures SplitSlots(old(P())[islot], pos, newslot, P()[islot], P()[newslot])
      ensures P() == old(P())[newslot := P()[newslot]][islot := P()[islot]]
    {
      hide FreeSet;
      ghost var p := P();
      newslot := NewSlot();
      assert p[islot].Ok() && p[newslot].Ok();
      slots[newslot] := slots[newslot].(next := slots[islot].next);
      slots[islot] := slots[islot].(next := newslot);
      slots[newslot] := slots[newslot].(refcnt := slots[islot].refcnt);
      CopyTail(islot, newslot, pos);
      slots[newslot] := slots[newslot].(length := slots[islot].length - pos);
      slots[islot] := slots[islot].(length := pos);
    }

    /** `_split`: cuts a slot in use in two and returns the second half; at position 0 it
        returns the slot after it. No buffer holds other bytes than before, but those through
        the slot can still be read to their end only if it was cut before the end of its bytes. */
    method Split(islot: nat, pos: nat) returns (newslot: nat)
      requires Valid() && islot < FBUF_SLOTS == slots.Length && slots[islot].refcnt > 0
      requires pos == 0 || (free_slots > 0 && pos <= slots[islot].length)
      modifies this, slots
      ensures chains.Keys == old(chains.Keys) && forall h :: h in chains ==> ContentOf(h) == old(ContentOf(h))
      ensures pos == 0 ==> newslot == slots[islot].next && P() == old(P()) && chains == old(chains) && free_slots == old(free_slots)
      ensures pos > 0 ==>
                && newslot < FBUF_SLOTS && old(P())[newslot].refcnt == 0
                && SplitSlots(old(P())[islot], pos, newslot, P()[islot], P()[newslot])
                && TwoChanged(old(P()), P(), newslot, P()[newslot], islot, P()[islot])
                && chains == InsertAll(old(chains), islot, newslot) && free_slots == old(free_slots) - 1
                && forall h :: h in chains ==> PartsOf(h) == old(PartsSplit(PartsOf(h), chains[h], islot, pos))
      ensures Kept(old(chains), chains, islot)
      ensures forall h :: h in chains && (pos == 0 || islot !in old(chains[h])) ==> PartsOf(h) == old(PartsOf(h))
      ensures forall h :: h in chains ==>
                (Readable(h) <==> old(Readable(h)) && (pos == 0 || islot !in old(chains[h]) || pos < old(slots[islot].length)))
      ensures Valid()
    {
      hide Valid, Inv, Parts, PartsSplit, Flat, NoneEmpty, SplitSlots, TwoChanged, InsertAll, Kept;
      if pos == 0 {
        AllKept(chains, islot);
        return slots[islot].next;
      }
      ghost var all := chains;
      SplitFacts(islot, pos);
      newslot := SplitInside(islot, pos);
      InsertKept(all, islot, newslot);
    }

    lemma SplitFacts(islot: nat, pos: nat)
      requires Valid() && islot < slots.Length && 0 < pos <= slots[islot].length
      ensures forall h :: h in chains ==>
                (NoneEmpty(PartsSplit(PartsOf(h), chains[h], islot, pos)) <==>
                   Readable(h) && (islot !in chains[h] || pos < slots[islot].length))
      ensures forall h :: h in chains && islot !in chains[h] ==> PartsSplit(PartsOf(h), chains[h], islot, pos) == PartsOf(h)
    {
      InvFree(P(), free_slots, chains);
      SlotsFact();
      hide Inv, Parts, NoneEmpty, InTwo;
      SplitReadable(P(), chains, islot, pos);
    }

    /** `_split` inside a slot. */
    method SplitInside(islot: nat, pos: nat) returns (newslot: nat)
      requires Valid() && islot < FBUF_SLOTS == slots.Length && slots[islot].refcnt > 0
      requires free_slots > 0 && 0 < pos <= slots[islot].length
      modifies this, slots
      ensures Valid() && chains.Keys == old(chains.Keys) && forall h :: h in chains ==> ContentOf(h) == old(ContentOf(h))
      ensures newslot < FBUF_SLOTS && old(P())[newslot].refcnt == 0
      ensures SplitSlots(old(P())[islot], pos, newslot, P()[islot], P()[newslot])
      ensures TwoChanged(old(P()), P(), newslot, P()[newslot], islot, P()[islot])
      ensures chains == InsertAll(old(chains), islot, newslot) && free_slots == old(free_slots) - 1
      ensures forall h :: h in chains ==> PartsOf(h) == old(PartsSplit(PartsOf(h), chains[h], islot, pos))
    {
      hide Inv, FreeSet, Parts, PartsSplit, Flat, Linked, SplitSlots, TwoChanged, Insert;
      ghost var p, free := P(), free_slots;
      SlotsFact();
      newslot := SplitSlot(islot, pos);
      ghost var low, high := P()[islot], P()[newslot];
      SplitInv(p, free, chains, islot, newslot, pos, low, high, P());
      TwoUpdates(p, newslot, high, islot, low);
      HeadsStay(chains, islot, newslot);
      chains := InsertAll(chains, islot, newslot);
    }

    /** The walk of `fbuf_connect` to the slot that holds `pos`. */
    method FindSlot(head: nat, pos: nat, ghost c: Chain) returns (islot: nat, p: nat)
      requires slots.Length == FBUF_SLOTS && Linked(P(), c) && head == Head(c) && AllOk(P(), c)
      requires 0 < pos <= |Content(P(), c)| && Small(Parts(P(), c))
      ensures var (j, r) := Walk(Parts(P(), c), pos); j < |c| && islot == c[j] && p == r
    {
      hide Parts, Flat, Linked, AllOk, Small;
      ghost var l, k := Parts(P(), c), 0;
      WalkStarts(l, pos);
      islot := head;
      p := pos;
      while p >= SLOT_SIZE
        invariant 0 <= k && WalkFrom(l, pos, k, p)
        invariant p > 0 ==> k < |c| && islot == c[k]
        invariant p == 0 ==> 0 < k <= |c| && islot == c[k - 1]
        decreases p, |c| - k
      {
        WalkOn(l, pos, k, p);
        SlotAt(P(), c, k);
        p := p - slots[islot].length;
        if p > 0 {
          islot := slots[islot].next;
        }
        k := k + 1;
      }
      WalkEnds(l, pos, k, p);
    }

    /** The second half of `fbuf_connect`: the last slot of `b` is linked to `s`, the first
        slot of the tail `d` of `x`, and the tail's slots are counted once more. */
    method LinkTail(b: Fbuf, x: Fbuf, ghost d: Chain, ghost m: nat, s: nat)
      requires Inv(P(), free_slots, chains) && b in chains && x in chains && b != x && b.head == Head(chains[b])
      requires Unshared(b) && chains[b] != []
      requires m <= |chains[x]| && d == chains[x][m..] && s == Head(d)
      modifies this`chains, slots
      ensures Inv(P(), free_slots, chains) && chains == old(chains)[b := old(chains[b]) + d]
      ensures PartsOf(b) == old(PartsOf(b)) + old(Parts(P(), d))
      ensures forall h :: h in chains && h != b ==> PartsOf(h) == old(PartsOf(h))
      ensures forall h :: h in chains && h != b && h != x && old(Unshared(h)) ==> Unshared(h)
    {
      ghost var p, cb := P(), chains[b];
      ChainFacts(p, free_slots, chains, b);
      hide Inv, FreeSet, Parts, Flat, Linked, IncAll, Distinct, UnsharedIn;
      var xlast, _ := FindLast(b.head, cb);
      assert xlast in cb;
      ghost var p1 := p[xlast := p[xlast].(next := s)];
      LinkFacts(p, free_slots, chains, b, x, d, m, p1);
      slots[xlast] := slots[xlast].(next := s);
      assert P() == p1;
      AddRefs(slots[xlast].next, d);
      chains := chains[b := cb + d];
    }

    /** The first half of `fbuf_connect`: makes `pos` a slot boundary of `x`, and returns the
        slot there, the first of the tail that starts at place `m` of the chain. */
    method CutAt(x: Fbuf, pos: nat) returns (s: nat, ghost m: nat)
      requires Valid() && x in chains && CanCut(x, pos)
      modifies this, slots
      ensures Valid() && chains.Keys == old(chains.Keys) && Kept(old(chains), chains, old(CutSlot(x, pos)))
      ensures m == old(Walk(PartsOf(x), pos)).0 + 1 <= |chains[x]| && s == Head(chains[x][m..])
      ensures m <= old(|chains[x]|) && chains[x][..m] == old(chains[x])[..m]
      ensures PartsOf(x) == old(CutParts(PartsOf(x), pos))
      ensures Parts(P(), chains[x][m..]) == old(CutTail(PartsOf(x), pos))
      ensures forall h :: h in chains && h != x && old(Unshared(h)) ==>
                chains[h] == old(chains[h]) && Unshared(h) && PartsOf(h) == old(PartsOf(h))
      ensures forall h :: h in chains ==> ContentOf(h) == old(ContentOf(h))
      ensures forall h :: h in chains && old(CutSlot(x, pos)) !in old(chains[h]) ==> PartsOf(h) == old(PartsOf(h))
      ensures forall h :: h in chains ==>
                (Readable(h) <==> old(Readable(h)) && (old(CutIsClean(PartsOf(x), pos)) || old(CutSlot(x, pos)) !in old(chains[h])))
      ensures free_slots == old(free_slots) - if old(Walk(PartsOf(x), pos)).1 == 0 then 0 else 1
    {
      ghost var before, free, cx, all, l := P(), free_slots, chains[x], chains, PartsOf(x);
      hide Valid, Inv, FreeSet, Flat, Parts, PartsSplit, NoneEmpty, Linked, Distinct, UnsharedIn, Kept, CanCut, CutIsClean;
      hide SplitSlots, TwoChanged, Insert, InsertAll, Slot.Ok, HandleOk, Head, Walk, Small, AllOk, CutFits, CutParts, CutTail;
      BufferFacts(x);
      CanCutFacts(x, pos);
      var islot, p := FindSlot(x.head, pos, cx);
      s := Split(islot, p);
      m := CutFacts(before, P(), free, all, chains, x, pos, s);
      forall h | h in chains && h != x && old(Unshared(h))
        ensures chains[h] == old(chains[h]) && Unshared(h) && PartsOf(h) == old(PartsOf(h))
      {
        assert UnsharedIn(before, all[h]);
      }
    }

    lemma CanCutFacts(x: Fbuf, pos: nat)
      requires Valid() && x in chains && CanCut(x, pos)
      ensures 0 < pos <= |ContentOf(x)| && Small(PartsOf(x)) && CutFits(PartsOf(x), pos) && |PartsOf(x)| == |chains[x]|
      ensures var (j, r) := Walk(PartsOf(x), pos);
              var i := CutSlot(x, pos);
              && j < |chains[x]| && i == chains[x][j] && i in chains[x] && i < |P()| && P()[i].refcnt > 0
              && r <= P()[i].length && (r == 0 || free_slots > 0)
              && (CutIsClean(PartsOf(x), pos) <==> r == 0 || r < P()[i].length)
    {
      BufferFacts(x);
      var j := Walk(PartsOf(x), pos).0;
      assert chains[x][j] in chains[x];
      PartIs(P(), chains[x], j);
    }

    /** `pos` is in `x`, and not past the bytes of the slot where the walk ends; and there is a
        free slot for the cut if one is needed. */
    ghost predicate CanCut(x: Fbuf, pos: nat)
      requires x in chains
      reads this, slots
    {
      && 0 < pos <= |ContentOf(x)| && Small(PartsOf(x)) && CutFits(PartsOf(x), pos)
      && (Walk(PartsOf(x), pos).1 == 0 || free_slots > 0)
    }

    /** The slot in which the walk ends. */
    ghost function CutSlot(x: Fbuf, pos: nat): nat
      requires x in chains && CanCut(x, pos)
      reads this, slots
    {
      chains[x][Walk(PartsOf(x), pos).0]
    }

    /** `fbuf_connect`: `b` gets, after its own bytes, those of `x` from `pos` on, without a
        copy; neither can be written to any more. All buffers hold what they held. Those
        through the slot that was cut, and `b`, can still be read to their end if and only if
        the cut is clean: at the end of a slot that the walk has passed, or before the end
        of the bytes of the slot where it ends. */
    method Connect(b: Fbuf, x: Fbuf, pos: nat)
      requires Valid() && b in chains && x in chains && b != x
      requires Unshared(b) && chains[b] != [] && CanCut(x, pos)
      modifies this, slots, b`wslot, b`length, x`wslot
      ensures chains.Keys == old(chains.Keys) && b.wslot == x.wslot == NIL
      ensures ContentOf(b) == old(ContentOf(b)) + old(ContentOf(x))[pos..]
      ensures forall h :: h in chains && h != b ==> ContentOf(h) == old(ContentOf(h))
      ensures PartsOf(x) == old(CutParts(PartsOf(x), pos))
      ensures PartsOf(b) == old(PartsOf(b)) + old(CutTail(PartsOf(x), pos))
      ensures var m := old(Walk(PartsOf(x), pos)).0 + 1;
              && m <= |chains[x]| && m <= old(|chains[x]|) && chains[x][..m] == old(chains[x])[..m]
              && chains[b] == old(chains[b]) + chains[x][m..]
      ensures forall h :: h in chains && h != b && h != x && old(Unshared(h)) ==> chains[h] == old(chains[h]) && Unshared(h)
      ensures Kept(old(chains), chains[b := old(chains[b])], old(CutSlot(x, pos)))
      ensures forall h :: h in chains && h != b && old(CutSlot(x, pos)) !in old(chains[h]) ==> PartsOf(h) == old(PartsOf(h))
      ensures forall h :: h in chains && h != b ==>
                (Readable(h) <==> old(Readable(h)) && (old(CutIsClean(PartsOf(x), pos)) || old(CutSlot(x, pos)) !in old(chains[h])))
      ensures Readable(b) <==> old(Readable(b)) && old(NoneEmpty(CutTail(PartsOf(x), pos)))
      ensures old(Readable(b)) && old(Readable(x)) ==> (Readable(b) <==> old(CutIsClean(PartsOf(x), pos)))
      ensures free_slots == old(free_slots) - if old(Walk(PartsOf(x), pos)).1 == 0 then 0 else 1
      ensures Valid()
    {
      hide Inv, Parts, Flat, Linked, Walk, Small, NoneEmpty, CutIsClean, CutParts, CutTail, CutFits, UnsharedIn, Kept, CanCut, CutSlot, InsertAll;
      hide Valid, HandleOk;
      BufferFacts(b);
      BufferFacts(x);
      ghost var l, lb, all, i := PartsOf(x), PartsOf(b), chains, CutSlot(x, pos);
      CanCutFacts(x, pos);
      CutHolds(l, pos);
      CutIsCleanIff(l, pos);
      JoinHolds(lb, CutTail(l, pos));
      var s, m := CutAt(x, pos);
      assert Kept(all, chains, i);
      PutBack(chains, b, chains[b] + chains[x][m..]);
      Attach(b, x, m, s, b.length + x.length - pos);
    }

    /** The second half: the tail of `x` from place `m` on, which begins at slot `s`, becomes
        the tail of `b`. */
    method Attach(b: Fbuf, x: Fbuf, ghost m: nat, s: nat, length: nat)
      requires Valid() && b in chains && x in chains && b != x && Unshared(b) && chains[b] != []
      requires m <= |chains[x]| && s == Head(chains[x][m..]) && length == |ContentOf(b)| + |Content(P(), chains[x][m..])|
      modifies this`chains, slots, b`wslot, b`length, x`wslot
      ensures Valid() && chains == old(chains)[b := old(chains[b]) + old(chains[x])[m..]] && b.wslot == x.wslot == NIL
      ensures PartsOf(b) == old(PartsOf(b)) + old(Parts(P(), chains[x][m..]))
      ensures forall h :: h in chains && h != b ==> PartsOf(h) == old(PartsOf(h))
      ensures forall h :: h in chains && h != b && h != x && old(Unshared(h)) ==> Unshared(h)
    {
      hide Inv, Parts, Flat, UnsharedIn;
      JoinHolds(PartsOf(b), Parts(P(), chains[x][m..]));
      LinkTail(b, x, chains[x][m..], m, s);
      Close(b, x, length);
    }

    /** Two buffers, each connected to one of two handles on the same chain at the same place
        inside a slot: what the digipeater and the igate do with a frame that both were given.
        All of them hold the right bytes. But after the second cut nobody can read to the end
        any more, except in the buffer that was connected first. */
    method ConnectTwice(b: Fbuf, x: Fbuf, c: Fbuf, y: Fbuf, pos: nat)
      requires Valid() && {b, x, c, y} <= chains.Keys && b != x && c != y && b != c && b != y && c != x
      requires Unshared(b) && Unshared(c) && Readable(b) && Readable(c) && chains[b] != [] && chains[c] != []
      requires OnlyWritten(x) && chains[x] == chains[y] && 0 < pos < |ContentOf(x)| && pos % SLOT_SIZE > 0 && free_slots >= 2
      modifies this, slots, b`wslot, b`length, x`wslot, c`wslot, c`length, y`wslot
      ensures Valid() && {b, x, c, y} <= chains.Keys
      ensures ContentOf(b) == old(ContentOf(b)) + old(ContentOf(x))[pos..] && ContentOf(x) == old(ContentOf(x))
      ensures ContentOf(c) == old(ContentOf(c)) + old(ContentOf(x))[pos..] && ContentOf(y) == old(ContentOf(x))
      ensures Readable(b) && !Readable(x) && !Readable(c) && !Readable(y)
    {
      hide Inv, Parts, Flat, Walk, Plain, NoneEmpty, CutParts, CutTail, CutIsClean, CutFits, Linked, UnsharedIn, Kept, Small;
      ghost var l, all := PartsOf(x), chains;
      OnlyWrittenFacts(x);
      ghost var j := Walk(l, pos).0;
      SecondCut(l, pos);
      CutHolds(l, pos);
      CanCutFacts(x, pos);
      ghost var i := CutSlot(x, pos);
      UnsharedFacts(b, x);
      assert PartsOf(y) == l;
      Connect(b, x, pos);
      KeptSame(all, chains, b, i, x, y);
      assert PartsOf(y) == PartsOf(x);
      CanCutFacts(y, pos);
      BufferFacts(x);
      assert CutSlot(y, pos) == chains[x][..j + 1][j] == i;
      NotInTail(chains[x], j, chains[b], all[b]);
      Connect(c, y, pos);
    }

    lemma UnsharedFacts(b: Fbuf, x: Fbuf)
      requires Valid() && b in chains && x in chains && b != x && Unshared(b)
      ensures forall s :: s in chains[x] ==> s !in chains[b]
    {
      CountsFact(P(), free_slots, chains);
      UnsharedDisjoint(P(), chains, b);
    }

    /** The last lines of `fbuf_connect`. */
    method Close(b: Fbuf, x: Fbuf, length: nat)
      requires Inv(P(), free_slots, chains) && b in chains && x in chains
      requires forall h :: h in chains && h != b ==> HandleOk(h)
      requires b.head == Head(chains[b]) && length == |ContentOf(b)|
      modifies b`wslot, b`length, x`wslot
      ensures Valid() && b.wslot == x.wslot == NIL
    {
      hide Inv, Parts, Flat;
      b.wslot, x.wslot := NIL, NIL;
      b.length := length;
    }
  }

  lemma ExtendUnshared(p: Slots, c: Chain, s: nat, x: Slot, q: Slots)
    requires c != [] && UnsharedIn(p, c) && Last(c) < |p| && s < |p| && x.refcnt == 1 && s != Last(c)
    requires q == p[s := x][Last(c) := p[Last(c)].(next := s)]
    ensures UnsharedIn(q, c + [s]) && Last(c + [s]) == s
  {
  }

  function OneByteSlot(s: Slot, c: bv8): Slot {
    Slot(1, 1, NIL, if s.buf == [] then [] else s.buf[0 := c])
  }

  lemma OneByte(s: Slot, c: bv8)
    requires s.Ok()
    ensures Bytes(OneByteSlot(s, c)) == [c]
  {
  }

  lemma CopyOne(to: seq<bv8>, from: seq<bv8>, pos: nat, i: nat)
    requires i < |to| && pos + i < |from| && to[..i] == from[pos..pos + i]
    ensures to[i := from[pos + i]][..i + 1] == from[pos..pos + (i + 1)]
  {
    assert to[i := from[pos + i]][..i + 1] == to[..i] + [from[pos + i]];
  }

  /** As much of `s` as there is room for. */
  function Fit(s: seq<bv8>, room: int): (f: seq<bv8>)
    ensures |f| <= |s| && (room >= 0 ==> |f| <= room)
  {
    if |s| <= room then s else if room < 0 then [] else s[..room]
  }

  lemma FitConcat(a: seq<bv8>, b: seq<bv8>, room: int)
    requires room >= 0
    ensures Fit(a + b, room) == Fit(a, room) + Fit(b, room - |Fit(a, room)|)
  {
  }

  lemma FitNothing(room: int)
    requires room >= 0
    ensures Fit([], room) == []
  {
  }

  lemma AppendRoom(l: seq<Part>, c: bv8)
    requires l != []
    ensures var n, r := |l| - 1, AppendByte(l, c);
            && r != [] && |r[|r| - 1]| == if |l[n]| == SLOT_SIZE then 1 else |l[n]| + 1
  {
  }

  /** What a split of slot `i` keeps of the chains. */
  ghost predicate Kept(before: map<Fbuf, Chain>, after: map<Fbuf, Chain>, i: nat) {
    && before.Keys == after.Keys
    && (forall h, k :: h in before && k in before && before[h] == before[k] ==> after[h] == after[k])
    && (forall h :: h in before && i !in before[h] ==> after[h] == before[h])
    && (forall h, s :: h in before && s in before[h] ==> s in after[h])
  }

  lemma PutBack(chains: map<Fbuf, Chain>, b: Fbuf, c: Chain)
    requires b in chains
    ensures chains[b := c][b := chains[b]] == chains
  {
  }

  lemma KeptSame(before: map<Fbuf, Chain>, after: map<Fbuf, Chain>, b: Fbuf, i: nat, x: Fbuf, y: Fbuf)
    requires {b, x, y} <= before.Keys && x != b && y != b && before[x] == before[y]
    requires Kept(before, after[b := before[b]], i)
    ensures after.Keys == before.Keys ==> after[x] == after[y]
  {
  }

  lemma NotInTail(c: Chain, j: nat, d: Chain, head: Chain)
    requires Distinct(c) && j < |c| && d == head + c[j + 1..] && c[j] !in head
    ensures c[j] !in d
  {
  }

  lemma AllKept(chains: map<Fbuf, Chain>, i: nat)
    ensures Kept(chains, chains, i)
  {
  }

  lemma InsertKept(chains: map<Fbuf, Chain>, i: nat, n: nat)
    ensures Kept(chains, InsertAll(chains, i, n), i)
  {
    forall h | h in chains
      ensures forall s :: s in chains[h] ==> s in Insert(chains[h], i, n)
      ensures i !in chains[h] ==> Insert(chains[h], i, n) == chains[h]
    {
      InsertMembers(chains[h], i, n);
    }
  }

  lemma NothingHeld()
    ensures Flat([]) == [] && Flat([[]]) == []
  {
    FlatOne([]);
  }

  lemma JoinHolds(l: seq<Part>, d: seq<Part>)
    ensures Flat(l + d) == Flat(l) + Flat(d)
    ensures NoneEmpty(l + d) <==> NoneEmpty(l) && NoneEmpty(d)
  {
    FlatConcat(l, d);
    assert forall i :: 0 <= i < |d| ==> (l + d)[|l| + i] == d[i];
    assert forall i :: 0 <= i < |l| ==> (l + d)[i] == l[i];
  }

  /** Which buffers can be read after a split. */
  lemma SplitReadable<K>(p: Slots, chains: map<K, Chain>, i: nat, pos: nat)
    requires i < |p| && p[i].Ok() && 0 < pos <= p[i].length
    requires forall k, s :: k in chains && s in chains[k] ==> s < |p|
    ensures forall k :: k in chains ==>
              (NoneEmpty(PartsSplit(Parts(p, chains[k]), chains[k], i, pos)) <==>
                 NoneEmpty(Parts(p, chains[k])) && (i !in chains[k] || pos < p[i].length))
  {
    forall k | k in chains
      ensures NoneEmpty(PartsSplit(Parts(p, chains[k]), chains[k], i, pos)) <==>
                NoneEmpty(Parts(p, chains[k])) && (i !in chains[k] || pos < p[i].length)
    {
      if i in chains[k] {
        PartIs(p, chains[k], PlaceOf(chains[k], i));
        hide Parts, NoneEmpty, InTwo;
        InTwoIff(Parts(p, chains[k]), PlaceOf(chains[k], i), pos);
      }
    }
  }

  lemma PartIs(p: Slots, c: Chain, j: nat)
    requires j < |c| && c[j] < |p|
    ensures Parts(p, c)[j] == Bytes(p[c[j]]) && (p[c[j]].Ok() ==> |Parts(p, c)[j]| == p[c[j]].length)
  {
  }

  // ---- The walk, step by step -------------------------------------------------------------

  /** After `k` slots the walk has `p` left. */
  ghost predicate WalkFrom(l: seq<Part>, pos: nat, k: nat, p: nat) {
    && 0 < pos <= |Flat(l)| && Small(l) && k <= |l| && Small(l[k..])
    && if p == 0 then k > 0 && Walk(l, pos) == (k - 1, 0)
       else p <= |Flat(l[k..])| && Walk(l, pos) == (k + Walk(l[k..], p).0, Walk(l[k..], p).1)
  }

  lemma WalkStarts(l: seq<Part>, pos: nat)
    requires 0 < pos <= |Flat(l)| && Small(l)
    ensures WalkFrom(l, pos, 0, pos)
  {
    assert l[0..] == l;
  }

  lemma WalkOn(l: seq<Part>, pos: nat, k: nat, p: nat)
    requires WalkFrom(l, pos, k, p) && p >= SLOT_SIZE
    ensures k < |l| && |l[k]| <= p && WalkFrom(l, pos, k + 1, p - |l[k]|)
    ensures p > |l[k]| ==> k + 1 < |l|
  {
    assert l[k..][0] == l[k] && l[k..][1..] == l[k + 1..];
    FlatCons(l[k..]);
    if k + 1 == |l| { assert l[k + 1..] == []; }
  }

  lemma WalkEnds(l: seq<Part>, pos: nat, k: nat, p: nat)
    requires WalkFrom(l, pos, k, p) && p < SLOT_SIZE
    ensures Walk(l, pos) == if p == 0 then (k - 1, 0) else (k, p)
  {
  }

  lemma SlotAt(p: Slots, c: Chain, k: nat)
    requires Linked(p, c) && AllOk(p, c) && k < |c|
    ensures c[k] < |p| && p[c[k]].next == Next(c, k) && |Parts(p, c)[k]| == p[c[k]].length
  {
    assert c[k] in c;
  }

  /** What a cut of `x` at `pos` leaves. */
  lemma CutFacts<K>(p: Slots, q: Slots, free: nat, chains: map<K, Chain>, after: map<K, Chain>, x: K, pos: nat, s: nat)
      returns (m: nat)
    requires Inv(p, free, chains) && x in chains && 0 < pos <= |Content(p, chains[x])|
    requires Small(Parts(p, chains[x])) && CutFits(Parts(p, chains[x]), pos)
    requires var (j, r) := Walk(Parts(p, chains[x]), pos);
             var i := chains[x][j];
             && i < |p| && (r == 0 ==> s == p[i].next && q == p && after == chains)
             && (r > 0 ==>
                   && |p| == |q| && s < |p| && p[s].refcnt == 0 && SplitSlots(p[i], r, s, q[i], q[s])
                   && TwoChanged(p, q, s, q[s], i, q[i]) && after == InsertAll(chains, i, s)
                   && Parts(q, after[x]) == PartsSplit(Parts(p, chains[x]), chains[x], i, r))
    ensures after.Keys == chains.Keys && m <= |after[x]| && s == Head(after[x][m..])
    ensures m == Walk(Parts(p, chains[x]), pos).0 + 1 <= |chains[x]| && after[x][..m] == chains[x][..m]
    ensures Parts(q, after[x]) == CutParts(Parts(p, chains[x]), pos)
    ensures Parts(q, after[x][m..]) == CutTail(Parts(p, chains[x]), pos)
    ensures forall h :: h in chains && h != x && UnsharedIn(p, chains[h]) ==>
              after[h] == chains[h] && UnsharedIn(q, after[h]) && Parts(q, after[h]) == Parts(p, chains[h])
  {
    var c := chains[x];
    var (j, r) := Walk(Parts(p, c), pos);
    var i := c[j];
    m := j + 1;
    hide Inv, Flat, Parts, Walk, Linked, UnsharedIn, SplitSlots, CountsOk, TwoChanged, Insert, Distinct, Slot.Ok;
    ChainFacts(p, free, chains, x);
    CountsFact(p, free, chains);
    if r == 0 {
      WalkStep(p, c, j);
      HeadOfRest(c, m);
      PartsDrop(p, c, m);
    } else {
      FreeSlotIsOk(p, free, chains, s);
      LowCount(p[i], r, s, q[i], q[s]);
      assert i in c;
      PlaceIs(c, j);
      InsertAt(c, j, s);
      SplitTail(c, j, s);
      PartsDrop(q, after[x], m);
      UnsharedStays(p, q, chains, x, i, s, q[s], q[i]);
    }
  }

  lemma HeadOfRest(c: Chain, m: nat)
    requires 0 < m <= |c|
    ensures Head(c[m..]) == Next(c, m - 1)
  {
  }

  lemma SplitTail(c: Chain, j: nat, s: nat)
    requires j < |c| && Insert(c, c[j], s) == c[..j + 1] + [s] + c[j + 1..]
    ensures j + 1 < |Insert(c, c[j], s)| && Head(Insert(c, c[j], s)[j + 1..]) == s && Insert(c, c[j], s)[..j + 1] == c[..j + 1]
  {
  }

  lemma PartsDrop(p: Slots, c: Chain, m: nat)
    requires m <= |c|
    ensures Parts(p, c[m..]) == Parts(p, c)[m..]
  {
  }

  /** A split of one of `x`'s slots is no concern of an unshared buffer. */
  lemma UnsharedStays<K>(p: Slots, q: Slots, chains: map<K, Chain>, x: K, i: nat, n: nat, high: Slot, low: Slot)
    requires CountsOk(p, chains) && x in chains && i in chains[x]
    requires i < |p| && n < |p| && p[n].refcnt == 0 && low.refcnt == p[i].refcnt && TwoChanged(p, q, n, high, i, low)
    ensures forall h :: h in chains && h != x && UnsharedIn(p, chains[h]) ==>
              Insert(chains[h], i, n) == chains[h] && UnsharedIn(q, chains[h]) && Parts(q, chains[h]) == Parts(p, chains[h])
  {
    forall h | h in chains && h != x && UnsharedIn(p, chains[h])
      ensures Insert(chains[h], i, n) == chains[h] && UnsharedIn(q, chains[h]) && Parts(q, chains[h]) == Parts(p, chains[h])
    {
      UnsharedDisjoint(p, chains, h);
      InsertMembers(chains[h], i, n);
      PartsFrame(p, q, chains[h]);
    }
  }

  lemma WalkStep(p: Slots, c: Chain, k: nat)
    requires Linked(p, c) && k < |c|
    ensures c[k] < |p| && p[c[k]].next == Next(c, k)
  {
  }

  lemma LinkFacts<K>(p: Slots, free: nat, chains: map<K, Chain>, b: K, x: K, d: Chain, m: nat, p1: Slots)
    requires Inv(p, free, chains) && b in chains && x in chains && b != x && chains[b] != []
    requires m <= |chains[x]| && d == chains[x][m..] && UnsharedIn(p, chains[b])
    requires Last(chains[b]) < |p| && p1 == p[Last(chains[b]) := p[Last(chains[b])].(next := Head(d))]
    ensures Linked(p1, d) && Distinct(d)
    ensures Inv(IncAll(p1, d), free, chains[b := chains[b] + d])
    ensures Parts(IncAll(p1, d), chains[b] + d) == Parts(p, chains[b]) + Parts(p, d)
    ensures forall k :: k in chains && k != b ==> Parts(IncAll(p1, d), chains[k]) == Parts(p, chains[k])
    ensures forall k :: k in chains && k != b && k != x && UnsharedIn(p, chains[k]) ==> UnsharedIn(IncAll(p1, d), chains[k])
  {
    forall k | k in chains && k != b && k != x && UnsharedIn(p, chains[k]) ensures UnsharedIn(IncAll(p1, d), chains[k]) {
      UnsharedDisjoint(p, chains, k);
      assert forall s :: s in d ==> s in chains[x];
    }
    UnsharedDisjoint(p, chains, b);
    assert Last(chains[b]) in chains[b];
    SuffixElsewhere(p, p1, chains[x], m, Last(chains[b]));
    hide Inv, Parts, Linked, Distinct, IncAll, UnsharedIn;
    JoinInv(p, free, chains, b, x, d, m, IncAll(p1, d));
  }

  lemma FrontUnshared<K>(p: Slots, q: Slots, free: nat, chains: map<K, Chain>, x: K)
    requires Inv(p, free, chains) && x in chains && |chains[x]| > 1 && Last(chains[x]) < |p| && Last(Front(chains[x])) < |p|
    requires q == p[Last(chains[x]) := p[Last(chains[x])].(length := 0, refcnt := 0)]
                   [Last(Front(chains[x])) := p[Last(Front(chains[x]))].(next := NIL)]
    ensures UnsharedIn(p, chains[x]) ==> UnsharedIn(q, Front(chains[x]))
  {
    LastIsElsewhere(p, chains[x]);
  }

  lemma CountsFact<K>(p: Slots, free: nat, chains: map<K, Chain>)
    requires Inv(p, free, chains)
    ensures CountsOk(p, chains)
  {
  }

  lemma LowCount(was: Slot, pos: nat, n: nat, low: Slot, high: Slot)
    requires SplitSlots(was, pos, n, low, high)
    ensures low.refcnt == was.refcnt
  {
  }

  lemma SuffixElsewhere(p: Slots, q: Slots, c: Chain, m: nat, w: nat)
    requires |p| == |q| <= NIL && Linked(p, c) && m <= |c| && w !in c
    requires forall s :: 0 <= s < |p| && s != w ==> q[s] == p[s]
    ensures Linked(q, c[m..]) && Distinct(c[m..])
  {
    SuffixLinked(p, c, m);
    assert forall s :: s in c[m..] ==> s in c;
    LinkedIsDistinct(q, c[m..]);
  }

  lemma HeadsStay<K>(chains: map<K, Chain>, i: nat, n: nat)
    ensures forall k :: k in chains ==> Head(Insert(chains[k], i, n)) == Head(chains[k])
  {
  }

  lemma AllSlotsOk<K>(p: Slots, free: nat, chains: map<K, Chain>)
    requires Inv(p, free, chains)
    ensures |p| == FBUF_SLOTS && free == |FreeSet(p)| && forall s :: 0 <= s < |p| ==> p[s].Ok()
  {
  }

  /** The end of a slot of the chain, as a position in the contents. */
  ghost predicate AtSlotEnd(p: Slots, c: Chain, pos: nat) {
    exists j: nat :: j < |c| && pos == EndOf(p, c, j)
  }

  function EndOf(p: Slots, c: Chain, j: nat): nat
    requires j < |c|
  {
    |Content(p, c[..j + 1])|
  }

  lemma EndsGrow(p: Slots, c: Chain, i: nat, j: nat)
    requires i <= j <= |c|
    ensures |Content(p, c[..i])| <= |Content(p, c[..j])|
  {
    assert c[..j] == c[..i] + c[i..j];
    ContentConcat(p, c[..i], c[i..j]);
  }

  lemma NoContent(p: Slots, c: Chain)
    ensures c[..0] == [] && Content(p, c[..0]) == []
  {
  }

  lemma SlotFacts(p: Slots, c: Chain, j: nat)
    requires Linked(p, c) && j < |c|
    ensures c[j] in c && c[j] < |p| && p[c[j]].next == Next(c, j)
    ensures p[c[j]].Ok() ==> |Content(p, c[..j + 1])| == |Content(p, c[..j])| + p[c[j]].length
    ensures j + 1 == |c| ==> Content(p, c[..j + 1]) == Content(p, c)
  {
    assert c[..j + 1] == c[..j] + [c[j]];
    ContentConcat(p, c[..j], [c[j]]);
    ContentOne(p, c[j]);
    assert j + 1 == |c| ==> c[..j + 1] == c;
  }

  lemma SeekLands(p: Slots, c: Chain, j: nat, i: nat)
    requires j < |c| && c[j] < |p| && 0 < i <= p[c[j]].length
    requires |Content(p, c[..j + 1])| == |Content(p, c[..j])| + p[c[j]].length
    ensures i == p[c[j]].length <==> AtSlotEnd(p, c, |Content(p, c[..j])| + i)
    ensures i < p[c[j]].length ==> Cursor(p, c, c[j], i, |Content(p, c[..j])| + i)
  {
    var pos := |Content(p, c[..j])| + i;
    assert EndOf(p, c, j) == |Content(p, c[..j + 1])|;
    if i < p[c[j]].length {
      assert CursorIn(p, c, c[j], i, j);
      forall k: nat | k < |c| ensures EndOf(p, c, k) != pos {
        if k < j { EndsGrow(p, c, k + 1, j); } else { EndsGrow(p, c, j + 1, k + 1); }
      }
    }
  }

  /** A read position in a chain that stands for byte `k` of what the chain holds. */
  ghost predicate Cursor(p: Slots, c: Chain, rslot: nat, rpos: nat, k: nat) {
    || (rslot == NIL && k == |Content(p, c)|)
    || exists j: nat :: CursorIn(p, c, rslot, rpos, j) && k == |Content(p, c[..j])| + rpos
  }

  ghost predicate CursorIn(p: Slots, c: Chain, rslot: nat, rpos: nat, j: nat) {
    j < |c| && rslot == c[j] && rslot < |p| && rpos < p[rslot].length
  }

  lemma CursorStep(p: Slots, c: Chain, rslot: nat, rpos: nat, k: nat)
    requires |p| <= NIL && Linked(p, c) && AllOk(p, c)
    requires Cursor(p, c, rslot, rpos, k) && k < |Content(p, c)|
    ensures rslot < |p| && rpos < p[rslot].length <= SLOT_SIZE == |p[rslot].buf| && p[rslot].buf[rpos] == Content(p, c)[k]
    ensures ClearTo(Parts(p, c), k + 2) ==>
              if rpos == p[rslot].length - 1 then Cursor(p, c, p[rslot].next, 0, k + 1)
              else Cursor(p, c, rslot, rpos + 1, k + 1)
  {
    hide Content, Linked, Parts;
    var j: nat :| CursorIn(p, c, rslot, rpos, j) && k == |Content(p, c[..j])| + rpos;
    assert c[j] in c;
    CursorStepAt(p, c, rslot, rpos, j);
  }

  lemma CursorStepAt(p: Slots, c: Chain, rslot: nat, rpos: nat, j: nat)
    requires Linked(p, c) && AllOk(p, c) && CursorIn(p, c, rslot, rpos, j) && p[rslot].Ok()
    ensures var k := |Content(p, c[..j])| + rpos;
            && k < |Content(p, c)| && p[rslot].buf[rpos] == Content(p, c)[k]
            && (ClearTo(Parts(p, c), k + 2) ==>
                  if rpos == p[rslot].length - 1 then Cursor(p, c, p[rslot].next, 0, k + 1)
                  else Cursor(p, c, rslot, rpos + 1, k + 1))
  {
    hide Content, Linked, Parts, AllOk;
    ReadFacts(p, c, j, rpos);
    if rpos < p[rslot].length - 1 {
      assert CursorIn(p, c, rslot, rpos + 1, j);
    } else if j + 1 < |c| && ClearTo(Parts(p, c), |Content(p, c[..j + 1])| + 1) {
      NextNotEmpty(p, c, j + 1);
      assert CursorIn(p, c, c[j + 1], 0, j + 1);
    }
  }

  lemma NextNotEmpty(p: Slots, c: Chain, j: nat)
    requires AllOk(p, c) && j < |c| && ClearTo(Parts(p, c), |Content(p, c[..j])| + 1)
    ensures c[j] < |p| && p[c[j]].length > 0
  {
    assert Parts(p, c[..j]) == Parts(p, c)[..j];
    hide Flat;
    assert c[j] in c && Parts(p, c)[j] != [];
  }

  /** At the start of a buffer that can be read. */
  lemma CursorAtStart(p: Slots, c: Chain)
    requires AllOk(p, c) && ClearTo(Parts(p, c), 1) && c != []
    ensures Cursor(p, c, Head(c), 0, 0)
  {
    NoContent(p, c);
    NextNotEmpty(p, c, 0);
    hide Content, AllOk, Parts;
    assert CursorIn(p, c, c[0], 0, 0);
  }

  lemma FrontIsNotLast(p: Slots, c: Chain)
    requires |p| <= NIL && Linked(p, c) && |c| > 1
    ensures Last(Front(c)) != Last(c)
  {
    LastIsElsewhere(p, c);
  }

  /** Where byte `rpos` of the slot at place `j` of a chain is in the contents, and what comes after it. */
  lemma ReadFacts(p: Slots, c: Chain, j: nat, rpos: nat)
    requires Linked(p, c) && j < |c| && c[j] < |p| && p[c[j]].Ok() && rpos < p[c[j]].length
    ensures var k := |Content(p, c[..j])| + rpos;
            k < |Content(p, c)| && Content(p, c)[k] == p[c[j]].buf[rpos]
    ensures |Content(p, c[..j + 1])| == |Content(p, c[..j])| + p[c[j]].length
    ensures p[c[j]].next == Next(c, j)
    ensures j + 1 == |c| ==> |Content(p, c)| == |Content(p, c[..j + 1])|
  {
    hide Content;
    AtPlace(p, c, j);
  }

  lemma AtPlace(p: Slots, c: Chain, j: nat)
    requires j < |c| && c[j] < |p|
    ensures Content(p, c) == Content(p, c[..j]) + Bytes(p[c[j]]) + Content(p, c[j + 1..])
    ensures Content(p, c[..j + 1]) == Content(p, c[..j]) + Bytes(p[c[j]])
    ensures j + 1 == |c| ==> Content(p, c[j + 1..]) == []
  {
    hide Content;
    assert c == c[..j + 1] + c[j + 1..] && c[..j + 1] == c[..j] + [c[j]];
    EmptyChain(p);
    ContentConcat(p, c[..j + 1], c[j + 1..]);
    ContentConcat(p, c[..j], [c[j]]);
    ContentOne(p, c[j]);
  }

  // ---- Writing to shared slots ---------------------------------------------------------------

  /** A byte put in the last slot of a buffer changes no other buffer if and only if the slot
      is counted once. */
  lemma PutIsPrivateIff<K>(p: Slots, free: nat, chains: map<K, Chain>, b: K, c: bv8)
    requires Inv(p, free, chains) && b in chains && chains[b] != []
    requires Last(chains[b]) < |p| && p[Last(chains[b])].Ok() && p[Last(chains[b])].length < SLOT_SIZE
    ensures var w := Last(chains[b]);
            var q := p[w := WithByte(p[w], c)];
            (forall k :: k in chains && k != b ==> Content(q, chains[k]) == Content(p, chains[k])) <==> p[w].refcnt == 1
  {
    var w := Last(chains[b]);
    var q := p[w := WithByte(p[w], c)];
    assert w in chains[b];
    if p[w].refcnt == 1 {
      SoleHolder(p, chains, b, w);
      forall k | k in chains && k != b ensures Content(q, chains[k]) == Content(p, chains[k]) {
        PartsFrame(p, q, chains[k]);
      }
    } else {
      var k := OtherHolder(p, free, chains, b, w);
      GrowsToo(p, q, chains[k], w, c);
    }
  }

  function WithByte(s: Slot, c: bv8): Slot
    requires s.Ok() && s.length < SLOT_SIZE
  {
    s.(buf := s.buf[s.length := c], length := s.length + 1)
  }

  lemma OtherHolder<K>(p: Slots, free: nat, chains: map<K, Chain>, b: K, w: nat) returns (k: K)
    requires Inv(p, free, chains) && b in chains && w in chains[b] && w < |p| && p[w].refcnt != 1
    ensures k in chains && k != b && w in chains[k]
  {
    var h := Holders(chains, w);
    assert b in h;
    assert |h - {b}| == |h| - 1 != 0;
    assert h - {b} != {};
    k :| k in h - {b};
  }

  lemma GrowsToo(p: Slots, q: Slots, c: Chain, w: nat, x: bv8)
    requires |p| <= NIL && Linked(p, c) && w in c && w < |p| && p[w].Ok() && p[w].length < SLOT_SIZE
    requires q == p[w := WithByte(p[w], x)]
    ensures |Content(q, c)| == |Content(p, c)| + 1
  {
    LinkedIsDistinct(p, c);
    var j := PlaceOf(c, w);
    assert w !in c[..j] && w !in c[j + 1..];
    assert |Bytes(q[w])| == |Bytes(p[w])| + 1;
    hide Linked, Distinct, Flat, Parts, Bytes;
    PartsFrame(p, q, c[..j]);
    PartsFrame(p, q, c[j + 1..]);
    AtPlace(p, c, j);
    AtPlace(q, c, j);
  }

  /** Where the last slot is full, a new slot is linked to it: no other chain changes if and
      only if the full slot is counted once. */
  lemma LinkIsPrivateIff<K>(p: Slots, free: nat, chains: map<K, Chain>, b: K, n: nat, x: Slot)
    requires Inv(p, free, chains) && b in chains && chains[b] != [] && Last(chains[b]) < |p| && n < |p| && p[n].refcnt == 0
    ensures var w := Last(chains[b]);
            var q := p[n := x][w := p[w].(next := n)];
            (forall k :: k in chains && k != b ==> Linked(q, chains[k])) <==> p[w].refcnt == 1
  {
    var w := Last(chains[b]);
    var q := p[n := x][w := p[w].(next := n)];
    assert w in chains[b];
    FreeSlotUnused(p, free, chains, n);
    if p[w].refcnt == 1 {
      SoleHolder(p, chains, b, w);
    } else {
      var k := OtherHolder(p, free, chains, b, w);
      LeadsOn(p, q, chains[b], chains[k], w, n);
    }
  }

  /** The new slot is behind the last of another chain, too, but not counted for it. */
  lemma LeadsOn(p: Slots, q: Slots, c: Chain, d: Chain, w: nat, n: nat)
    requires |p| == |q| <= NIL && Linked(p, c) && Linked(p, d) && c != [] && w == Last(c) && w in d && n < |p|
    requires q[w].next == n
    ensures !Linked(q, d)
  {
    var j := PlaceOf(d, w);
    TailsAgree(p, c, d, |c| - 1, j);
    assert |d[j..]| == |c[|c| - 1..]| == 1;
    assert Next(d, j) == NIL;
  }

  lemma FreeSlotIsOk<K>(p: Slots, free: nat, chains: map<K, Chain>, s: nat)
    requires Inv(p, free, chains) && s < |p| && p[s].refcnt == 0
    ensures p[s].Ok() && forall k :: k in chains ==> s !in chains[k]
  {
    FreeSlotUnused(p, free, chains, s);
  }

  lemma ChainFacts<K>(p: Slots, free: nat, chains: map<K, Chain>, b: K)
    requires Inv(p, free, chains) && b in chains
    ensures |p| == FBUF_SLOTS && free == |FreeSet(p)|
    ensures Linked(p, chains[b]) && Distinct(chains[b]) && Small(Parts(p, chains[b]))
    ensures forall s :: s in chains[b] ==> s < |p| && p[s].refcnt > 0 && p[s].Ok()
  {
    LinkedIsDistinct(p, chains[b]);
    forall s | s in chains[b] ensures s < |p| && p[s].refcnt > 0 && p[s].Ok() {
      var i :| 0 <= i < |chains[b]| && chains[b][i] == s;
      assert s < |p| && b in Holders(chains, s);
    }
  }

  lemma EmptyPool<K>(p: Slots, chains: map<K, Chain>)
    requires |p| == FBUF_SLOTS && chains == map[]
    requires forall s :: 0 <= s < |p| ==> p[s].Ok() && p[s].refcnt == 0
    ensures Inv(p, FBUF_SLOTS, chains)
  {
    UptoSize(FBUF_SLOTS);
    assert FreeSet(p) == Upto(FBUF_SLOTS);
    forall s | 0 <= s < |p| ensures p[s].refcnt == |Holders(chains, s)| {
      assert Holders(chains, s) == {};
    }
  }

  lemma InvFree<K>(p: Slots, free: nat, chains: map<K, Chain>)
    requires Inv(p, free, chains)
    ensures |p| == FBUF_SLOTS && free == |FreeSet(p)|
    ensures forall k, s :: k in chains && s in chains[k] ==> s < |p|
  {
    forall k, s | k in chains && s in chains[k] ensures s < |p| {
      var i :| 0 <= i < |chains[k]| && chains[k][i] == s;
      assert Linked(p, chains[k]);
    }
  }

  lemma AddEmpty<K>(p: Slots, free: nat, chains: map<K, Chain>, b: K)
    requires Inv(p, free, chains) && (b in chains ==> chains[b] == [])
    ensures Inv(p, free, chains[b := []]) && Parts(p, []) == []
  {
    forall s | 0 <= s < |p| ensures p[s].refcnt == |Holders(chains[b := []], s)| {
      assert Holders(chains[b := []], s) == Holders(chains, s);
    }
  }
}
