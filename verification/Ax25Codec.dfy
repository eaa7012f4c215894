/** The header codec on buffers in the pool. */
module Ax25Codec {
  import opened FbufChains
  import opened FbufCuts
  import opened FbufPool
  import opened Ax25

  /** `encode_addr`; what there is no room for is dropped. */
  method EncodeAddr(pool: Pool, b: Fbuf, call: seq<bv8>, ssid: bv8, flags: bv8)
    requires pool.Valid() && b in pool.chains && pool.Writable(b)
    modifies pool, pool.slots, b`wslot, b`length
    ensures pool.Valid() && pool.chains.Keys == old(pool.chains.Keys) && pool.Writable(b)
    ensures pool.ContentOf(b) == old(pool.ContentOf(b)) + Fit(AddrOctets(call, ssid, flags), old(pool.Room(b)))
    ensures 0 <= pool.Room(b) == old(pool.Room(b)) - |Fit(AddrOctets(call, ssid, flags), old(pool.Room(b)))|
    ensures (old(pool.OnlyWritten(b)) ==> pool.OnlyWritten(b)) && pool.free_slots <= old(pool.free_slots)
    ensures forall h :: h in pool.chains && h != b ==>
              pool.chains[h] == old(pool.chains[h]) && pool.PartsOf(h) == old(pool.PartsOf(h))
  {
    hide Inv, Pool.Writable, Pool.OnlyWritten, Pool.Room, Parts, Flat, Pool.Valid, Fit, CharOctet, SsidOctet;
    pool.RoomIsNatural(b);
    ghost var room := pool.Room(b);
    FitNothing(room);
    assert CallOctets(call, 0) == [];
    var i := 0;
    while i < 6
      invariant i <= 6
      invariant pool.Valid() && pool.chains.Keys == old(pool.chains.Keys) && pool.Writable(b)
      invariant pool.ContentOf(b) == old(pool.ContentOf(b)) + Fit(CallOctets(call, i), room)
      invariant 0 <= pool.Room(b) == room - |Fit(CallOctets(call, i), room)|
      invariant (old(pool.OnlyWritten(b)) ==> pool.OnlyWritten(b)) && pool.free_slots <= old(pool.free_slots)
      invariant forall h :: h in pool.chains && h != b ==>
                  pool.chains[h] == old(pool.chains[h]) && pool.PartsOf(h) == old(pool.PartsOf(h))
    {
      assert CallOctets(call, i + 1) == CallOctets(call, i) + [CallOctet(call, i)];
      FitConcat(CallOctets(call, i), [CallOctet(call, i)], room);
      pool.PutByte(b, CharOctet(if i < |call| then call[i] else SPACE));
      i := i + 1;
    }
    FitConcat(CallOctets(call, 6), [SsidOctet(ssid, flags)], room);
    pool.PutByte(b, SsidOctet(ssid, flags));
  }

  /** `ax25_encode_header`; what there is no room for is dropped. */
  method EncodeHeader(pool: Pool, b: Fbuf, from: Addr, to: Addr, digis: array<Addr>, ndigis: nat, ctrl: bv8, pid: bv8)
    requires pool.Valid() && b in pool.chains && pool.Writable(b) && ndigis <= digis.Length
    modifies pool, pool.slots, b`wslot, b`length
    ensures pool.Valid() && pool.chains.Keys == old(pool.chains.Keys) && pool.Writable(b)
    ensures var s := Encoded(Header(to, from, digis[..ndigis], ctrl, pid));
            && pool.ContentOf(b) == old(pool.ContentOf(b)) + Fit(s, old(pool.Room(b)))
            && 0 <= pool.Room(b) == old(pool.Room(b)) - |Fit(s, old(pool.Room(b)))|
    ensures (old(pool.OnlyWritten(b)) ==> pool.OnlyWritten(b)) && pool.free_slots <= old(pool.free_slots)
    ensures forall h :: h in pool.chains && h != b ==>
              pool.chains[h] == old(pool.chains[h]) && pool.PartsOf(h) == old(pool.PartsOf(h))
  {
    hide Inv, Pool.Writable, Pool.OnlyWritten, Pool.Room, Parts, Flat, Pool.Valid, Fit, HasPid, Addresses;
    ghost var h, room, base := Header(to, from, digis[..ndigis], ctrl, pid), pool.Room(b), pool.ContentOf(b);
    pool.RoomIsNatural(b);
    EncodeAddresses(pool, b, from, to, digis, ndigis, ctrl, pid);
    FitConcat(Addresses(h), [ctrl], room);
    pool.PutByte(b, ctrl);
    assert pool.ContentOf(b) == base + Fit(Addresses(h) + [ctrl], room);
    if HasPid(ctrl) {
      FitConcat(Addresses(h) + [ctrl], [pid], room);
      pool.PutByte(b, pid);
      assert Addresses(h) + [ctrl] + [pid] == Encoded(h);
    }
    assert digis[..ndigis] == h.digis;
  }

  /** The address fields. */
  method EncodeAddresses(pool: Pool, b: Fbuf, from: Addr, to: Addr, digis: array<Addr>, ndigis: nat, ghost ctrl: bv8, ghost pid: bv8)
    requires pool.Valid() && b in pool.chains && pool.Writable(b) && ndigis <= digis.Length
    modifies pool, pool.slots, b`wslot, b`length
    ensures pool.Valid() && pool.chains.Keys == old(pool.chains.Keys) && pool.Writable(b)
    ensures var s := Addresses(Header(to, from, digis[..ndigis], ctrl, pid));
            && pool.ContentOf(b) == old(pool.ContentOf(b)) + Fit(s, old(pool.Room(b)))
            && 0 <= pool.Room(b) == old(pool.Room(b)) - |Fit(s, old(pool.Room(b)))|
    ensures (old(pool.OnlyWritten(b)) ==> pool.OnlyWritten(b)) && pool.free_slots <= old(pool.free_slots)
    ensures forall h :: h in pool.chains && h != b ==>
              pool.chains[h] == old(pool.chains[h]) && pool.PartsOf(h) == old(pool.PartsOf(h))
  {
    hide Inv, Pool.Writable, Pool.OnlyWritten, Pool.Room, Parts, Flat, Pool.Valid, Fit, WithLast, HopOctets, AddrOctets;
    var n := if ndigis > MAX_DIGIS then 0 else ndigis;
    ghost var p, room, base := Path(digis[..ndigis]), pool.Room(b), pool.ContentOf(b);
    ghost var one, two := AddrOctets(to.callsign, to.ssid, 0), AddrOctets(from.callsign, from.ssid, WithLast(0, p == []));
    pool.RoomIsNatural(b);
    NoLast();
    EncodeAddr(pool, b, to.callsign, to.ssid, 0);
    FitConcat(one, two, room);
    EncodeAddr(pool, b, from.callsign, from.ssid, if n == 0 then FLAG_LAST else 0);
    assert pool.ContentOf(b) == base + Fit(one + two, room);
    EncodeHops(pool, b, digis, n);
    assert digis[..n] == p;
    FitConcat(one + two, HopOctets(p, n), room);
  }

  /** The loop over the hops. */
  method EncodeHops(pool: Pool, b: Fbuf, digis: array<Addr>, n: nat)
    requires pool.Valid() && b in pool.chains && pool.Writable(b) && n <= digis.Length
    modifies pool, pool.slots, b`wslot, b`length
    ensures pool.Valid() && pool.chains.Keys == old(pool.chains.Keys) && pool.Writable(b)
    ensures pool.ContentOf(b) == old(pool.ContentOf(b)) + Fit(HopOctets(digis[..n], n), old(pool.Room(b)))
    ensures 0 <= pool.Room(b) == old(pool.Room(b)) - |Fit(HopOctets(digis[..n], n), old(pool.Room(b)))|
    ensures (old(pool.OnlyWritten(b)) ==> pool.OnlyWritten(b)) && pool.free_slots <= old(pool.free_slots)
    ensures forall h :: h in pool.chains && h != b ==>
              pool.chains[h] == old(pool.chains[h]) && pool.PartsOf(h) == old(pool.PartsOf(h))
  {
    hide Inv, Pool.Writable, Pool.OnlyWritten, Pool.Room, Parts, Flat, WithLast, AddrOctets, Pool.Valid, Fit;
    pool.RoomIsNatural(b);
    ghost var p, room := digis[..n], pool.Room(b);
    FitNothing(room);
    var i := 0;
    while i < n
      invariant i <= n && digis[..n] == p
      invariant pool.Valid() && pool.chains.Keys == old(pool.chains.Keys) && pool.Writable(b)
      invariant pool.ContentOf(b) == old(pool.ContentOf(b)) + Fit(HopOctets(p, i), room)
      invariant 0 <= pool.Room(b) == room - |Fit(HopOctets(p, i), room)|
      invariant (old(pool.OnlyWritten(b)) ==> pool.OnlyWritten(b)) && pool.free_slots <= old(pool.free_slots)
      invariant forall h :: h in pool.chains && h != b ==>
                  pool.chains[h] == old(pool.chains[h]) && pool.PartsOf(h) == old(pool.PartsOf(h))
    {
      FitConcat(HopOctets(p, i), AddrOctets(p[i].callsign, p[i].ssid, HopFlags(p, i)), room);
      EncodeAddr(pool, b, digis[i].callsign, digis[i].ssid, WithLast(digis[i].flags, i + 1 == n));
      i := i + 1;
    }
  }

  lemma NoLast()
    ensures WithLast(0, true) == FLAG_LAST && WithLast(0, false) == 0
  {
  }

  /** `decode_addr` */
  method DecodeAddr(pool: Pool, b: Fbuf, ghost k: nat) returns (a: Addr)
    requires pool.Valid() && b in pool.chains && pool.ReadsAt(b, k) && k + 7 <= |pool.ContentOf(b)| && pool.ReadableTo(b, k + 8)
    modifies b`rslot, b`rpos
    ensures pool.Valid() && pool.ReadsAt(b, k + 7)
    ensures a == AddrOf(pool.ContentOf(b)[k..k + 7])
  {
    hide Inv, Parts, Flat, ClearTo, Pool.ReadsAt, Pool.Valid, OctetChar, OctetSsid, OctetFlags, CString;
    ghost var s := pool.ContentOf(b);
    var c: seq<bv8> := [];
    var i := 0;
    while i < 6
      invariant i <= 6 && pool.Valid() && pool.ReadsAt(b, k + i)
      invariant c == CallChars(s[k..k + i])
    {
      ClearToLess(pool.PartsOf(b), k + i + 2, k + 8);
      var x := pool.GetChar(b, k + i);
      assert s[k..k + (i + 1)][..i] == s[k..k + i];
      if OctetChar(x) != SPACE {
        c := c + [OctetChar(x)];
      }
      i := i + 1;
    }
    var x := pool.GetChar(b, k + 6);
    assert s[k..k + 7][..6] == s[k..k + 6];
    a := Addr(CString(c), OctetSsid(x), OctetFlags(x));
  }

  /** `ax25_decode_header` */
  method DecodeHeader(pool: Pool, b: Fbuf, digis: array<Addr>) returns (n: nat, from: Addr, to: Addr, ctrl: bv8, pid: bv8)
    requires pool.Valid() && b in pool.chains && pool.ReadsAt(b, 0) && digis.Length == MAX_DIGIS
    requires Complete(pool.ContentOf(b)) && pool.ReadableTo(b, 16 + 7 * Hops(pool.ContentOf(b)))
    modifies b`rslot, b`rpos, digis
    ensures pool.Valid() && n == NDigis(pool.ContentOf(b))
    ensures var n := 16 + 7 * Hops(pool.ContentOf(b)); pool.ReadableTo(b, n + 1) ==> pool.ReadsAt(b, n)
    ensures Header(to, from, digis[..Hops(pool.ContentOf(b))], ctrl, pid) == Decoded(pool.ContentOf(b))
  {
    hide Inv, Parts, Flat, ClearTo, Pool.ReadsAt, Pool.Valid, AddrOf, IsLast, OctetFlags, Field, HopsRead, LastHop;
    ghost var s := pool.ContentOf(b);
    TwoFields(s);
    ClearToLess(pool.PartsOf(b), 8, 16 + 7 * Hops(s));
    ClearToLess(pool.PartsOf(b), 15, 16 + 7 * Hops(s));
    to := DecodeAddr(pool, b, 0);
    from := DecodeAddr(pool, b, 7);
    n := 0;
    if !IsLast(from.flags) {
      n := DecodeHops(pool, b, digis);
    }
    ctrl := pool.GetChar(b, 14 + 7 * Hops(s));
    pid := pool.GetChar(b, 15 + 7 * Hops(s));
    assert digis[..Hops(s)] == Decoded(s).digis;
  }

  lemma TwoFields(s: seq<bv8>)
    requires Complete(s)
    ensures |s| >= 16 && Field(s, 0) == s[0..7] && Field(s, 1) == s[7..14]
    ensures IsLast(AddrOf(Field(s, 1)).flags) == LastField(s, 1)
    ensures Hops(s) == 0 ==> LastField(s, 1)
  {
    FlagsOfField(s, 1);
  }

  /** The loop over the hops. */
  method DecodeHops(pool: Pool, b: Fbuf, digis: array<Addr>) returns (n: nat)
    requires pool.Valid() && b in pool.chains && pool.ReadsAt(b, 14) && digis.Length == MAX_DIGIS
    requires var s := pool.ContentOf(b); 16 + 7 * HopsRead(s, 0) <= |s| && pool.ReadableTo(b, 16 + 7 * HopsRead(s, 0))
    modifies b`rslot, b`rpos, digis
    ensures pool.Valid()
    ensures var s := pool.ContentOf(b);
            var hops := HopsRead(s, 0);
            && pool.ReadsAt(b, 14 + 7 * hops)
            && n == (if hops == MAX_DIGIS && !LastHop(s, MAX_DIGIS - 1) then MAX_DIGIS + 1 else hops)
            && forall j :: 0 <= j < hops ==> digis[j] == AddrOf(Field(s, j + 2))
  {
    hide Inv, Parts, Flat, ClearTo, Pool.ReadsAt, Pool.Valid, AddrOf, IsLast, OctetFlags, Field, HopsRead, LastHop;
    ghost var s := pool.ContentOf(b);
    n := 0;
    while n < MAX_DIGIS
      invariant n <= MAX_DIGIS && pool.Valid() && pool.ReadsAt(b, 14 + 7 * n)
      invariant HopsRead(s, 0) == HopsRead(s, n) && (n > 0 ==> !LastHop(s, n - 1))
      invariant forall j :: 0 <= j < n ==> digis[j] == AddrOf(Field(s, j + 2))
    {
      HopStep(s, n);
      ClearToLess(pool.PartsOf(b), 14 + 7 * n + 8, 16 + 7 * HopsRead(s, 0));
      var a := DecodeAddr(pool, b, 14 + 7 * n);
      digis[n] := a;
      n := n + 1;
      if IsLast(a.flags) {
        return;
      }
    }
    HopsAtMost(s);
    n := n + 1;
  }

  lemma HopStep(s: seq<bv8>, n: nat)
    requires n < MAX_DIGIS && 16 + 7 * HopsRead(s, n) <= |s|
    ensures 7 * (n + 3) <= |s| && Field(s, n + 2) == s[14 + 7 * n..14 + 7 * n + 7]
    ensures IsLast(AddrOf(Field(s, n + 2)).flags) == LastHop(s, n)
    ensures HopsRead(s, n) == if LastHop(s, n) then n + 1 else HopsRead(s, n + 1)
  {
    FlagsOfField(s, n + 2);
  }

  lemma HopsAtMost(s: seq<bv8>)
    ensures HopsRead(s, MAX_DIGIS) == MAX_DIGIS
  {
  }
}
