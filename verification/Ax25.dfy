/** AX.25 addresses and headers (section 3.12 of AX.25 v2.2): what is written, what is read. */
module Ax25 {
  const FLAG_LAST: bv8 := 0x01
  const FLAG_DIGI: bv8 := 0x80
  const FTYPE_UI: bv8 := 0x03
  const SPACE: bv8 := 0x20
  const MAX_DIGIS: nat := 7

  /** An address; `callsign` is the C string, without its terminating zero. */
  datatype Addr = Addr(callsign: seq<bv8>, ssid: bv8, flags: bv8)

  // ---- Octets -----------------------------------------------------------------------

  function CharOctet(c: bv8): bv8 { c << 1 }
  function OctetChar(x: bv8): bv8 { x >> 1 }
  function SsidOctet(ssid: bv8, flags: bv8): bv8 { ((ssid & 0x0F) << 1) | (flags & 0x81) | 0x60 }
  function OctetSsid(x: bv8): bv8 { (x & 0x1E) >> 1 }
  function OctetFlags(x: bv8): bv8 { x & 0x81 }
  predicate IsLast(flags: bv8) { flags & FLAG_LAST != 0 }
  predicate IsUsed(flags: bv8) { flags & FLAG_DIGI != 0 }
  function WithLast(flags: bv8, last: bool): bv8 { if last then flags | FLAG_LAST else flags }

  lemma CharBack(c: bv8)
    requires c < 0x80
    ensures OctetChar(CharOctet(c)) == c
  {
  }

  lemma OctetCharIsSmall(x: bv8)
    ensures OctetChar(x) < 0x80
  {
  }

  lemma SsidBack(ssid: bv8, flags: bv8)
    ensures OctetSsid(SsidOctet(ssid, flags)) == ssid & 0x0F
  {
  }

  lemma FlagsBack(ssid: bv8, flags: bv8)
    ensures OctetFlags(SsidOctet(ssid, flags)) == flags & 0x81
  {
  }

  lemma SmallSsid(ssid: bv8)
    ensures ssid & 0x0F == ssid <==> ssid < 16
  {
  }

  lemma OctetSsidIsSmall(x: bv8)
    ensures OctetSsid(x) < 16
  {
  }

  lemma LastOfMasked(flags: bv8)
    ensures IsLast(OctetFlags(flags)) == IsLast(flags)
  {
  }

  lemma LastOfWithLast(flags: bv8, last: bool)
    ensures IsLast(WithLast(flags, last)) == (last || IsLast(flags))
  {
  }

  // ---- Addresses ----------------------------------------------------------------------

  function CallOctet(call: seq<bv8>, i: nat): bv8 {
    CharOctet(if i < |call| then call[i] else SPACE)
  }

  function CallOctets(call: seq<bv8>, n: nat): (s: seq<bv8>)
    ensures |s| == n
  {
    seq(n, i requires 0 <= i < n => CallOctet(call, i))
  }

  function AddrOctets(call: seq<bv8>, ssid: bv8, flags: bv8): (s: seq<bv8>)
    ensures |s| == 7
  {
    CallOctets(call, 6) + [SsidOctet(ssid, flags)]
  }

  /** The characters of a callsign field that are not spaces. */
  function CallChars(s: seq<bv8>): (c: seq<bv8>)
    ensures |c| <= |s|
    ensures forall x :: x in c ==> x != SPACE && x < 0x80
  {
    if s == [] then []
    else
      var c := CallChars(s[..|s| - 1]);
      OctetCharIsSmall(s[|s| - 1]);
      if OctetChar(s[|s| - 1]) != SPACE then c + [OctetChar(s[|s| - 1])] else c
  }

  /** An array as the string up to its first zero. */
  function CString(s: seq<bv8>): (c: seq<bv8>)
    ensures c <= s && 0 !in c && (c == s || s[|c|] == 0)
  {
    if s == [] || s[0] == 0 then [] else [s[0]] + CString(s[1..])
  }

  lemma {:induction false} CStringOfNonZero(s: seq<bv8>)
    requires 0 !in s
    ensures CString(s) == s
  {
    if s != [] {
      CStringOfNonZero(s[1..]);
    }
  }

  function AddrOf(s: seq<bv8>): Addr
    requires |s| == 7
  {
    Addr(CString(CallChars(s[..6])), OctetSsid(s[6]), OctetFlags(s[6]))
  }

  // ---- Addresses on the air ---------------------------------------------------------------

  /** The octet on the air for place `i` of a callsign: its characters moved up one bit, then spaces. */
  lemma CallOnAir(call: seq<bv8>, ssid: bv8, flags: bv8, i: nat)
    requires i < 6
    ensures AddrOctets(call, ssid, flags)[i] == if i < |call| then call[i] << 1 else 0x40
  {
  }

  /** And the last octet: the two bits that are not used are set, and of the flags the used
      mark is the highest bit and the end mark the lowest. */
  lemma SsidOnAir(call: seq<bv8>, ssid: bv8, flags: bv8)
    ensures AddrOctets(call, ssid, flags)[6] ==
            0x60 + 2 * (ssid % 16) + (if flags & 0x80 != 0 then 0x80 else 0) + (if flags & 0x01 != 0 then 0x01 else 0)
  {
  }

  /** How many octets of a callsign field are not the space, with either value of the bit that is dropped. */
  function KeptOctets(s: seq<bv8>): (n: nat)
    ensures n <= |s|
  {
    if s == [] then 0
    else KeptOctets(s[..|s| - 1]) + if s[|s| - 1] == 0x40 || s[|s| - 1] == 0x41 then 0 else 1
  }

  lemma IsSpace(x: bv8)
    ensures OctetChar(x) == SPACE <==> x == 0x40 || x == 0x41
  {
  }

  lemma {:induction false} KeptCount(s: seq<bv8>)
    ensures |CallChars(s)| == KeptOctets(s)
  {
    if s != [] {
      IsSpace(s[|s| - 1]);
      KeptCount(s[..|s| - 1]);
    }
  }

  /** The characters read are the octets that are not spaces, moved down one bit, in their order. */
  lemma {:induction false} KeptChar(s: seq<bv8>, k: nat)
    requires k < |s| && s[k] != 0x40 && s[k] != 0x41
    ensures KeptOctets(s[..k]) < |CallChars(s)| == KeptOctets(s) && CallChars(s)[KeptOctets(s[..k])] == s[k] >> 1
    decreases |s|
  {
    hide OctetChar;
    var n := |s| - 1;
    KeptCount(s);
    KeptCount(s[..n]);
    IsSpace(s[n]);
    if k == n {
      CharOfOctet(s[n]);
    } else {
      KeptChar(s[..n], k);
      assert s[..n][..k] == s[..k];
    }
  }

  lemma CharOfOctet(x: bv8)
    ensures OctetChar(x) == x >> 1
  {
  }

  /** What an address field reads as: the callsign is what is left of its six characters
      without the spaces, up to a zero. */
  lemma AddrFromAir(s: seq<bv8>, k: nat)
    requires |s| == 7 && k < 6 && s[k] != 0x40 && s[k] != 0x41
    ensures var p, call := KeptOctets(s[..k]), AddrOf(s).callsign;
            && (p < |call| ==> call[p] == s[k] >> 1 && s[k] >> 1 != 0)
            && (p == |call| ==> s[k] >> 1 == 0)
            && |call| <= KeptOctets(s[..6])
    ensures AddrOf(s).ssid == s[6] / 2 % 16
    ensures AddrOf(s).flags == (if s[6] >= 0x80 then 0x80 else 0) + s[6] % 2
  {
    assert s[..6][k] == s[k] && s[..6][..k] == s[..k];
    KeptChar(s[..6], k);
    SsidFromAir(s[6]);
    hide CallChars, OctetSsid, OctetFlags, CString;
    FirstZero(CallChars(s[..6]), KeptOctets(s[..k]));
  }

  lemma FirstZero(s: seq<bv8>, p: nat)
    requires p < |s|
    ensures p < |CString(s)| ==> CString(s)[p] == s[p] && s[p] != 0
    ensures p == |CString(s)| ==> s[p] == 0
    ensures |CString(s)| <= |s|
  {
    if p < |CString(s)| { assert CString(s)[p] in CString(s); }
  }

  lemma SsidFromAir(x: bv8)
    ensures OctetSsid(x) == x / 2 % 16
    ensures OctetFlags(x) == (if x >= 0x80 then 0x80 else 0) + x % 2
  {
  }

  /** What an address can be: at most six characters of seven bits, none a space or zero. */
  predicate GoodCall(call: seq<bv8>) {
    |call| <= 6 && forall c :: c in call ==> c != SPACE && 0 < c < 0x80
  }

  predicate Good(a: Addr) { GoodCall(a.callsign) && a.ssid < 16 }

  lemma {:induction false} CallCharsOfOctets(call: seq<bv8>, n: nat)
    requires GoodCall(call)
    ensures CallChars(CallOctets(call, n)) == if n < |call| then call[..n] else call
  {
    if n > 0 {
      assert CallOctets(call, n)[..n - 1] == CallOctets(call, n - 1);
      CallCharsOfOctets(call, n - 1);
      if n - 1 < |call| {
        assert call[n - 1] in call;
        CharBack(call[n - 1]);
        assert n < |call| ==> call[..n] == call[..n - 1] + [call[n - 1]];
        assert n == |call| ==> call == call[..n - 1] + [call[n - 1]];
      } else {
        CharBack(SPACE);
      }
    }
  }

  /** Every address read is one that can be written. */
  lemma ReadIsGood(s: seq<bv8>)
    requires |s| == 7
    ensures Good(AddrOf(s))
  {
    OctetSsidIsSmall(s[6]);
    var chars := CallChars(s[..6]);
    forall c | c in CString(chars) ensures c != SPACE && 0 < c < 0x80 {
      assert c != 0 && c in chars;
    }
  }

  /** An address is read back as it was written exactly when it is a good one. */
  lemma AddrRoundTrip(call: seq<bv8>, ssid: bv8, flags: bv8)
    ensures AddrOf(AddrOctets(call, ssid, flags)) == Addr(call, ssid, flags & 0x81) <==> Good(Addr(call, ssid, flags))
  {
    hide CallChars, CString, SsidOctet, OctetSsid, OctetFlags, CallOctet;
    var s := AddrOctets(call, ssid, flags);
    assert s[..6] == CallOctets(call, 6);
    ReadIsGood(s);
    FlagsBack(ssid, flags);
    SsidBack(ssid, flags);
    SmallSsid(ssid);
    if GoodCall(call) {
      CallCharsOfOctets(call, 6);
      CStringOfNonZero(call);
      assert |call| == 6 ==> call[..6] == call;
    }
  }

  // ---- Headers --------------------------------------------------------------------------

  datatype Header = Header(to: Addr, from: Addr, digis: seq<Addr>, ctrl: bv8, pid: bv8)

  /** I and UI frames have a PID. */
  predicate HasPid(ctrl: bv8) { ctrl & 0x01 == 0 || ctrl == FTYPE_UI }

  /** `ax25_encode_header` writes no path at all if it is given too long a one. */
  function Path(digis: seq<Addr>): (p: seq<Addr>)
    ensures |p| <= MAX_DIGIS
  {
    if |digis| > MAX_DIGIS then [] else digis
  }

  function HopFlags(p: seq<Addr>, i: nat): bv8
    requires i < |p|
  {
    WithLast(p[i].flags, i + 1 == |p|)
  }

  /** The octets of the first `k` hops. */
  function HopOctets(p: seq<Addr>, k: nat): (s: seq<bv8>)
    requires k <= |p|
    ensures |s| == 7 * k
  {
    if k == 0 then []
    else HopOctets(p, k - 1) + AddrOctets(p[k - 1].callsign, p[k - 1].ssid, HopFlags(p, k - 1))
  }

  function Addresses(h: Header): (s: seq<bv8>)
    ensures |s| == 14 + 7 * |Path(h.digis)|
  {
    var p := Path(h.digis);
    AddrOctets(h.to.callsign, h.to.ssid, 0)
    + AddrOctets(h.from.callsign, h.from.ssid, WithLast(0, p == []))
    + HopOctets(p, |p|)
  }

  /** The octets of a header. */
  function Encoded(h: Header): seq<bv8> {
    Addresses(h) + (if HasPid(h.ctrl) then [h.ctrl, h.pid] else [h.ctrl])
  }

  function Field(s: seq<bv8>, i: nat): (f: seq<bv8>)
    requires 7 * (i + 1) <= |s|
    ensures |f| == 7
  {
    s[7 * i..7 * (i + 1)]
  }

  /** Address field `i` is there and is the last one. */
  predicate LastField(s: seq<bv8>, i: nat) {
    7 * (i + 1) <= |s| && IsLast(OctetFlags(s[7 * i + 6]))
  }

  /** Hop `i` is marked as the last address. */
  predicate LastHop(s: seq<bv8>, i: nat) { LastField(s, i + 2) }

  /** How many hops the decoder reads, the first `i` of them being read already. */
  function HopsRead(s: seq<bv8>, i: nat): (n: nat)
    requires i <= MAX_DIGIS
    ensures i <= n <= MAX_DIGIS
    ensures forall j :: i <= j < n - 1 ==> !LastHop(s, j)
    ensures i < MAX_DIGIS ==> i < n
    ensures i < n < MAX_DIGIS ==> LastHop(s, n - 1)
    decreases MAX_DIGIS - i
  {
    if i == MAX_DIGIS then i else if LastHop(s, i) then i + 1 else HopsRead(s, i + 1)
  }

  function Hops(s: seq<bv8>): (n: nat)
    ensures n <= MAX_DIGIS
  {
    if LastField(s, 1) then 0 else HopsRead(s, 0)
  }

  /** The number of hops that `ax25_decode_header` returns: one too many if none of the
      seven is marked as the last. */
  function NDigis(s: seq<bv8>): nat {
    if Hops(s) == MAX_DIGIS && !LastHop(s, MAX_DIGIS - 1) then MAX_DIGIS + 1 else Hops(s)
  }

  /** Everything `ax25_decode_header` reads is there. */
  predicate Complete(s: seq<bv8>) { 16 + 7 * Hops(s) <= |s| }

  function Decoded(s: seq<bv8>): Header
    requires Complete(s)
  {
    var n := Hops(s);
    Header(AddrOf(Field(s, 0)), AddrOf(Field(s, 1)),
           seq(n, i requires 0 <= i < n => AddrOf(Field(s, i + 2))),
           s[14 + 7 * n], s[15 + 7 * n])
  }

  // ---- Headers on the air -------------------------------------------------------------------

  /** The addresses in the order in which they go out. */
  function AddressNo(h: Header, j: nat): Addr
    requires j < |h.digis| + 2
  {
    if j == 0 then h.to else if j == 1 then h.from else h.digis[j - 2]
  }

  /** Every octet of an address field of a header: destination, source, then the hops. Only hops
      keep their used mark, and the final address has the end mark. */
  lemma HeaderOnAir(h: Header, j: nat, i: nat)
    requires |h.digis| <= 7 && j < |h.digis| + 2 && i < 6
    ensures var s, a := Encoded(h), AddressNo(h, j);
            && 7 * j + 6 < |s| && s[7 * j + i] == (if i < |a.callsign| then a.callsign[i] << 1 else 0x40)
            && s[7 * j + 6] == 0x60 + 2 * (a.ssid % 16) + (if j >= 2 && a.flags & 0x80 != 0 then 0x80 else 0)
                               + (if j == |h.digis| + 1 || (j >= 2 && a.flags & 0x01 != 0) then 0x01 else 0)
  {
    hide AddrOctets, WithLast, Encoded;
    var s, a, flags := Encoded(h), AddressNo(h, j), AirFlags(h, j);
    FieldOnAir(h, j);
    CallOnAir(a.callsign, a.ssid, flags, i);
    SsidOnAir(a.callsign, a.ssid, flags);
    FlagBits(flags, 0, h.digis == []);
    if j >= 2 { FlagBits(flags, a.flags, j == |h.digis| + 1); }
    assert s[7 * j + i] == Field(s, j)[i] && s[7 * j + 6] == Field(s, j)[6];
  }

  function AirFlags(h: Header, j: nat): bv8
    requires j < |h.digis| + 2
  {
    if j == 0 then 0 else if j == 1 then WithLast(0, h.digis == []) else HopFlags(h.digis, j - 2)
  }

  lemma FieldOnAir(h: Header, j: nat)
    requires |h.digis| <= 7 && j < |h.digis| + 2
    ensures 7 * (j + 1) <= |Encoded(h)|
    ensures Field(Encoded(h), j) == AddrOctets(AddressNo(h, j).callsign, AddressNo(h, j).ssid, AirFlags(h, j))
  {
    hide AddrOctets, WithLast, Encoded, Field, HopFlags;
    FieldsThere(h, []);
    assert Encoded(h) + [] == Encoded(h);
    if j >= 2 { var k := j - 2; assert Field(Encoded(h), k + 2) == Field(Encoded(h), j); }
  }

  lemma FlagBits(flags: bv8, own: bv8, last: bool)
    ensures flags == WithLast(own, last) ==> (flags & 0x80 != 0) == (own & 0x80 != 0) && (flags & 0x01 != 0) == (last || own & 0x01 != 0)
  {
  }

  /** What comes behind the addresses: the control octet, and the PID in I and UI frames only. */
  lemma HeaderEndOnAir(h: Header)
    requires |h.digis| <= 7
    ensures var s, n := Encoded(h), 14 + 7 * |h.digis|;
            s[n..] == if h.ctrl % 2 == 0 || h.ctrl == 0x03 then [h.ctrl, h.pid] else [h.ctrl]
  {
    assert |Addresses(h)| == 14 + 7 * |h.digis|;
    hide Addresses;
    EvenCtrl(h.ctrl);
  }

  lemma EvenCtrl(ctrl: bv8)
    ensures HasPid(ctrl) <==> ctrl % 2 == 0 || ctrl == 0x03
  {
  }

  /** A path of more than seven hops is left out altogether. */
  lemma LongPath(h: Header)
    requires |h.digis| > 7
    ensures Encoded(h) == Encoded(h.(digis := []))
  {
    hide AddrOctets;
  }

  /** Address `j` has the end mark. */
  predicate EndMark(s: seq<bv8>, j: nat)
    requires 7 * j + 6 < |s|
  {
    s[7 * j + 6] % 2 == 1
  }

  lemma EndMarkIs(x: bv8)
    ensures IsLast(OctetFlags(x)) <==> x % 2 == 1
  {
  }

  /** How many hops are read: up to the first address after the destination that has the end
      mark, or seven; and eight is what is returned if none of those seven has it. */
  lemma HopsFromAir(s: seq<bv8>)
    requires Complete(s)
    ensures var n := Hops(s);
            && 16 + 7 * n <= |s| && n <= 7
            && (forall j :: 1 <= j <= n ==> !EndMark(s, j)) && (n < 7 ==> EndMark(s, n + 1))
            && NDigis(s) == if n == 7 && !EndMark(s, 8) then 8 else n
  {
    var n := Hops(s);
    forall j: nat | 1 <= j <= n + 1 ensures LastField(s, j) == EndMark(s, j) {
      EndMarkIs(s[7 * j + 6]);
    }
    hide LastField, EndMark;
    forall j | 1 <= j <= n ensures !EndMark(s, j) {
      if j >= 2 { assert !LastHop(s, j - 2); }
    }
    if 0 < n < 7 { assert LastHop(s, n - 1); }
  }

  /** And where everything is read from. */
  lemma HeaderFromAir(s: seq<bv8>, j: nat)
    requires Complete(s) && j < Hops(s) + 2
    ensures var h := Decoded(s);
            && |h.digis| == Hops(s) && AddressNo(h, j) == AddrOf(s[7 * j..7 * j + 7])
            && h.ctrl == s[14 + 7 * Hops(s)] && h.pid == s[15 + 7 * Hops(s)]
  {
    hide AddrOf, Hops;
    assert Field(s, j) == s[7 * j..7 * j + 7];
  }

  // ---- The round trip ----------------------------------------------------------------------

  lemma {:induction false} HopIsThere(p: seq<Addr>, k: nat, i: nat)
    requires i < k <= |p|
    ensures HopOctets(p, k)[7 * i..7 * (i + 1)] == AddrOctets(p[i].callsign, p[i].ssid, HopFlags(p, i))
  {
    hide AddrOctets, HopFlags;
    if i + 1 < k {
      HopIsThere(p, k - 1, i);
      assert HopOctets(p, k)[7 * i..7 * (i + 1)] == HopOctets(p, k - 1)[7 * i..7 * (i + 1)];
    }
  }

  lemma FieldsThere(h: Header, rest: seq<bv8>)
    ensures var s := Encoded(h) + rest;
            var p := Path(h.digis);
            && |s| >= 15 + 7 * |p|
            && Field(s, 0) == AddrOctets(h.to.callsign, h.to.ssid, 0)
            && Field(s, 1) == AddrOctets(h.from.callsign, h.from.ssid, WithLast(0, p == []))
            && forall i: nat :: i < |p| ==> Field(s, i + 2) == AddrOctets(p[i].callsign, p[i].ssid, HopFlags(p, i))
  {
    var s, p := Encoded(h) + rest, Path(h.digis);
    AddressFields(h, rest);
    hide AddrOctets, HopFlags, HopOctets, Path, Encoded, Field;
    forall i: nat | i < |p| ensures Field(s, i + 2) == AddrOctets(p[i].callsign, p[i].ssid, HopFlags(p, i)) {
      HopIsThere(p, |p|, i);
      SliceOfSlice(s, 14, 14 + 7 * |p|, 7 * i);
      FieldIs(s, i + 2, 14 + 7 * i);
    }
    FieldIs(s, 0, 0);
    FieldIs(s, 1, 7);
  }

  lemma FieldIs(s: seq<bv8>, i: nat, at: nat)
    requires at == 7 * i && at + 7 <= |s|
    ensures Field(s, i) == s[at..at + 7]
  {
  }

  lemma AddressFields(h: Header, rest: seq<bv8>)
    ensures var s, p := Encoded(h) + rest, Path(h.digis);
            && 15 + 7 * |p| <= |s| && s[0..7] == AddrOctets(h.to.callsign, h.to.ssid, 0)
            && s[7..14] == AddrOctets(h.from.callsign, h.from.ssid, WithLast(0, p == []))
            && s[14..14 + 7 * |p|] == HopOctets(p, |p|)
  {
    hide AddrOctets, HopOctets, WithLast, Path;
    var p := Path(h.digis);
    var a, b := AddrOctets(h.to.callsign, h.to.ssid, 0), AddrOctets(h.from.callsign, h.from.ssid, WithLast(0, p == []));
    Pieces(a, b, HopOctets(p, |p|), (if HasPid(h.ctrl) then [h.ctrl, h.pid] else [h.ctrl]) + rest);
    assert Encoded(h) + rest == a + b + HopOctets(p, |p|) + ((if HasPid(h.ctrl) then [h.ctrl, h.pid] else [h.ctrl]) + rest);
  }

  lemma Pieces(a: seq<bv8>, b: seq<bv8>, c: seq<bv8>, d: seq<bv8>)
    requires |a| == |b| == 7
    ensures var s := a + b + c + d;
            s[0..7] == a && s[7..14] == b && s[14..14 + |c|] == c
  {
  }

  lemma SliceOfSlice(s: seq<bv8>, a: nat, b: nat, i: nat)
    requires a <= b <= |s| && a + i + 7 <= b
    ensures s[a..b][i..i + 7] == s[a + i..a + i + 7]
  {
    var x, y := s[a..b][i..i + 7], s[a + i..a + i + 7];
    forall k | 0 <= k < 7 ensures x[k] == y[k] {
      assert s[a..b][i + k] == s[a + i + k];
    }
  }

  lemma LastOfAddr(s: seq<bv8>, i: nat, call: seq<bv8>, ssid: bv8, flags: bv8)
    requires 7 * (i + 1) <= |s| && Field(s, i) == AddrOctets(call, ssid, flags)
    ensures LastField(s, i) == IsLast(flags)
  {
    assert s[7 * i + 6] == Field(s, i)[6] == SsidOctet(ssid, flags);
    FlagsBack(ssid, flags);
    LastOfMasked(flags);
  }

  /** No hop but the final one is marked as the last. */
  predicate MarkedAtEndOnly(p: seq<Addr>) {
    forall i :: 0 <= i < |p| - 1 ==> !IsLast(p[i].flags)
  }

  /** The decoder stops at the first hop that is marked, which is the final one if no other is. */
  lemma HopsOfEncoded(h: Header, rest: seq<bv8>)
    requires |h.digis| <= MAX_DIGIS
    ensures Hops(Encoded(h) + rest) == |h.digis| <==> MarkedAtEndOnly(h.digis)
    ensures MarkedAtEndOnly(h.digis) ==> NDigis(Encoded(h) + rest) == |h.digis|
  {
    hide Encoded, AddrOctets, SsidOctet, WithLast, IsLast, OctetFlags, LastField;
    var s := Encoded(h) + rest;
    var p := h.digis;
    FieldsThere(h, rest);
    LastOfAddr(s, 1, h.from.callsign, h.from.ssid, WithLast(0, p == []));
    LastOfWithLast(0, p == []);
    NotLast();
    forall i: nat | i < |p| ensures LastHop(s, i) == (i + 1 == |p| || IsLast(p[i].flags)) {
      LastOfAddr(s, i + 2, p[i].callsign, p[i].ssid, HopFlags(p, i));
      LastOfWithLast(p[i].flags, i + 1 == |p|);
    }
    if p != [] {
      HopsWithMarks(s, p);
      assert LastHop(s, |p| - 1);
    }
  }

  lemma HopsWithMarks(s: seq<bv8>, p: seq<Addr>)
    requires 0 < |p| <= MAX_DIGIS
    requires forall i: nat :: i < |p| ==> LastHop(s, i) == (i + 1 == |p| || IsLast(p[i].flags))
    ensures HopsRead(s, 0) == |p| <==> MarkedAtEndOnly(p)
  {
    hide LastHop, IsLast;
    var n := HopsRead(s, 0);
    assert LastHop(s, |p| - 1);
    if n == |p| {
      forall i | 0 <= i < |p| - 1 ensures !IsLast(p[i].flags) {
        assert !LastHop(s, i);
      }
    }
  }

  lemma NotLast()
    ensures !IsLast(0)
  {
  }

  /** The header as the other side sees it: flags are kept on hops only, and the last
      address is marked. */
  function Received(h: Header): Header {
    Header(h.to.(flags := 0), h.from.(flags := WithLast(0, h.digis == [])),
           seq(|h.digis|, i requires 0 <= i < |h.digis| => h.digis[i].(flags := OctetFlags(HopFlags(h.digis, i)))),
           h.ctrl, h.pid)
  }

  ghost predicate GoodHeader(h: Header) {
    && Good(h.to) && Good(h.from) && |h.digis| <= MAX_DIGIS
    && (forall a :: a in h.digis ==> Good(a)) && MarkedAtEndOnly(h.digis)
  }

  lemma FieldDecodes(s: seq<bv8>, i: nat, a: Addr, flags: bv8)
    requires 7 * (i + 1) <= |s| && Field(s, i) == AddrOctets(a.callsign, a.ssid, flags) && Good(a)
    ensures AddrOf(Field(s, i)) == a.(flags := OctetFlags(flags))
  {
    AddrRoundTrip(a.callsign, a.ssid, flags);
  }

  lemma FromFlags(last: bool)
    ensures OctetFlags(WithLast(0, last)) == WithLast(0, last) && OctetFlags(0) == 0
  {
  }

  /** What is encoded is decoded, with whatever follows it left behind. */
  lemma HeaderRoundTrip(h: Header, rest: seq<bv8>)
    requires GoodHeader(h) && HasPid(h.ctrl)
    ensures var s := Encoded(h) + rest;
            && Complete(s) && NDigis(s) == Hops(s) == |h.digis|
            && Decoded(s) == Received(h)
            && s[16 + 7 * |h.digis|..] == rest
  {
    hide AddrOctets, WithLast, IsLast, OctetFlags, Hops, NDigis, AddrOf, Good, HopFlags;
    var s := Encoded(h) + rest;
    HopsOfEncoded(h, rest);
    FieldsThere(h, rest);
    FieldDecodes(s, 0, h.to, 0);
    FieldDecodes(s, 1, h.from, WithLast(0, h.digis == []));
    FromFlags(h.digis == []);
    forall i: nat | i < |h.digis| ensures AddrOf(Field(s, i + 2)) == h.digis[i].(flags := OctetFlags(HopFlags(h.digis, i))) {
      assert h.digis[i] in h.digis;
      FieldDecodes(s, i + 2, h.digis[i], HopFlags(h.digis, i));
    }
    assert s[14 + 7 * |h.digis|] == h.ctrl && s[15 + 7 * |h.digis|] == h.pid;
  }

  /** Without a PID the header is one octet shorter than what the decoder takes it to be:
      the first octet behind it is read as the PID. */
  lemma NoPid(h: Header, rest: seq<bv8>)
    requires GoodHeader(h) && !HasPid(h.ctrl)
    ensures var s := Encoded(h) + rest;
            && Hops(s) == |h.digis| && |Encoded(h)| == 15 + 7 * |h.digis|
            && (Complete(s) <==> rest != [])
            && (Complete(s) ==> Decoded(s).ctrl == h.ctrl && Decoded(s).pid == rest[0])
  {
    hide AddrOctets, WithLast, IsLast, OctetFlags, Hops, NDigis, AddrOf, Good, HopFlags;
    HopsOfEncoded(h, rest);
    assert |Addresses(h)| == 14 + 7 * |h.digis|;
  }

  /** Every header read can be written again, but for a path that lacks its end. */
  lemma DecodedIsGood(s: seq<bv8>)
    requires Complete(s)
    ensures GoodHeader(Decoded(s))
    ensures forall i: nat :: i < Hops(s) - 1 ==> !IsLast(Decoded(s).digis[i].flags)
  {
    hide AddrOf, Good, IsLast, OctetFlags;
    ReadIsGood(Field(s, 0));
    ReadIsGood(Field(s, 1));
    forall i | 0 <= i < Hops(s)
      ensures Good(Decoded(s).digis[i]) && Decoded(s).digis[i].flags == OctetFlags(s[7 * (i + 2) + 6])
    {
      ReadIsGood(Field(s, i + 2));
      FlagsOfField(s, i + 2);
    }
    forall i: nat | i < Hops(s) - 1 ensures !IsLast(Decoded(s).digis[i].flags) {
      assert !LastHop(s, i);
    }
  }

  lemma FlagsOfField(s: seq<bv8>, i: nat)
    requires 7 * (i + 1) <= |s|
    ensures AddrOf(Field(s, i)).flags == OctetFlags(s[7 * i + 6])
  {
  }

  // ---- Addresses as text -----------------------------------------------------------------

  const DASH: bv8 := 0x2D

  function Upper(c: bv8): bv8 { if 0x61 <= c <= 0x7A then c - 0x20 else c }

  predicate IsDigit(c: bv8) { 0x30 <= c <= 0x39 }

  /** The low octet of what `atoi` makes of a string of digits. */
  function Digits(s: seq<bv8>, acc: bv8): bv8 {
    if s == [] || !IsDigit(s[0]) then acc else Digits(s[1..], acc * 10 + (s[0] - 0x30))
  }

  function Atoi(s: seq<bv8>): bv8 {
    if s == [] then 0
    else if s[0] == SPACE || 9 <= s[0] <= 13 then Atoi(s[1..])
    else if s[0] == DASH then 0 - Digits(s[1..], 0)
    else if s[0] == 0x2B then Digits(s[1..], 0)
    else Digits(s, 0)
  }

  /** The characters `str2addr` takes for the callsign: at most `n`, up to a dash. */
  function CallPart(s: seq<bv8>, n: nat): seq<bv8> {
    if n == 0 || s == [] || s[0] == DASH then [] else [Upper(s[0])] + CallPart(s[1..], n - 1)
  }

  /** `str2addr`, on a C string without its terminating zero. */
  function StrToAddr(s: seq<bv8>, digi: bool): Addr {
    var call := CallPart(s, 7);
    var ssid := if |call| < 7 && |call| < |s| then Atoi(s[|call| + 1..]) else 0;
    Addr(call, ssid & 0x0F, if digi then FLAG_DIGI else 0)
  }

  function Decimal(n: bv8): seq<bv8> {
    if n < 10 then [0x30 + n]
    else if n < 100 then [0x30 + n / 10, 0x30 + n % 10]
    else [0x30 + n / 100, 0x30 + n / 10 % 10, 0x30 + n % 10]
  }

  /** `addr2str` */
  function AddrToStr(a: Addr): seq<bv8> {
    if a.ssid == 0 then a.callsign else a.callsign + [DASH] + Decimal(a.ssid)
  }

  /** Letters become capitals, everything else stays. */
  lemma {:induction false} CallPartChar(s: seq<bv8>, n: nat, k: nat)
    requires k < |CallPart(s, n)|
    ensures k < |s| && k < n && s[k] != 0x2D
    ensures CallPart(s, n)[k] == if 0x61 <= s[k] <= 0x7A then s[k] - 0x20 else s[k]
    decreases n
  {
    if k > 0 {
      CallPartChar(s[1..], n - 1, k - 1);
    }
  }

  /** The callsign ends where there is no room, no text, or a dash, and not before. */
  lemma {:induction false} CallPartEnds(s: seq<bv8>, n: nat)
    ensures var m := |CallPart(s, n)|;
            m <= n && m <= |s| && (m == n || m == |s| || s[m] == 0x2D)
    decreases n
  {
    if n > 0 && s != [] && s[0] != DASH {
      CallPartEnds(s[1..], n - 1);
    }
  }

  /** What any text reads as: the callsign is the text up to the first dash, its end, or its
      seventh character, in capitals. */
  lemma CallOfText(s: seq<bv8>, digi: bool, k: nat)
    ensures var a := StrToAddr(s, digi);
            var m := |a.callsign|;
            && m <= 7 && m <= |s| && (m == 7 || m == |s| || s[m] == 0x2D)
            && (k < m ==> s[k] != 0x2D && a.callsign[k] == if 0x61 <= s[k] <= 0x7A then s[k] - 0x20 else s[k])
            && a.flags == (if digi then 0x80 else 0)
            && (m == 7 || m == |s| ==> a.ssid == 0)
  {
    hide CallPart, Atoi;
    CallPartEnds(s, 7);
    if k < |CallPart(s, 7)| { CallPartChar(s, 7, k); }
  }

  lemma FourBits(x: bv8)
    ensures x & 0x0F == x % 16
  {
  }

  /** The number behind the dash: one or two digits, modulo sixteen. */
  lemma SsidOfText(s: seq<bv8>, digi: bool, m: nat, rest: seq<bv8>)
    requires m < 7 && m < |s| && s[m] == 0x2D && (forall k :: 0 <= k < m ==> s[k] != 0x2D)
    requires rest == [] || !(0x30 <= rest[0] <= 0x39)
    ensures |StrToAddr(s, digi).callsign| == m
    ensures forall d: bv8 :: s[m + 1..] == [d] + rest && 0x30 <= d <= 0x39 ==> StrToAddr(s, digi).ssid == d - 0x30
    ensures forall d: bv8, e: bv8 :: s[m + 1..] == [d, e] + rest && 0x30 <= d <= 0x39 && 0x30 <= e <= 0x39 ==>
              StrToAddr(s, digi).ssid == ((d - 0x30) * 10 + (e - 0x30)) % 16
  {
    CallPartEnds(s, 7);
    if |CallPart(s, 7)| > m { CallPartChar(s, 7, m); }
    hide CallPart;
    forall d: bv8 | s[m + 1..] == [d] + rest && 0x30 <= d <= 0x39 ensures StrToAddr(s, digi).ssid == d - 0x30 {
      OneDigitThen(d, rest, 0);
      StartsWithDigit(s[m + 1..]);
      SmallSsid(d - 0x30);
    }
    forall d: bv8, e: bv8 | s[m + 1..] == [d, e] + rest && 0x30 <= d <= 0x39 && 0x30 <= e <= 0x39
      ensures StrToAddr(s, digi).ssid == ((d - 0x30) * 10 + (e - 0x30)) % 16
    {
      assert [d, e] + rest == [d] + ([e] + rest);
      TwoDigitsThen(d, e, rest);
      StartsWithDigit(s[m + 1..]);
      FourBits((d - 0x30) * 10 + (e - 0x30));
    }
  }

  /** White space and a sign before the number. */
  lemma {:induction false} AtoiBefore(w: seq<bv8>, s: seq<bv8>)
    requires forall c :: c in w ==> c == 0x20 || 0x09 <= c <= 0x0D
    requires s != [] && 0x30 <= s[0] <= 0x39
    ensures Atoi(w + s) == Atoi(w + [0x2B] + s) == Digits(s, 0)
    ensures Atoi(w + [0x2D] + s) + Digits(s, 0) == 0
    ensures forall c :: c != 0x20 && !(0x09 <= c <= 0x0D) && c != 0x2B && c != 0x2D && !(0x30 <= c <= 0x39) ==> Atoi(w + [c] + s) == 0
  {
    hide Digits;
    if w == [] {
      StartsWithDigit(s);
      assert w + s == s && (w + [0x2B] + s)[1..] == s && (w + [0x2D] + s)[1..] == s;
      forall c | c != 0x20 && !(0x09 <= c <= 0x0D) && c != 0x2B && c != 0x2D && !(0x30 <= c <= 0x39) ensures Atoi(w + [c] + s) == 0 {
        NoDigit(w + [c] + s);
      }
    } else {
      assert w[0] in w && forall c :: c in w[1..] ==> c in w;
      AtoiBefore(w[1..], s);
      SkipsFirst(w, s);
      forall c: bv8 ensures Atoi(w + [c] + s) == Atoi(w[1..] + [c] + s) {
        SkipsFirst(w, [c] + s);
        assert w + [c] + s == w + ([c] + s) && w[1..] + [c] + s == w[1..] + ([c] + s);
      }
    }
  }

  lemma NoDigit(s: seq<bv8>)
    requires s != [] && !(0x30 <= s[0] <= 0x39)
    ensures Digits(s, 0) == 0
  {
  }

  lemma SkipsFirst(w: seq<bv8>, s: seq<bv8>)
    requires w != [] && (w[0] == 0x20 || 0x09 <= w[0] <= 0x0D)
    ensures Atoi(w + s) == Atoi(w[1..] + s)
  {
    assert (w + s)[1..] == w[1..] + s;
  }

  lemma OneDigitThen(d: bv8, rest: seq<bv8>, acc: bv8)
    requires 0x30 <= d <= 0x39 && (rest == [] || !(0x30 <= rest[0] <= 0x39))
    ensures Digits([d] + rest, acc) == acc * 10 + (d - 0x30)
  {
    assert ([d] + rest)[1..] == rest;
  }

  lemma TwoDigitsThen(d: bv8, e: bv8, rest: seq<bv8>)
    requires 0x30 <= d <= 0x39 && 0x30 <= e <= 0x39 && (rest == [] || !(0x30 <= rest[0] <= 0x39))
    ensures Digits([d, e] + rest, 0) == (d - 0x30) * 10 + (e - 0x30)
  {
    assert ([d, e] + rest)[1..] == [e] + rest;
    OneDigitThen(e, rest, d - 0x30);
  }

  /** An address as text: the callsign, then a dash and the SSID in decimal, without a leading
      zero, if that is not zero. */
  lemma TextOfAddr(a: Addr)
    ensures a.ssid == 0 ==> AddrToStr(a) == a.callsign
    ensures a.ssid > 0 ==>
              exists r :: AddrToStr(a) == a.callsign + [0x2D] + r && 1 <= |r| <= 3
                && (forall k :: 0 <= k < |r| ==> 0x30 <= r[k] <= 0x39) && r[0] > 0x30
                && a.ssid == if |r| == 1 then r[0] - 0x30
                             else if |r| == 2 then (r[0] - 0x30) * 10 + (r[1] - 0x30)
                             else (r[0] - 0x30) * 100 + (r[1] - 0x30) * 10 + (r[2] - 0x30)
  {
    DecimalIs(a.ssid);
    hide Decimal;
    if a.ssid > 0 {
      var r := Decimal(a.ssid);
      assert AddrToStr(a) == a.callsign + [0x2D] + r;
    }
  }

  lemma DecimalIs(n: bv8)
    ensures var r := Decimal(n);
            && 1 <= |r| <= 3 && (forall k :: 0 <= k < |r| ==> 0x30 <= r[k] <= 0x39) && (n > 0 ==> r[0] > 0x30)
            && n == if |r| == 1 then r[0] - 0x30
                    else if |r| == 2 then (r[0] - 0x30) * 10 + (r[1] - 0x30)
                    else (r[0] - 0x30) * 100 + (r[1] - 0x30) * 10 + (r[2] - 0x30)
  {
  }

  lemma {:induction false} CallPartOf(call: seq<bv8>, rest: seq<bv8>, n: nat)
    requires |call| < n && DASH !in call && (rest == [] || rest[0] == DASH)
    ensures |CallPart(call + rest, n)| == |call|
    ensures CallPart(call + rest, n) == call <==> forall c :: c in call ==> Upper(c) == c
  {
    hide Upper;
    if call == [] {
      assert call + rest == rest;
    } else {
      var s := call + rest;
      assert s[0] == call[0] && call[0] in call && s[1..] == call[1..] + rest;
      CallPartOf(call[1..], rest, n - 1);
      assert CallPart(s, n) == [Upper(call[0])] + CallPart(s[1..], n - 1);
      assert call == [call[0]] + call[1..];
      assert forall c :: c in call <==> c == call[0] || c in call[1..];
    }
  }

  lemma OneDigit(n: bv8, acc: bv8)
    requires n < 10
    ensures Digits([0x30 + n], acc) == acc * 10 + n
  {
    assert IsDigit(0x30 + n) && (0x30 + n) - 0x30 == n;
    assert [0x30 + n][1..] == [];
  }

  lemma StartsWithDigit(s: seq<bv8>)
    requires s != [] && IsDigit(s[0])
    ensures Atoi(s) == Digits(s, 0)
  {
  }

  lemma AtoiOfDecimal(n: bv8)
    requires n < 16
    ensures Atoi(Decimal(n)) == n
  {
    if n < 10 {
      StartsWithDigit(Decimal(n));
      OneDigit(n, 0);
    } else {
      assert n / 10 == 1 && n % 10 == n - 10;
      assert Decimal(n) == [0x31, 0x30 + (n - 10)];
      StartsWithDigit(Decimal(n));
      assert Decimal(n)[1..] == [0x30 + (n - 10)];
      OneDigit(n - 10, 1);
    }
  }

  /** Text is read back as the address it was written for, exactly when it is in upper case. */
  lemma TextRoundTrip(a: Addr, digi: bool)
    requires |a.callsign| <= 6 && DASH !in a.callsign && a.ssid < 16
    ensures StrToAddr(AddrToStr(a), digi) == a.(flags := if digi then FLAG_DIGI else 0)
            <==> forall c :: c in a.callsign ==> Upper(c) == c
  {
    hide Upper, Atoi, Decimal, CallPart;
    var rest := if a.ssid == 0 then [] else [DASH] + Decimal(a.ssid);
    var s := AddrToStr(a);
    assert s == a.callsign + rest;
    CallPartOf(a.callsign, rest, 7);
    AtoiOfDecimal(a.ssid);
    SmallSsid(a.ssid);
    if a.ssid != 0 { assert s[|a.callsign| + 1..] == Decimal(a.ssid); }
  }
}
