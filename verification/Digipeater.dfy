/** The digipeater: the path rewriting of `check_frame`, and what repeating a frame does to it. */
module Digipeater {
  import opened Wrappers
  import opened FbufChains
  import opened FbufReading
  import opened FbufCuts
  import opened FbufPool
  import opened Ax25
  import Ax25Codec

  const WIDE1: seq<bv8> := [0x57, 0x49, 0x44, 0x45, 0x31]
  const SAR: seq<bv8> := [0x53, 0x41, 0x52]

  /** MYCALL and the parameters DIGIP_WIDE1_ON and DIGIP_SAR_ON. */
  datatype Station = Station(mycall: Addr, wide1_on: bool, sar_on: bool)

  function Lower(c: bv8): bv8 { if 0x41 <= c <= 0x5A then c + 0x20 else c }

  /** `strncasecmp(name, call, |name|) == 0` */
  predicate StartsLike(name: seq<bv8>, call: seq<bv8>) {
    |call| >= |name| && forall k :: 0 <= k < |name| ==> Lower(name[k]) == Lower(call[k])
  }

  function Alias(name: seq<bv8>): Addr { Addr(name, 0, FLAG_DIGI) }

  /** That is what `str2addr` makes of the two names. */
  lemma AliasIsText()
    ensures StrToAddr(SAR, true) == Alias(SAR) && StrToAddr(WIDE1, true) == Alias(WIDE1)
  {
    NamesAreUpper();
    hide Upper;
    AliasFromName(SAR);
    AliasFromName(WIDE1);
  }

  lemma AliasFromName(name: seq<bv8>)
    requires |name| <= 6 && DASH !in name && forall c :: c in name ==> Upper(c) == c
    ensures StrToAddr(name, true) == Alias(name)
  {
    hide StrToAddr, Upper;
    TextRoundTrip(Alias(name), true);
  }

  lemma NamesAreUpper()
    ensures DASH !in SAR && forall c :: c in SAR ==> Upper(c) == c
    ensures DASH !in WIDE1 && forall c :: c in WIDE1 ==> Upper(c) == c
  {
  }

  /** How many hops, from the first on, have been used. */
  function UsedHops(d: seq<Addr>): (n: nat)
    ensures n <= |d| && (forall k :: 0 <= k < n ==> IsUsed(d[k].flags)) && (n < |d| ==> !IsUsed(d[n].flags))
  {
    if d == [] || !IsUsed(d[0].flags) then 0 else 1 + UsedHops(d[1..])
  }

  /** The first hop from `j` on that is a SAR alias, or -1. */
  function SarFrom(d: seq<Addr>, j: nat): (k: int)
    requires j <= |d|
    ensures k == -1 || (j <= k < |d| && StartsLike(SAR, d[k].callsign))
    ensures forall m :: j <= m < (if k == -1 then |d| else k) ==> !StartsLike(SAR, d[m].callsign)
    decreases |d| - j
  {
    if j == |d| then -1 else if StartsLike(SAR, d[j].callsign) then j else SarFrom(d, j + 1)
  }

  predicate IsWide(st: Station, a: Addr) {
    st.wide1_on && StartsLike(WIDE1, a.callsign) && a.ssid == 1
  }

  /** The hop that stands for this station: the first SAR alias if the frame is not repeated
      yet and SAR pre-emption is on, else the next hop if it is WIDE1-1; or -1. */
  function Spot(st: Station, d: seq<Addr>): (k: int)
    ensures k == -1 || UsedHops(d) <= k < |d|
    ensures k > UsedHops(d) ==> UsedHops(d) == 0 && st.sar_on && StartsLike(SAR, d[k].callsign)
  {
    var i := UsedHops(d);
    if i == |d| then -1
    else
      var sar := if st.sar_on && i == 0 then SarFrom(d, 0) else -1;
      if sar >= 0 then sar else if IsWide(st, d[i]) then i else -1
  }

  function AliasOf(st: Station, d: seq<Addr>, k: nat): Addr
    requires k < |d|
  {
    Alias(if st.sar_on && UsedHops(d) == 0 && StartsLike(SAR, d[k].callsign) then SAR else WIDE1)
  }

  /** `d` with `x` and `y` put in behind the first `i` hops, and hop `k` taken out. */
  function Swapped(d: seq<Addr>, i: nat, k: nat, x: Addr, y: Addr): (p: seq<Addr>)
    requires i <= k < |d|
    ensures |p| == |d| + 1
  {
    d[..i] + [x, y] + (d[i..k] + d[k + 1..])
  }

  function Me(st: Station): Addr { st.mycall.(flags := FLAG_DIGI) }

  /** The path of the repeated frame, if the frame is to be repeated. */
  function NewPath(st: Station, d: seq<Addr>): (r: Option<seq<Addr>>)
    ensures r.Some? ==> |r.value| == |d| + 1
  {
    var k := Spot(st, d);
    if k < 0 then None else Some(Swapped(d, UsedHops(d), k, Me(st), AliasOf(st, d, k)))
  }

  /** The repeated frame. */
  function Repeated(st: Station, s: seq<bv8>): Option<seq<bv8>>
    requires Complete(s)
  {
    var h := Decoded(s);
    match NewPath(st, h.digis)
    case None => None
    case Some(p) => Some(Encoded(h.(digis := p)) + s[16 + 7 * Hops(s)..])
  }

  // ---- Which frames are repeated ----------------------------------------------------------

  /** The letters of the two names, in either case. */
  lemma NamesByLetter(call: seq<bv8>)
    ensures StartsLike(SAR, call) <==>
              && |call| >= 3 && (call[0] == 0x53 || call[0] == 0x73) && (call[1] == 0x41 || call[1] == 0x61)
              && (call[2] == 0x52 || call[2] == 0x72)
    ensures StartsLike(WIDE1, call) <==>
              && |call| >= 5 && (call[0] == 0x57 || call[0] == 0x77) && (call[1] == 0x49 || call[1] == 0x69)
              && (call[2] == 0x44 || call[2] == 0x64) && (call[3] == 0x45 || call[3] == 0x65) && call[4] == 0x31
  {
    EitherCase();
    hide Lower;
    if StartsLike(SAR, call) { assert Lower(SAR[0]) == Lower(call[0]) && Lower(SAR[1]) == Lower(call[1]) && Lower(SAR[2]) == Lower(call[2]); }
    if StartsLike(WIDE1, call) {
      assert Lower(WIDE1[0]) == Lower(call[0]) && Lower(WIDE1[1]) == Lower(call[1]) && Lower(WIDE1[2]) == Lower(call[2]);
      assert Lower(WIDE1[3]) == Lower(call[3]) && Lower(WIDE1[4]) == Lower(call[4]);
    }
  }

  /** Two characters differ in their case at most. */
  lemma EitherCase()
    ensures forall c: bv8 :: (Lower(0x53) == Lower(c) <==> c == 0x53 || c == 0x73) && (Lower(0x41) == Lower(c) <==> c == 0x41 || c == 0x61)
    ensures forall c: bv8 :: (Lower(0x52) == Lower(c) <==> c == 0x52 || c == 0x72) && (Lower(0x57) == Lower(c) <==> c == 0x57 || c == 0x77)
    ensures forall c: bv8 :: (Lower(0x49) == Lower(c) <==> c == 0x49 || c == 0x69) && (Lower(0x44) == Lower(c) <==> c == 0x44 || c == 0x64)
    ensures forall c: bv8 :: (Lower(0x45) == Lower(c) <==> c == 0x45 || c == 0x65) && (Lower(0x31) == Lower(c) <==> c == 0x31)
  {
  }

  /** Hop `i` is the first that is not marked as used. */
  predicate FirstUnused(d: seq<Addr>, i: nat) {
    i < |d| && d[i].flags & 0x80 == 0 && forall k :: 0 <= k < i ==> d[k].flags & 0x80 != 0
  }

  /** Hop `k` is the first SAR alias. */
  predicate FirstSar(d: seq<Addr>, k: nat) {
    k < |d| && StartsLike(SAR, d[k].callsign) && forall m :: 0 <= m < k ==> !StartsLike(SAR, d[m].callsign)
  }

  lemma UsedHopsMeans(d: seq<Addr>, i: nat)
    ensures FirstUnused(d, i) <==> i == UsedHops(d) < |d|
  {
  }

  /** Which frames are repeated: those whose next hop is WIDE1-1, if that is on, and those not
      repeated by anyone yet that have a SAR alias anywhere in the path, if that is on. */
  lemma RepeatedIff(st: Station, d: seq<Addr>)
    ensures NewPath(st, d).Some? <==>
              exists i: nat :: FirstUnused(d, i) &&
                ((st.sar_on && i == 0 && exists k: nat :: k < |d| && StartsLike(SAR, d[k].callsign))
                 || (st.wide1_on && StartsLike(WIDE1, d[i].callsign) && d[i].ssid == 1))
  {
    hide StartsLike, Swapped, UsedHops;
    var i := UsedHops(d);
    UsedHopsMeans(d, i);
    if NewPath(st, d).Some? {
      assert FirstUnused(d, i);
      assert st.sar_on && i == 0 && SarFrom(d, 0) >= 0 ==> StartsLike(SAR, d[SarFrom(d, 0)].callsign);
    } else {
      forall j: nat | FirstUnused(d, j) ensures j == i { UsedHopsMeans(d, j); }
    }
  }

  /** What is put in and what is taken out: the SAR alias for the first hop that is one, which
      goes before the other rule; the WIDE1 alias for the next hop. */
  lemma NewPathIs(st: Station, d: seq<Addr>, i: nat, k: nat)
    requires FirstUnused(d, i)
    ensures st.sar_on && i == 0 && FirstSar(d, k) ==>
              NewPath(st, d) == Some([Addr(st.mycall.callsign, st.mycall.ssid, 0x80), Addr([0x53, 0x41, 0x52], 0, 0x80)]
                                     + d[..k] + d[k + 1..])
    ensures !(st.sar_on && i == 0 && exists m: nat :: FirstSar(d, m)) && NewPath(st, d).Some? ==>
              NewPath(st, d) == Some(d[..i] + [Addr(st.mycall.callsign, st.mycall.ssid, 0x80),
                                               Addr([0x57, 0x49, 0x44, 0x45, 0x31], 0, 0x80)] + d[i + 1..])
  {
    hide StartsLike, UsedHops, Swapped, SarFrom;
    UsedHopsMeans(d, i);
    SarFound(d, k);
    if st.sar_on && i == 0 && FirstSar(d, k) {
      SwappedFirst(d, k, Me(st), Alias(SAR));
    } else if !(st.sar_on && i == 0 && exists m: nat :: FirstSar(d, m)) {
      NoSar(d);
      SwappedNext(d, i, Me(st), Alias(WIDE1));
    }
  }

  lemma NoSar(d: seq<Addr>)
    ensures SarFrom(d, 0) >= 0 <==> exists m: nat :: FirstSar(d, m)
  {
    hide StartsLike;
    if SarFrom(d, 0) >= 0 { assert FirstSar(d, SarFrom(d, 0)); }
  }

  lemma SwappedFirst(d: seq<Addr>, k: nat, x: Addr, y: Addr)
    requires k < |d|
    ensures Swapped(d, 0, k, x, y) == [x, y] + d[..k] + d[k + 1..]
  {
  }

  lemma SwappedNext(d: seq<Addr>, i: nat, x: Addr, y: Addr)
    requires i < |d|
    ensures Swapped(d, i, i, x, y) == d[..i] + [x, y] + d[i + 1..]
  {
  }

  lemma SarFound(d: seq<Addr>, k: nat)
    ensures FirstSar(d, k) <==> SarFrom(d, 0) == k
  {
    hide StartsLike;
  }

  // ---- Hops used up ---------------------------------------------------------------------

  function Unused(d: seq<Addr>): nat {
    if d == [] then 0 else (if IsUsed(d[0].flags) then 0 else 1) + Unused(d[1..])
  }

  lemma {:induction false} UnusedConcat(a: seq<Addr>, b: seq<Addr>)
    ensures Unused(a + b) == Unused(a) + Unused(b)
  {
    if a == [] {
      assert a + b == b;
    } else {
      assert (a + b)[1..] == a[1..] + b;
      UnusedConcat(a[1..], b);
    }
  }

  lemma UnusedOne(a: Addr)
    ensures Unused([a]) == if IsUsed(a.flags) then 0 else 1
  {
    assert [a][1..] == [];
  }

  lemma UnusedCut(d: seq<Addr>, i: nat)
    requires i < |d|
    ensures Unused(d) == Unused(d[..i]) + (if IsUsed(d[i].flags) then 0 else 1) + Unused(d[i + 1..])
  {
    hide Unused, IsUsed;
    assert d == d[..i] + [d[i]] + d[i + 1..];
    UnusedConcat(d[..i] + [d[i]], d[i + 1..]);
    UnusedConcat(d[..i], [d[i]]);
    UnusedOne(d[i]);
  }

  lemma UnusedInMiddle(a: seq<Addr>, x: Addr, y: Addr, b: seq<Addr>)
    requires IsUsed(x.flags) && IsUsed(y.flags)
    ensures Unused(a + [x, y] + b) == Unused(a) + Unused(b)
  {
    hide Unused, IsUsed;
    assert [x, y] == [x] + [y];
    UnusedConcat(a + [x, y], b);
    UnusedConcat(a, [x, y]);
    UnusedConcat([x], [y]);
    UnusedOne(x);
    UnusedOne(y);
  }

  /** The used hops come first. */
  predicate UsedFirst(d: seq<Addr>) {
    forall k :: UsedHops(d) <= k < |d| ==> !IsUsed(d[k].flags)
  }

  lemma DigiIsUsed()
    ensures IsUsed(FLAG_DIGI) && !IsLast(FLAG_DIGI)
  {
  }

  /** Repeating uses up exactly one hop of a path in which the used hops come first, and
      leaves such a path: one hop longer, the used ones followed by this station and the
      alias, then the others in their order. */
  lemma OneHopUsed(st: Station, d: seq<Addr>)
    requires NewPath(st, d).Some? && UsedFirst(d)
    ensures var p := NewPath(st, d).value;
            && |p| == |d| + 1 && UsedFirst(p) && Unused(p) == Unused(d) - 1
            && UsedHops(p) == UsedHops(d) + 2 && p[..UsedHops(d)] == d[..UsedHops(d)]
            && p[UsedHops(d)] == Me(st) && (p[UsedHops(d) + 1] == Alias(SAR) || p[UsedHops(d) + 1] == Alias(WIDE1))
            && exists k :: UsedHops(d) <= k < |d| && p[UsedHops(d) + 2..] == d[UsedHops(d)..k] + d[k + 1..]
  {
    hide IsUsed, UsedHops, Unused, Spot, Swapped, StartsLike;
    var i, k, me, alias := UsedHops(d), Spot(st, d), Me(st), AliasOf(st, d, Spot(st, d));
    DigiIsUsed();
    UsedUp(d, i, k, me, alias);
    MarksAfter(d, i, k, me, alias);
    InParts(d, i, k, me, alias);
  }

  lemma InParts(d: seq<Addr>, i: nat, k: nat, x: Addr, y: Addr)
    requires i <= k < |d|
    ensures var p := Swapped(d, i, k, x, y);
            p[..i] == d[..i] && p[i] == x && p[i + 1] == y && p[i + 2..] == d[i..k] + d[k + 1..]
  {
  }

  lemma SwappedAt(d: seq<Addr>, i: nat, k: nat, x: Addr, y: Addr, m: nat)
    requires i <= k < |d| && m <= |d|
    ensures Swapped(d, i, k, x, y)[m] ==
            if m < i then d[m] else if m == i then x else if m == i + 1 then y else if m < k + 2 then d[m - 2] else d[m - 1]
  {
  }

  lemma MarksAfter(d: seq<Addr>, i: nat, k: nat, x: Addr, y: Addr)
    requires i == UsedHops(d) <= k < |d| && UsedFirst(d) && IsUsed(x.flags) && IsUsed(y.flags)
    ensures UsedHops(Swapped(d, i, k, x, y)) == i + 2 && UsedFirst(Swapped(d, i, k, x, y))
  {
    hide IsUsed, Swapped;
    var p := Swapped(d, i, k, x, y);
    forall m | i + 2 <= m < |p| ensures !IsUsed(p[m].flags) {
      SwappedAt(d, i, k, x, y, m);
    }
    forall m | 0 <= m < i + 2 ensures IsUsed(p[m].flags) {
      SwappedAt(d, i, k, x, y, m);
    }
    UsedHopsAre(p, i + 2);
  }

  lemma UsedHopsAre(d: seq<Addr>, n: nat)
    requires n <= |d| && (forall k :: 0 <= k < n ==> IsUsed(d[k].flags)) && (n < |d| ==> !IsUsed(d[n].flags))
    ensures UsedHops(d) == n
  {
  }

  /** If only the final hop is marked as the last, it stays so. */
  lemma StaysMarked(st: Station, d: seq<Addr>)
    requires NewPath(st, d).Some? && MarkedAtEndOnly(d)
    ensures MarkedAtEndOnly(NewPath(st, d).value)
  {
    hide IsLast, Swapped, Spot, UsedHops;
    var i, k, me, alias := UsedHops(d), Spot(st, d), Me(st), AliasOf(st, d, Spot(st, d));
    DigiIsUsed();
    forall m: nat | m < |d| ensures !IsLast(Swapped(d, i, k, me, alias)[m].flags) {
      SwappedAt(d, i, k, me, alias, m);
    }
  }

  lemma StaysGood(st: Station, d: seq<Addr>)
    requires NewPath(st, d).Some? && Good(st.mycall) && forall a :: a in d ==> Good(a)
    ensures forall a :: a in NewPath(st, d).value ==> Good(a)
  {
    hide Good, Spot, UsedHops, StartsLike;
    AliasesAreGood();
    OtherFlags(st.mycall, Me(st));
  }

  lemma OtherFlags(a: Addr, b: Addr)
    requires a.callsign == b.callsign && a.ssid == b.ssid
    ensures Good(a) == Good(b)
  {
  }

  lemma AliasesAreGood()
    ensures Good(Alias(SAR)) && Good(Alias(WIDE1))
  {
  }

  // ---- The frame on the air ------------------------------------------------------------------

  /** What `check_frame` needs of a frame that it repeats: no more than six hops, since it
      makes one more in an array of seven. */
  ghost predicate CanRepeat(s: seq<bv8>) {
    Complete(s) && NDigis(s) < MAX_DIGIS
  }

  /** And of any frame: at most seven hops, one of them marked as the last. */
  ghost predicate CanCheck(st: Station, s: seq<bv8>) {
    Complete(s) && NDigis(s) <= MAX_DIGIS && (Repeated(st, s).Some? ==> CanRepeat(s))
  }

  function HeaderLength(s: seq<bv8>): nat { 16 + 7 * Hops(s) }

  /** A repeated frame is read by the next station with the addresses, the control field, the
      PID and the information as they were, and with the new path, of which only the final
      hop is marked as the last. */
  lemma RepeatedDecodes(st: Station, s: seq<bv8>)
    requires CanRepeat(s) && HasPid(Decoded(s).ctrl) && Good(st.mycall) && Repeated(st, s).Some?
    ensures var r := Repeated(st, s).value;
            var h := Decoded(s);
            var p := NewPath(st, h.digis).value;
            && Complete(r) && NDigis(r) == Hops(r) == |p| == Hops(s) + 1
            && Decoded(r) == Received(h.(digis := p))
            && r[16 + 7 * Hops(r)..] == s[16 + 7 * Hops(s)..]
  {
    hide Complete, Decoded, Encoded, GoodHeader, Good, Hops, NDigis, HasPid, Received, NewPath;
    GoodRewritten(st, s);
    HopCount(s);
    HeaderRoundTrip(Decoded(s).(digis := NewPath(st, Decoded(s).digis).value), s[16 + 7 * Hops(s)..]);
  }

  lemma GoodRewritten(st: Station, s: seq<bv8>)
    requires CanRepeat(s) && Good(st.mycall) && NewPath(st, Decoded(s).digis).Some?
    ensures GoodHeader(Decoded(s).(digis := NewPath(st, Decoded(s).digis).value))
  {
    hide Complete, Decoded, Good, Hops, NDigis, NewPath, IsLast;
    DecodedIsGood(s);
    StaysMarked(st, Decoded(s).digis);
    StaysGood(st, Decoded(s).digis);
    HopCount(s);
  }

  lemma HopCount(s: seq<bv8>)
    requires Complete(s)
    ensures |Decoded(s).digis| == Hops(s) <= NDigis(s) && 16 + 7 * Hops(s) <= |s|
  {
  }

  /** What comes behind the control field. */
  function Body(s: seq<bv8>): seq<bv8> {
    if 15 + 7 * Hops(s) <= |s| then s[15 + 7 * Hops(s)..] else []
  }

  /** A frame without a PID loses the first octet of its information: it is taken for a PID
      when the header is read, and not written when the header is. */
  lemma FirstOctetLost(st: Station, s: seq<bv8>)
    requires CanRepeat(s) && !HasPid(Decoded(s).ctrl) && Good(st.mycall) && Repeated(st, s).Some?
    ensures var r := Repeated(st, s).value;
            Body(s) == [Decoded(s).pid] + Body(r)
  {
    hide Complete, Decoded, Encoded, GoodHeader, Good, Hops, NDigis, HasPid;
    var h := Decoded(s);
    GoodRewritten(st, s);
    HopCount(s);
    NoPid(h.(digis := NewPath(st, h.digis).value), s[16 + 7 * Hops(s)..]);
    PidIs(s);
    BodyOf(Encoded(h.(digis := NewPath(st, h.digis).value)), s[16 + 7 * Hops(s)..]);
    hide NewPath;
  }

  lemma BodyOf(head: seq<bv8>, rest: seq<bv8>)
    requires |head| == 15 + 7 * Hops(head + rest)
    ensures Body(head + rest) == rest
  {
    hide Hops;
  }

  lemma PidIs(s: seq<bv8>)
    requires Complete(s)
    ensures Body(s) == [Decoded(s).pid] + s[16 + 7 * Hops(s)..]
  {
    hide Hops;
  }

  // ---- Chains of stations ---------------------------------------------------------------------

  lemma UsedOnAir(flags: bv8, last: bool)
    ensures IsUsed(OctetFlags(WithLast(flags, last))) == IsUsed(flags)
  {
  }

  /** The used marks survive the air. */
  lemma {:induction false} SameMarks(d: seq<Addr>, e: seq<Addr>)
    requires |d| == |e| && forall k :: 0 <= k < |d| ==> IsUsed(d[k].flags) == IsUsed(e[k].flags)
    ensures Unused(d) == Unused(e) && UsedHops(d) == UsedHops(e)
  {
    if d != [] {
      SameMarks(d[1..], e[1..]);
    }
  }

  lemma MarksReceived(h: Header)
    ensures var e := Received(h).digis;
            && Unused(e) == Unused(h.digis) && UsedHops(e) == UsedHops(h.digis)
            && (UsedFirst(h.digis) ==> UsedFirst(e))
  {
    hide IsUsed, OctetFlags, WithLast;
    var e := Received(h).digis;
    forall k | 0 <= k < |e| ensures IsUsed(h.digis[k].flags) == IsUsed(e[k].flags) {
      UsedOnAir(h.digis[k].flags, k + 1 == |h.digis|);
    }
    SameMarks(h.digis, e);
  }

  /** Every one of the stations repeats what the one before it sent. */
  ghost predicate Chain(stations: seq<Station>, s: seq<bv8>) {
    stations == [] ||
    (CanRepeat(s) && HasPid(Decoded(s).ctrl) && Good(stations[0].mycall) && Repeated(stations[0], s).Some?
     && Chain(stations[1..], Repeated(stations[0], s).value))
  }

  /** What the last of the stations sends. */
  ghost function SentLast(stations: seq<Station>, s: seq<bv8>): seq<bv8>
    requires Chain(stations, s)
  {
    if stations == [] then s else SentLast(stations[1..], Repeated(stations[0], s).value)
  }

  ghost function Information(s: seq<bv8>): seq<bv8> {
    if HeaderLength(s) <= |s| then s[HeaderLength(s)..] else []
  }

  lemma RepeatedKeeps(st: Station, s: seq<bv8>)
    requires CanRepeat(s) && HasPid(Decoded(s).ctrl) && Good(st.mycall) && Repeated(st, s).Some?
    ensures Information(Repeated(st, s).value) == Information(s)
  {
    RepeatedDecodes(st, s);
  }

  /** How often a frame with a path can be repeated: as often as it has unused hops, and once
      more while the first is unused, since then a SAR alias behind used hops may be taken. */
  function Repeats(d: seq<Addr>): nat {
    Unused(d) + if d != [] && !IsUsed(d[0].flags) then 1 else 0
  }

  lemma UsedUp(d: seq<Addr>, i: nat, k: nat, x: Addr, y: Addr)
    requires i <= k < |d| && IsUsed(x.flags) && IsUsed(y.flags)
    ensures Unused(Swapped(d, i, k, x, y)) == Unused(d) - if IsUsed(d[k].flags) then 0 else 1
  {
    hide Unused, IsUsed;
    UnusedAround(d, i, k);
    UnusedConcat(d[i..k], d[k + 1..]);
    UnusedInMiddle(d[..i], x, y, d[i..k] + d[k + 1..]);
  }

  lemma UnusedAround(d: seq<Addr>, i: nat, k: nat)
    requires i <= k < |d|
    ensures Unused(d) == Unused(d[..i]) + Unused(d[i..k]) + (if IsUsed(d[k].flags) then 0 else 1) + Unused(d[k + 1..])
  {
    hide Unused, IsUsed;
    UnusedCut(d, k);
    UnusedConcat(d[..i], d[i..k]);
    assert d[..i] + d[i..k] == d[..k];
  }

  /** Repeating uses up one of these, whatever the path. */
  lemma OneRepeatLess(st: Station, d: seq<Addr>)
    requires NewPath(st, d).Some?
    ensures Repeats(NewPath(st, d).value) < Repeats(d)
  {
    hide IsUsed, UsedHops, Unused, Spot, Swapped, StartsLike;
    var i, k, me, alias := UsedHops(d), Spot(st, d), Me(st), AliasOf(st, d, Spot(st, d));
    DigiIsUsed();
    UsedUp(d, i, k, me, alias);
    SwappedAt(d, i, k, me, alias, 0);
  }

  lemma RepeatsReceived(h: Header)
    ensures Repeats(Received(h).digis) == Repeats(h.digis)
  {
    MarksReceived(h);
    if h.digis != [] { UsedOnAir(h.digis[0].flags, 1 == |h.digis|); }
    hide IsUsed, Unused;
  }

  /** However digipeaters pass a frame on among each other, they do so no more often than that,
      which is as often as it has unused hops if the used ones come first; and the information
      comes through unchanged. */
  lemma {:induction false} ChainsEnd(stations: seq<Station>, s: seq<bv8>)
    requires Chain(stations, s) && Complete(s)
    ensures |stations| <= Repeats(Decoded(s).digis)
    ensures UsedFirst(Decoded(s).digis) ==> |stations| <= Unused(Decoded(s).digis)
    ensures Information(SentLast(stations, s)) == Information(s)
  {
    hide Complete, Decoded, UsedFirst, Received, CanRepeat, HasPid, Information, Repeats;
    if stations != [] {
      var r := Repeated(stations[0], s).value;
      var h := Decoded(s);
      RepeatedDecodes(stations[0], s);
      RepeatedKeeps(stations[0], s);
      OneRepeatLess(stations[0], h.digis);
      RepeatsReceived(h.(digis := NewPath(stations[0], h.digis).value));
      if UsedFirst(h.digis) {
        OneHopUsed(stations[0], h.digis);
      }
      MarksReceived(h.(digis := NewPath(stations[0], h.digis).value));
      ChainsEnd(stations[1..], r);
    }
  }

  // ---- check_frame -------------------------------------------------------------------------

  /** The hops from `i` on but for the one at `sar`. */
  function Rest(d: seq<Addr>, i: nat, sar: int): seq<Addr>
    requires i <= |d|
    decreases |d| - i
  {
    if i == |d| then [] else (if i == sar then [] else [d[i]]) + Rest(d, i + 1, sar)
  }

  lemma {:induction false} RestIs(d: seq<Addr>, i: nat, sar: int)
    requires i <= |d| && sar < |d|
    ensures Rest(d, i, sar) == if sar < i then d[i..] else d[i..sar] + d[sar + 1..]
    decreases |d| - i
  {
    if i < |d| {
      RestIs(d, i + 1, sar);
      assert d[i..] == [d[i]] + d[i + 1..];
      assert i < sar ==> d[i..sar] == [d[i]] + d[i + 1..sar];
    }
  }

  /** The search for the SAR alias. */
  method FindSar(digis: array<Addr>, ndigis: nat, i: nat) returns (sar: int)
    requires i <= ndigis <= digis.Length
    ensures sar == SarFrom(digis[..ndigis], i)
  {
    var j := i;
    while j < ndigis
      invariant i <= j <= ndigis && SarFrom(digis[..ndigis], i) == SarFrom(digis[..ndigis], j)
    {
      if StartsLike(SAR, digis[j].callsign) {
        return j;
      }
      j := j + 1;
    }
    sar := -1;
  }

  /** Copies the rest of the path, except the SAR alias. */
  method CopyRest(digis: array<Addr>, ndigis: nat, i0: nat, sar: int, digis2: array<Addr>, j0: nat) returns (j: nat)
    requires i0 <= ndigis <= digis.Length && digis != digis2 && sar < ndigis
    requires j0 + ndigis - i0 - (if sar >= i0 then 1 else 0) <= digis2.Length
    modifies digis2
    ensures j <= digis2.Length && digis2[..j] == old(digis2[..j0]) + Rest(digis[..ndigis], i0, sar)
  {
    var i := i0;
    j := j0;
    ghost var d := digis[..ndigis];
    while i < ndigis
      invariant i0 <= i <= ndigis && j0 <= j && j + ndigis - i - (if sar >= i then 1 else 0) <= digis2.Length && digis[..ndigis] == d
      invariant digis2[..j] + Rest(d, i, sar) == old(digis2[..j0]) + Rest(d, i0, sar)
    {
      if sar < 0 || i != sar {
        ghost var before := digis2[..j];
        digis2[j] := digis[i];
        assert digis2[..j + 1] == before + [d[i]];
        j := j + 1;
      }
      i := i + 1;
    }
  }

  /** Copies the hops that the frame has been through already. */
  method CopyUsed(digis: array<Addr>, ndigis: nat, digis2: array<Addr>) returns (i: nat)
    requires ndigis <= digis.Length && ndigis <= digis2.Length && digis != digis2
    modifies digis2
    ensures i == UsedHops(digis[..ndigis]) && digis2[..i] == digis[..i]
  {
    hide IsUsed;
    ghost var d := digis[..ndigis];
    i := 0;
    while i < ndigis && IsUsed(digis[i].flags)
      invariant i <= ndigis && digis[..ndigis] == d && digis2[..i] == d[..i]
      invariant forall k :: 0 <= k < i ==> IsUsed(d[k].flags)
    {
      digis2[i] := digis[i];
      assert digis2[..i + 1] == digis2[..i] + [d[i]];
      i := i + 1;
    }
    UsedHopsAre(d, i);
  }

  /** Puts this station and the alias behind the first `i` hops. */
  method MarkUsed(digis2: array<Addr>, i: nat, me: Addr, alias: Addr) returns (j: nat)
    requires i + 2 <= digis2.Length
    modifies digis2
    ensures j == i + 2 && digis2[..j] == old(digis2[..i]) + [me, alias]
  {
    j := i;
    digis2[j] := me;
    j := j + 1;
    digis2[j] := alias;
    j := j + 1;
  }

  /** The path rewriting; 0 if the frame is not to be repeated. */
  method RewritePath(st: Station, digis: array<Addr>, ndigis: nat, digis2: array<Addr>) returns (j: nat)
    requires ndigis <= MAX_DIGIS == digis.Length == digis2.Length && digis != digis2
    requires NewPath(st, digis[..ndigis]).Some? ==> ndigis < MAX_DIGIS
    modifies digis2
    ensures j <= MAX_DIGIS
    ensures NewPath(st, digis[..ndigis]) == if j == 0 then None else Some(digis2[..j])
  {
    hide IsUsed, StartsLike, UsedHops;
    ghost var d := digis[..ndigis];
    var i := CopyUsed(digis, ndigis, digis2);
    assert digis[..ndigis] == d && digis[..i] == d[..i];
    if i == ndigis {
      return 0;
    }
    var widedigi := IsWide(st, digis[i]);
    var sar := -1;
    if st.sar_on && i <= 0 {
      sar := FindSar(digis, ndigis, i);
    }
    PathMade(st, d, i, sar);
    if sar < 0 && !widedigi {
      return 0;
    }
    hide NewPath, Rest, IsWide, SarFrom;
    j := MarkUsed(digis2, i, Me(st), Alias(if sar > -1 then SAR else WIDE1));
    if sar < 0 {
      i := i + 1;
    }
    assert digis[..ndigis] == d;
    j := CopyRest(digis, ndigis, i, sar, digis2, j);
    assert digis[..ndigis] == d && |digis2[..j]| == j;
  }

  lemma PathMade(st: Station, d: seq<Addr>, i: nat, sar: int)
    requires i == UsedHops(d) < |d| && sar == if st.sar_on && i == 0 then SarFrom(d, 0) else -1
    ensures NewPath(st, d) ==
            if sar < 0 && !IsWide(st, d[i]) then None
            else Some(d[..i] + [Me(st), Alias(if sar > -1 then SAR else WIDE1)]
                      + Rest(d, if sar > -1 then i else i + 1, sar))
  {
    hide UsedHops, SarFrom, StartsLike, Swapped, IsWide, Alias, Rest, Me;
    if sar >= 0 || IsWide(st, d[i]) {
      var k := if sar >= 0 then sar else i;
      SwapIsRest(d, i, k, sar, Me(st), AliasOf(st, d, k));
    }
  }

  lemma SwapIsRest(d: seq<Addr>, i: nat, k: nat, sar: int, x: Addr, y: Addr)
    requires i <= k < |d| && if sar >= 0 then k == sar else k == i
    ensures Swapped(d, i, k, x, y) == d[..i] + [x, y] + Rest(d, if sar > -1 then i else i + 1, sar)
  {
    RestIs(d, if sar > -1 then i else i + 1, sar);
    hide Rest;
    assert d[i..i] + d[i + 1..] == d[i + 1..];
  }

  /** The frame's slots can be cut behind the header. */
  ghost predicate HeaderFits(l: seq<Part>, s: seq<bv8>) {
    0 < HeaderLength(s) <= |Flat(l)| && Small(l) && CutFits(l, HeaderLength(s))
  }

  /** And what is left can be read. */
  ghost predicate CutClean(l: seq<Part>, s: seq<bv8>)
    requires HeaderFits(l, s)
  {
    CutIsClean(l, HeaderLength(s))
  }

  /** None of the slots behind the cut is empty. In a frame that can be read to its end that is
      so if and only if the cut is clean. */
  ghost predicate TailReadable(l: seq<Part>, s: seq<bv8>)
    requires HeaderFits(l, s)
  {
    NoneEmpty(CutTail(l, HeaderLength(s)))
  }

  lemma TailReadableIff(l: seq<Part>, s: seq<bv8>)
    requires HeaderFits(l, s) && NoneEmpty(l)
    ensures TailReadable(l, s) <==> CutClean(l, s)
  {
    CutIsCleanIff(l, HeaderLength(s));
  }

  /** `check_frame`: the new buffer has the rewritten header and, without a copy, the rest of
      `f`. No buffer holds other bytes than before. What is sent can be read to its end if
      and only if no slot behind the cut is empty, and `f` if and only if it could be and the
      cut is clean. */
  method CheckFrame(pool: Pool, f: Fbuf, st: Station, duplicate: bool) returns (sent: Option<Fbuf>)
    requires pool.Valid() && f in pool.chains && pool.ReadsAt(f, 0)
    requires Complete(pool.ContentOf(f)) && pool.ReadableTo(f, HeaderLength(pool.ContentOf(f)))
    requires duplicate || CanCheck(st, pool.ContentOf(f))
    requires !duplicate && Repeated(st, pool.ContentOf(f)).Some? ==>
               pool.free_slots >= 4 && HeaderFits(pool.PartsOf(f), pool.ContentOf(f))
    modifies pool, pool.slots, f`rslot, f`rpos, f`wslot
    ensures pool.Valid() && f in pool.chains && old(pool.chains.Keys) <= pool.chains.Keys
    ensures sent.None? <==> duplicate || Repeated(st, old(pool.ContentOf(f))).None?
    ensures sent.None? ==> pool.P() == old(pool.P()) && pool.chains == old(pool.chains) && pool.free_slots == old(pool.free_slots)
    ensures sent.Some? ==>
              && fresh(sent.value) && sent.value in pool.chains
              && Some(pool.ContentOf(sent.value)) == Repeated(st, old(pool.ContentOf(f)))
              && (pool.Readable(sent.value) <==> old(TailReadable(pool.PartsOf(f), pool.ContentOf(f))))
              && (pool.Readable(f) <==> old(pool.Readable(f)) && old(CutClean(pool.PartsOf(f), pool.ContentOf(f))))
              && pool.PartsOf(f) == old(CutParts(pool.PartsOf(f), HeaderLength(pool.ContentOf(f))))
    ensures forall h :: h in old(pool.chains) ==> pool.ContentOf(h) == old(pool.ContentOf(h))
    ensures forall h :: h in old(pool.chains) && old(NoneShared(pool.chains[h], pool.chains[f])) ==> pool.PartsOf(h) == old(pool.PartsOf(h))
  {
    hide Inv, Parts, Flat, Small, CutFits, CutIsClean, CutParts, CutTail, Walk, NoneEmpty, ClearTo, Complete, Decoded, Encoded, NewPath;
    hide Hops, NDigis, HasPid, Pool.ReadsAt, Pool.Room, Pool.Valid, Pool.Unshared, Kept, Plain;
    ghost var s := pool.ContentOf(f);
    HopCount(s);
    var digis, digis2 := new Addr[MAX_DIGIS], new Addr[MAX_DIGIS];
    var ndigis, from, to, ctrl, pid := Ax25Codec.DecodeHeader(pool, f, digis);
    if duplicate {
      return None;
    }
    NotTooMany(st, s);
    var j := RewritePath(st, digis, ndigis, digis2);
    if j == 0 {
      return None;
    }
    var newHdr := NewHeader(pool, from, to, digis2, j, ctrl, pid);
    pool.CanCutFacts(f, 16 + 7 * ndigis);
    pool.Connect(newHdr, f, 16 + 7 * ndigis);
    sent := Some(newHdr);
  }

  ghost predicate NoneShared(c: Chain, d: Chain) {
    forall s :: s in c ==> s !in d
  }

  lemma NotTooMany(st: Station, s: seq<bv8>)
    requires CanCheck(st, s)
    ensures NDigis(s) == Hops(s) == |Decoded(s).digis| <= MAX_DIGIS
    ensures NewPath(st, Decoded(s).digis).Some? ==> Hops(s) < MAX_DIGIS
  {
  }

  /** A header of up to eight hops never ends where a full slot does. */
  lemma HeaderEndsInside(n: nat)
    requires n <= 8
    ensures (16 + 7 * n) % SLOT_SIZE > 0
  {
  }

  /** A frame as it comes from the decoder can be cut behind its header, and what is left can
      be read if and only if there is some information; the second cut there is never clean. */
  lemma HeaderCut(l: seq<Part>, s: seq<bv8>)
    requires Plain(l) && Small(l) && Flat(l) == s && Complete(s)
    ensures HeaderFits(l, s) && (CutClean(l, s) <==> Information(s) != [])
    ensures Information(s) != [] ==>
              var e := CutParts(l, HeaderLength(s));
              Small(e) && Flat(e) == s && HeaderFits(e, s) && NoneEmpty(e) && !CutClean(e, s)
  {
    hide Flat, Complete, Hops, Walk, CutFits, CutIsClean, CutParts;
    HopCount(s);
    HeaderEndsInside(Hops(s));
    PlainNotEmpty(l);
    WalkFull(l, HeaderLength(s));
    if Information(s) != [] {
      SecondCut(l, HeaderLength(s));
      CutHolds(l, HeaderLength(s));
    }
  }

  /** A buffer with nothing but a header in it. */
  method NewHeader(pool: Pool, from: Addr, to: Addr, digis: array<Addr>, ndigis: nat, ctrl: bv8, pid: bv8) returns (b: Fbuf)
    requires pool.Valid() && ndigis <= digis.Length == MAX_DIGIS && pool.free_slots >= 4
    modifies pool, pool.slots
    ensures pool.Valid() && fresh(b) && pool.chains.Keys == old(pool.chains.Keys) + {b}
    ensures pool.Unshared(b) && pool.chains[b] != [] && pool.Readable(b) && pool.free_slots > 0
    ensures pool.ContentOf(b) == Encoded(Header(to, from, digis[..ndigis], ctrl, pid))
    ensures forall h :: h in old(pool.chains) ==>
              pool.chains[h] == old(pool.chains[h]) && pool.PartsOf(h) == old(pool.PartsOf(h))
  {
    hide Inv, Parts, Flat, Plain, NoneEmpty, Encoded, Pool.Writable;
    b := new Fbuf();
    pool.New(b);
    assert pool.Room(b) >= 4 * SLOT_SIZE && pool.OnlyWritten(b) by { OneEmptyPart(); NothingHeld(); }
    EncodedLength(Header(to, from, digis[..ndigis], ctrl, pid));
    NothingHeld();
    hide Pool.Room;
    Ax25Codec.EncodeHeader(pool, b, from, to, digis, ndigis, ctrl, pid);
    RoomOf(pool, b);
    pool.OnlyWrittenFacts(b);
  }

  lemma OneEmptyPart()
    ensures Plain([[]])
  {
  }

  lemma EncodedLength(h: Header)
    ensures 0 < |Encoded(h)| <= 65
  {
  }

  lemma RoomOf(pool: Pool, b: Fbuf)
    requires pool.Valid() && b in pool.chains && pool.Writable(b)
    ensures pool.Unshared(b) && SLOT_SIZE * pool.free_slots <= pool.Room(b) <= SLOT_SIZE * (pool.free_slots + 1)
  {
    pool.LastPart(b);
  }

  /** What the digipeater thread does with a frame: it answers with the buffer to be sent, if
      any, and gives up its own. */
  method HandleFrame(pool: Pool, f: Fbuf, st: Station, duplicate: bool) returns (sent: Option<Fbuf>)
    requires pool.Valid() && f in pool.chains
    requires pool.ContentOf(f) != [] ==>
               && pool.ReadsAt(f, 0) && Complete(pool.ContentOf(f)) && pool.ReadableTo(f, HeaderLength(pool.ContentOf(f)))
               && (duplicate || CanCheck(st, pool.ContentOf(f)))
               && (!duplicate && Repeated(st, pool.ContentOf(f)).Some? ==>
                     pool.free_slots >= 4 && HeaderFits(pool.PartsOf(f), pool.ContentOf(f)))
    modifies pool, pool.slots, f
    ensures pool.Valid() && f in pool.chains && pool.chains[f] == [] && old(pool.chains.Keys) <= pool.chains.Keys
    ensures sent.None? <==> old(pool.ContentOf(f)) == [] || duplicate || Repeated(st, old(pool.ContentOf(f))).None?
    ensures sent.Some? ==>
              && fresh(sent.value) && sent.value in pool.chains
              && Some(pool.ContentOf(sent.value)) == Repeated(st, old(pool.ContentOf(f)))
              && (pool.Readable(sent.value) <==> old(TailReadable(pool.PartsOf(f), pool.ContentOf(f))))
    ensures forall h :: h in old(pool.chains) && h != f ==> pool.ContentOf(h) == old(pool.ContentOf(h))
    ensures forall h :: h in old(pool.chains) && h != f && (sent.None? || old(NoneShared(pool.chains[h], pool.chains[f]))) ==>
              pool.PartsOf(h) == old(pool.PartsOf(h))
  {
    hide Inv, Parts, Flat, NoneEmpty, ClearTo, CanCheck, Repeated, HeaderFits, CutClean, TailReadable, NoneShared, Pool.ReadsAt;
    if f.length == 0 {
      sent := None;
    } else {
      sent := CheckFrame(pool, f, st, duplicate);
    }
    pool.Release(f);
  }

  // ---- From the decoder to the digipeater -----------------------------------------------------

  /** What the decoder does with a frame that passes its check: its octets and those of the
      FCS are put in a new buffer, and the two of the FCS are taken away again. */
  method ReceiveFrame(pool: Pool, frame: seq<bv8>, fcs: seq<bv8>) returns (f: Fbuf)
    requires pool.Valid() && frame != [] && |fcs| == 2 && SLOT_SIZE * pool.free_slots >= |frame| + 6 * SLOT_SIZE
    modifies pool, pool.slots
    ensures pool.Valid() && fresh(f) && pool.chains.Keys == old(pool.chains.Keys) + {f} && pool.free_slots >= 4
    ensures pool.ContentOf(f) == frame && pool.OnlyWritten(f)
    ensures forall h :: h in old(pool.chains) ==> pool.chains[h] == old(pool.chains[h]) && pool.PartsOf(h) == old(pool.PartsOf(h))
  {
    hide Inv, Parts, Flat, Plain, NoneEmpty, Pool.Writable, Pool.Unshared, Pool.Valid;
    f := NewFrame(pool, frame + fcs);
    DropsByte(pool, f);
    DropsByte(pool, f);
    assert (frame + fcs)[..|frame| + 1][..|frame|] == frame;
  }

  /** A new buffer with octets in it. */
  method NewFrame(pool: Pool, octets: seq<bv8>) returns (f: Fbuf)
    requires pool.Valid() && SLOT_SIZE * pool.free_slots >= |octets| + 5 * SLOT_SIZE
    modifies pool, pool.slots
    ensures pool.Valid() && fresh(f) && pool.chains.Keys == old(pool.chains.Keys) + {f} && pool.free_slots >= 4
    ensures pool.ContentOf(f) == octets && pool.OnlyWritten(f) && pool.Unshared(f)
    ensures forall h :: h in old(pool.chains) ==> pool.chains[h] == old(pool.chains[h]) && pool.PartsOf(h) == old(pool.PartsOf(h))
  {
    hide Inv, Parts, Flat, Plain, NoneEmpty, Pool.Writable, Pool.Unshared;
    f := new Fbuf();
    pool.New(f);
    assert pool.Room(f) >= |octets| + 5 * SLOT_SIZE;
    assert pool.OnlyWritten(f) by { OneEmptyPart(); }
    NothingHeld();
    hide Pool.Room;
    pool.Write(f, octets);
    assert octets[..|octets|] == octets;
    RoomOf(pool, f);
  }

  /** `fbuf_removeLast` on such a buffer. */
  method DropsByte(pool: Pool, f: Fbuf)
    requires pool.Valid() && f in pool.chains && pool.OnlyWritten(f) && pool.Unshared(f) && pool.ContentOf(f) != []
    modifies pool, pool.slots, f`length
    ensures pool.Valid() && pool.chains.Keys == old(pool.chains.Keys) && pool.free_slots >= old(pool.free_slots)
    ensures pool.OnlyWritten(f) && pool.Unshared(f)
    ensures pool.ContentOf(f) == old(pool.ContentOf(f))[..old(|pool.ContentOf(f)|) - 1]
    ensures forall h :: h in pool.chains && h != f ==> pool.chains[h] == old(pool.chains[h]) && pool.PartsOf(h) == old(pool.PartsOf(h))
  {
    hide Inv, Parts, Flat, Plain, NoneEmpty, Pool.Writable, Pool.Unshared, DropByte, Pool.Valid;
    RemovesByte(pool, f);
    pool.RemoveLast(f);
  }

  lemma RemovesByte(pool: Pool, f: Fbuf)
    requires pool.Valid() && f in pool.chains && pool.OnlyWritten(f) && pool.Unshared(f) && pool.ContentOf(f) != []
    ensures pool.chains[f] != [] && Last(pool.chains[f]) < pool.slots.Length
    ensures pool.slots[Last(pool.chains[f])].refcnt == 1 && pool.slots[Last(pool.chains[f])].length > 0
    ensures var l := pool.PartsOf(f);
            && l != [] && l[|l| - 1] != [] && Plain(DropByte(l))
            && Flat(DropByte(l)) == pool.ContentOf(f)[..|pool.ContentOf(f)| - 1]
  {
    var l, c := pool.PartsOf(f), pool.chains[f];
    pool.OnlyWrittenFacts(f);
    pool.BufferFacts(f);
    assert Last(c) in c && l[|l| - 1] != [];
    PartIs(pool.P(), c, |c| - 1);
    DropHolds(l);
  }

  /** A received frame, of which the digipeater is given a reference of its own: what it sends,
      and the frame itself, can be read to the end if and only if there is some information. */
  method ReceiveAndRepeat(pool: Pool, frame: seq<bv8>, fcs: seq<bv8>, st: Station, duplicate: bool)
      returns (f: Fbuf, g: Fbuf, sent: Option<Fbuf>)
    requires pool.Valid() && |fcs| == 2 && SLOT_SIZE * pool.free_slots >= |frame| + 6 * SLOT_SIZE
    requires Complete(frame) && (duplicate || CanCheck(st, frame))
    modifies pool, pool.slots
    ensures pool.Valid() && {f, g} <= pool.chains.Keys && pool.ContentOf(f) == pool.ContentOf(g) == frame
    ensures sent.None? <==> duplicate || Repeated(st, frame).None?
    ensures sent.None? ==> pool.OnlyWritten(f)
    ensures sent.Some? ==>
              && sent.value in pool.chains && Some(pool.ContentOf(sent.value)) == Repeated(st, frame)
              && (pool.Readable(sent.value) <==> Information(frame) != [])
              && (pool.Readable(g) <==> Information(frame) != [])
    ensures old(pool.chains.Keys) <= pool.chains.Keys
    ensures forall h :: h in old(pool.chains) ==> pool.ContentOf(h) == old(pool.ContentOf(h))
  {
    hide Inv, Parts, Flat, Plain, NoneEmpty, ClearTo, Complete, CanCheck, Repeated, HeaderFits, CutClean, TailReadable, Information, NoneShared, CutParts;
    hide Pool.ReadsAt, Small, AllOk, Hops, Pool.Valid;
    HopCount(frame);
    f := ReceiveFrame(pool, frame, fcs);
    g := pool.NewRef(f);
    pool.OnlyWrittenFacts(g);
    pool.BufferFacts(g);
    HeaderCut(pool.PartsOf(g), frame);
    TailReadableIff(pool.PartsOf(g), frame);
    sent := CheckFrame(pool, g, st, duplicate);
  }
}
