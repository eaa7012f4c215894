/** Which damage `crc_match` detects. */
module ErrorDetection {
  import opened Bits
  import opened HdlcFraming
  import opened HdlcDecoder
  import Crc16

  /** How many octets of a frame `crc_match` looks at, the FCS included where it is seen. */
  function Compared(length: nat): (k: nat)
    requires length >= 2
    ensures k <= length
  {
    var n := CheckedLength(length);
    if n > 0 && n % SLOT_SIZE == 0 then n else n + 2
  }

  /** `t` is `s` but for at most sixteen bits in a row. */
  ghost predicate Burst(s: Frame, t: Frame, p: nat) {
    |s| == |t| && Crc16.AgreeOutside(BitsOf(s), BitsOf(t), p, 16)
  }

  /** A frame that passes, damaged by a burst, passes if and only if the damage is behind what
      is looked at. */
  lemma DamageSeenIff(past: bv16, s: Frame, t: Frame, p: nat)
    requires |s| >= 2 && Burst(s, t, p) && CrcMatch(past, s)
    ensures CrcMatch(past, t) <==> s[..Compared(|s|)] == t[..Compared(|s|)]
  {
    hide BitsOf, Crc16.Crc, Crc16.Received, Crc16.AgreeOutside;
    var n, k := CheckedLength(|s|), Compared(|s|);
    Crc16.BurstInPrefix(s, t, p, k);
    if k == n {
      Crc16.BurstChangesCrc(s[..n], t[..n], p);
    } else {
      EndsInFcs(past, s);
      EndsInFcs(past, t);
      if s[..k] != t[..k] {
        Crc16.BurstDetected(s[..k], t[..k], p);
      }
    }
  }

  lemma EndsInFcs(past: bv16, s: Frame)
    requires |s| >= 2 && Compared(|s|) == CheckedLength(|s|) + 2
    ensures CrcMatch(past, s) <==> Crc16.Matches(s[..Compared(|s|)])
  {
    var n := CheckedLength(|s|);
    assert s[..n + 2][..n] == s[..n];
  }

  /** In particular with two neighbouring octets changed, or one. */
  lemma AdjacentOctetsSeenIff(past: bv16, s: Frame, t: Frame, i: nat)
    requires |s| == |t| && i + 2 <= |s| && s[..i] == t[..i] && s[i + 2..] == t[i + 2..] && CrcMatch(past, s)
    ensures CrcMatch(past, t) <==> s[..Compared(|s|)] == t[..Compared(|s|)]
  {
    hide CrcMatch, Compared, BitsOf;
    Crc16.AdjacentOctetsAreBurst(s, t, i);
    DamageSeenIff(past, s, t, 8 * i);
  }

  /** What the decoder does with the damaged frame. */
  lemma DamagedDelivery(past: nat -> bv16, checks: nat, out: seq<Frame>, s: Frame, t: Frame, p: nat)
    requires Accepts(past(checks), s) && Burst(s, t, p)
    ensures var k := Compared(|s|);
            EndFrame(past, checks, out, t).out == if s[..k] == t[..k] then out + [t[..|t| - 2]] else out
  {
    hide CrcMatch, Compared, Burst;
    DamageSeenIff(past(checks), s, t, p);
    assert |t| == |s| by { SameLength(s, t, p); }
  }

  lemma SameLength(s: Frame, t: Frame, p: nat)
    requires Burst(s, t, p)
    ensures |s| == |t|
  {
  }

  /** A frame of ordinary length, sent with its FCS, is not delivered with any such damage. */
  lemma DamagedFrameDropped(past: nat -> bv16, checks: nat, out: seq<Frame>, f: Frame, t: Frame, p: nat)
    requires 17 <= |f| <= 253 && |f| % SLOT_SIZE != 0
    requires t != f + Crc16.Fcs(f) && Burst(f + Crc16.Fcs(f), t, p)
    ensures EndFrame(past, checks, out, t).out == out
  {
    var s := f + Crc16.Fcs(f);
    Crc16.OwnFcsMatches(f);
    assert Compared(|s|) == |s| && s[..|s|] == s && t[..|s|] == t;
    EndsInFcs(past(checks), s);
    hide CrcMatch, Burst, Crc16.Fcs;
    DamagedDelivery(past, checks, out, s, t, p);
  }
}
