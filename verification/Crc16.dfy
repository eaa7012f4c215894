/** The frame check sequence: the octet-wise `_crc_ccitt_update` against the
    shift register of section 3.7 of AX.25 v2.2, and the errors it detects. */
module Crc16 {
  import opened Bits

  const INITIAL: bv16 := 0xFFFF
  /** What the register holds after any frame followed by its own FCS. */
  const RESIDUE: bv16 := 0xF0B8

  /** The shift-and-xor update of one octet. */
  function Update(crc: bv16, data: bv8): bv16 {
    Mix(data ^ ((crc & 255) as bv8), (crc >> 8) as bv8)
  }

  function Mix(d0: bv8, high: bv8): bv16 {
    var d := d0 ^ (d0 << 4);
    (((d as bv16) << 8) | (high as bv16)) ^ ((d >> 4) as bv16) ^ ((d as bv16) << 3)
  }

  function Fold(crc: bv16, s: seq<bv8>): bv16
    decreases |s|
  {
    if s == [] then crc else Fold(Update(crc, s[0]), s[1..])
  }

  function Crc(s: seq<bv8>): bv16 { Fold(INITIAL, s) }

  /** The two FCS octets sent after a frame: the complement, low octet first. */
  function Fcs(s: seq<bv8>): (r: seq<bv8>)
    ensures |r| == 2
  {
    var crc := Crc(s);
    [((crc & 255) as bv8) ^ 0xFF, ((crc >> 8) as bv8) ^ 0xFF]
  }

  /** The register value that two received FCS octets stand for. */
  function Received(lo: bv8, hi: bv8): bv16 {
    ((lo ^ 0xFF) as bv16) | (((hi ^ 0xFF) as bv16) << 8)
  }

  /** The last two octets are the FCS of those before them. */
  predicate Matches(s: seq<bv8>)
    requires |s| >= 2
  {
    Crc(s[..|s| - 2]) == Received(s[|s| - 2], s[|s| - 1])
  }

  lemma FcsIsReceived(s: seq<bv8>)
    ensures Received(Fcs(s)[0], Fcs(s)[1]) == Crc(s)
  {
  }

  // ---- The shift register -------------------------------------------------

  /** One step of the reflected register with polynomial 0x8408. */
  function BitStep(crc: bv16, bit: bool): bv16 {
    (crc >> 1) ^ (if (crc & 1 != 0) != bit then 0x8408 else 0)
  }

  function Steps(crc: bv16, s: seq<bool>): bv16
    decreases |s|
  {
    if s == [] then crc else Steps(BitStep(crc, s[0]), s[1..])
  }

  // ---- The octet update is eight steps of the register ---------------------

  /** A step that takes its data bit from the low end of a word, free of branches. */
  function WordStep(crc: bv16, d: bv16): bv16 {
    var f := (crc ^ d) & 1;
    (crc >> 1) ^ (f << 3) ^ (f << 10) ^ (f << 15)
  }

  /** Four steps at once: 0x1081 is the polynomial seen from four places further down. */
  function NibbleStep(crc: bv16, d: bv16): bv16 {
    var f := (crc ^ d) & 15;
    (crc >> 4) ^ ((f << 7) | (f << 12) | f)
  }

  lemma WordStepIsBitStep(crc: bv16, d: bv16, bit: bool)
    requires bit == (d & 1 != 0)
    ensures BitStep(crc, bit) == WordStep(crc, d)
  {
    var f := (crc ^ d) & 1;
    assert f == 0 || f == 1;
    assert (f == 1) == ((crc & 1 != 0) != bit);
  }

  lemma NibbleIsFourSteps(crc: bv16, d: bv16)
    ensures WordStep(WordStep(WordStep(WordStep(crc, d), d >> 1), d >> 2), d >> 3) == NibbleStep(crc, d)
  {
  }

  lemma FourBitSteps(crc: bv16, d: bv16)
    ensures BitStep(BitStep(BitStep(BitStep(crc, d & 1 != 0), d & 2 != 0), d & 4 != 0), d & 8 != 0)
         == NibbleStep(crc, d)
  {
    hide *;
    NibbleIsFourSteps(crc, d);
    WordStepIsBitStep(crc, d, d & 1 != 0);
    WordStepIsBitStep(WordStep(crc, d), d >> 1, d & 2 != 0);
    WordStepIsBitStep(WordStep(WordStep(crc, d), d >> 1), d >> 2, d & 4 != 0);
    WordStepIsBitStep(WordStep(WordStep(WordStep(crc, d), d >> 1), d >> 2), d >> 3, d & 8 != 0);
  }

  lemma NibblesAreMix(crc: bv16, d0: bv8)
    ensures NibbleStep(NibbleStep(crc, (d0 ^ ((crc & 255) as bv8)) as bv16), ((d0 ^ ((crc & 255) as bv8)) >> 4) as bv16)
         == Mix(d0, (crc >> 8) as bv8)
  {
  }

  lemma NibblesAreUpdate(crc: bv16, data: bv8)
    ensures NibbleStep(NibbleStep(crc, data as bv16), (data >> 4) as bv16) == Update(crc, data)
  {
    hide NibbleStep, Mix;
    NibblesAreMix(crc, data ^ ((crc & 255) as bv8));
  }

  function Step4(crc: bv16, b0: bool, b1: bool, b2: bool, b3: bool): bv16 {
    BitStep(BitStep(BitStep(BitStep(crc, b0), b1), b2), b3)
  }

  lemma Step4IsNibble(crc: bv16, d: bv16, b0: bool, b1: bool, b2: bool, b3: bool)
    requires b0 == (d & 1 != 0) && b1 == (d & 2 != 0) && b2 == (d & 4 != 0) && b3 == (d & 8 != 0)
    ensures Step4(crc, b0, b1, b2, b3) == NibbleStep(crc, d)
  {
    hide BitStep, NibbleStep;
    FourBitSteps(crc, d);
  }

  lemma StepsOfEight(crc: bv16, b0: bool, b1: bool, b2: bool, b3: bool, b4: bool, b5: bool, b6: bool, b7: bool)
    ensures Steps(crc, [b0, b1, b2, b3, b4, b5, b6, b7]) == Step4(Step4(crc, b0, b1, b2, b3), b4, b5, b6, b7)
  {
    hide BitStep;
    StepsOfCons(crc, b0, [b1, b2, b3, b4, b5, b6, b7]);
    var c1 := BitStep(crc, b0);
    StepsOfCons(c1, b1, [b2, b3, b4, b5, b6, b7]);
    var c2 := BitStep(c1, b1);
    StepsOfCons(c2, b2, [b3, b4, b5, b6, b7]);
    var c3 := BitStep(c2, b2);
    StepsOfCons(c3, b3, [b4, b5, b6, b7]);
    var c4 := BitStep(c3, b3);
    StepsOfCons(c4, b4, [b5, b6, b7]);
    var c5 := BitStep(c4, b4);
    StepsOfCons(c5, b5, [b6, b7]);
    var c6 := BitStep(c5, b5);
    StepsOfCons(c6, b6, [b7]);
    StepsOfCons(BitStep(c6, b6), b7, []);
  }

  lemma StepsOfCons(crc: bv16, b: bool, s: seq<bool>)
    ensures Steps(crc, [b] + s) == Steps(BitStep(crc, b), s)
  {
    assert ([b] + s)[1..] == s;
  }

  lemma UpdateIsStep4s(crc: bv16, data: bv8, b0: bool, b1: bool, b2: bool, b3: bool, b4: bool, b5: bool, b6: bool, b7: bool)
    requires b0 == (data & 1 != 0) && b1 == (data & 2 != 0) && b2 == (data & 4 != 0) && b3 == (data & 8 != 0)
    requires b4 == (data & 16 != 0) && b5 == (data & 32 != 0) && b6 == (data & 64 != 0) && b7 == (data & 128 != 0)
    ensures Update(crc, data) == Step4(Step4(crc, b0, b1, b2, b3), b4, b5, b6, b7)
  {
    hide *;
    Step4IsNibble(crc, data as bv16, b0, b1, b2, b3);
    Step4IsNibble(Step4(crc, b0, b1, b2, b3), (data >> 4) as bv16, b4, b5, b6, b7);
    NibblesAreUpdate(crc, data);
  }

  /** The shift-and-xor update of one octet is eight steps of the polynomial register. */
  lemma UpdateIsEightSteps(crc: bv16, data: bv8)
    ensures Update(crc, data) == Steps(crc, OctetBits(data))
  {
    hide Update, Steps, Step4;
    var b0, b1, b2, b3 := data & 1 != 0, data & 2 != 0, data & 4 != 0, data & 8 != 0;
    var b4, b5, b6, b7 := data & 16 != 0, data & 32 != 0, data & 64 != 0, data & 128 != 0;
    UpdateIsStep4s(crc, data, b0, b1, b2, b3, b4, b5, b6, b7);
    StepsOfEight(crc, b0, b1, b2, b3, b4, b5, b6, b7);
  }

  lemma {:induction false} StepsConcat(crc: bv16, s: seq<bool>, t: seq<bool>)
    ensures Steps(crc, s + t) == Steps(Steps(crc, s), t)
    decreases |s|
  {
    hide BitStep;
    if s == [] {
      assert s + t == t;
    } else {
      StepsConcat(BitStep(crc, s[0]), s[1..], t);
      assert (s + t)[1..] == s[1..] + t;
    }
  }

  /** Folding the octet update over a message is the shift register run over its bits. */
  lemma {:induction false} FoldIsSteps(crc: bv16, s: seq<bv8>)
    ensures Fold(crc, s) == Steps(crc, BitsOf(s))
    decreases |s|
  {
    hide Update, OctetBits;
    if s != [] {
      UpdateIsEightSteps(crc, s[0]);
      FoldIsSteps(Update(crc, s[0]), s[1..]);
      StepsConcat(crc, OctetBits(s[0]), BitsOf(s[1..]));
    }
  }

  // ---- Error detection ------------------------------------------------------

  lemma StepInjective(a: bv16, b: bv16, bit: bool)
    requires BitStep(a, bit) == BitStep(b, bit)
    ensures a == b
  {
  }

  lemma {:induction false} StepsInjective(a: bv16, b: bv16, s: seq<bool>)
    requires Steps(a, s) == Steps(b, s)
    ensures a == b
    decreases |s|
  {
    hide BitStep;
    if s != [] {
      StepsInjective(BitStep(a, s[0]), BitStep(b, s[0]), s[1..]);
      StepInjective(a, b, s[0]);
    }
  }

  predicate AgreeOn(a: bv16, b: bv16, m: bv16) { a & m == b & m }

  /** Reading one step backwards: the top bit gives away what was fed back, so
      agreement of two registers on `m` puts them in agreement one place higher before. */
  lemma StepBack(a: bv16, b: bv16, x: bool, y: bool, m: bv16)
    requires m & 0x8000 != 0
    requires AgreeOn(BitStep(a, x), BitStep(b, y), m)
    ensures AgreeOn(a, b, m << 1)
    ensures ((a & 1 != 0) != x) == ((b & 1 != 0) != y)
  {
  }

  /** The bits on which two registers must agree when `k` steps later they are equal. */
  function Above(k: nat): bv16 {
    if k == 0 then 0xFFFF else Above(k - 1) << 1
  }

  lemma AboveHasTop(k: nat)
    requires k <= 15
    ensures Above(k) & 0x8000 != 0
  {
    var m3 := Above(3);
    assert m3 == 0xFFF8;
    var m6 := Above(6);
    assert m6 == 0xFFC0 by { assert Above(4) == 0xFFF0; }
    assert Above(9) == 0xFE00 by { assert Above(7) == 0xFF80; }
    assert Above(12) == 0xF000 by { assert Above(10) == 0xFC00; }
    assert Above(15) == 0x8000 by { assert Above(13) == 0xE000; }
  }

  lemma AgreeWithSelf(a: bv16, m: bv16)
    ensures AgreeOn(a, a, m)
  {
  }

  lemma {:induction false} AgreeBefore(a: bv16, b: bv16, s: seq<bool>, t: seq<bool>)
    requires |s| == |t| <= 16
    requires Steps(a, s) == Steps(b, t)
    ensures AgreeOn(a, b, Above(|s|))
    decreases |s|
  {
    hide BitStep, AgreeOn;
    if s == [] {
      AgreeWithSelf(a, Above(0));
    } else {
      AgreeBefore(BitStep(a, s[0]), BitStep(b, t[0]), s[1..], t[1..]);
      AboveHasTop(|s| - 1);
      StepBack(a, b, s[0], t[0], Above(|s| - 1));
    }
  }

  /** From one state, two different runs of up to sixteen bits never meet. */
  lemma {:induction false} ShortRunsDiffer(a: bv16, s: seq<bool>, t: seq<bool>)
    requires |s| == |t| <= 16
    requires Steps(a, s) == Steps(a, t)
    ensures s == t
    decreases |s|
  {
    hide BitStep, AgreeOn;
    if s != [] {
      AgreeBefore(BitStep(a, s[0]), BitStep(a, t[0]), s[1..], t[1..]);
      AboveHasTop(|s| - 1);
      StepBack(a, a, s[0], t[0], Above(|s| - 1));
      ShortRunsDiffer(BitStep(a, s[0]), s[1..], t[1..]);
      assert s == [s[0]] + s[1..] && t == [t[0]] + t[1..];
    }
  }

  // ---- The receiver's test --------------------------------------------------

  lemma OwnFcsLeavesResidue(crc: bv16)
    ensures Update(Update(crc, ((crc & 255) as bv8) ^ 0xFF), ((crc >> 8) as bv8) ^ 0xFF) == RESIDUE
  {
  }

  lemma ReceivedSplits(lo: bv8, hi: bv8)
    ensures (Received(lo, hi) & 255) as bv8 == lo ^ 0xFF
    ensures (Received(lo, hi) >> 8) as bv8 == hi ^ 0xFF
  {
  }

  lemma TwoUpdatesInjective(crc: bv16, a: bv8, b: bv8, x: bv8, y: bv8)
    requires Update(Update(crc, a), b) == Update(Update(crc, x), y)
    ensures a == x && b == y
  {
    hide Update, OctetBits, Steps;
    TwoUpdatesAreSteps(crc, a, b);
    TwoUpdatesAreSteps(crc, x, y);
    var s, t := OctetBits(a) + OctetBits(b), OctetBits(x) + OctetBits(y);
    ShortRunsDiffer(crc, s, t);
    assert s[..8] == OctetBits(a) && t[..8] == OctetBits(x);
    assert s[8..] == OctetBits(b) && t[8..] == OctetBits(y);
    SplitIsInjective(a, x);
    SplitIsInjective(b, y);
  }

  lemma TwoUpdatesAreSteps(crc: bv16, a: bv8, b: bv8)
    ensures Update(Update(crc, a), b) == Steps(crc, OctetBits(a) + OctetBits(b))
  {
    hide *;
    UpdateIsEightSteps(crc, a);
    UpdateIsEightSteps(Update(crc, a), b);
    StepsConcat(crc, OctetBits(a), OctetBits(b));
  }

  lemma FoldOfTwo(crc: bv16, a: bv8, b: bv8)
    ensures Fold(crc, [a, b]) == Update(Update(crc, a), b)
  {
    hide Update;
    assert [a, b][1..] == [b] && [b][1..] == [];
    assert Fold(Update(crc, a), [b]) == Update(Update(crc, a), b);
  }

  lemma {:induction false} FoldConcat(crc: bv16, s: seq<bv8>, t: seq<bv8>)
    ensures Fold(crc, s + t) == Fold(Fold(crc, s), t)
    decreases |s|
  {
    hide Update;
    if s == [] {
      assert s + t == t;
    } else {
      FoldConcat(Update(crc, s[0]), s[1..], t);
      assert (s + t)[1..] == s[1..] + t;
    }
  }

  lemma FoldToTheEnd(s: seq<bv8>)
    requires |s| >= 2
    ensures Fold(INITIAL, s) == Update(Update(Crc(s[..|s| - 2]), s[|s| - 2]), s[|s| - 1])
  {
    hide Fold, Update;
    var n := |s| - 2;
    assert s == s[..n] + [s[n], s[n + 1]];
    FoldConcat(INITIAL, s[..n], [s[n], s[n + 1]]);
    FoldOfTwo(Crc(s[..n]), s[n], s[n + 1]);
  }

  lemma ReceivedLeavesResidue(crc: bv16, lo: bv8, hi: bv8)
    ensures crc == Received(lo, hi) <==> Update(Update(crc, lo), hi) == RESIDUE
  {
    hide *;
    OwnFcsLeavesResidue(crc);
    ReceivedSplits(lo, hi);
    if crc == Received(lo, hi) {
      assert (lo ^ 0xFF) ^ 0xFF == lo && (hi ^ 0xFF) ^ 0xFF == hi;
    } else if Update(Update(crc, lo), hi) == RESIDUE {
      TwoUpdatesInjective(crc, lo, hi, ((crc & 255) as bv8) ^ 0xFF, ((crc >> 8) as bv8) ^ 0xFF);
      ReceivedJoins(crc);
    }
  }

  lemma ReceivedJoins(crc: bv16)
    ensures Received(((crc & 255) as bv8) ^ 0xFF, ((crc >> 8) as bv8) ^ 0xFF) == crc
  {
  }

  lemma CrcOfNone()
    ensures Crc([]) == INITIAL
  {
  }

  lemma CrcSnoc(s: seq<bv8>, b: bv8)
    ensures Crc(s + [b]) == Update(Crc(s), b)
  {
    hide Update;
    FoldConcat(INITIAL, s, [b]);
    assert Fold(Crc(s), [b]) == Update(Crc(s), b) by { assert [b][1..] == []; }
  }

  /** The comparison succeeds exactly when the register, run over the frame and its FCS, is at the residue. */
  lemma MatchesIffResidue(s: seq<bv8>)
    requires |s| >= 2
    ensures Matches(s) <==> Fold(INITIAL, s) == RESIDUE
  {
    hide Fold, Update, Received, Crc;
    FoldToTheEnd(s);
    ReceivedLeavesResidue(Crc(s[..|s| - 2]), s[|s| - 2], s[|s| - 1]);
  }

  lemma OwnFcsMatches(s: seq<bv8>)
    ensures Matches(s + Fcs(s))
  {
    var t := s + Fcs(s);
    assert t[..|t| - 2] == s;
    hide Crc, Fcs;
    FcsIsReceived(s);
  }

  predicate AgreeOutside(a: seq<bool>, b: seq<bool>, p: nat, n: nat) {
    |a| == |b| && forall i :: 0 <= i < |a| && !(p <= i < p + n) ==> a[i] == b[i]
  }

  /** A burst of up to sixteen bits changes the register. */
  lemma BurstChangesCrc(s: seq<bv8>, t: seq<bv8>, p: nat)
    requires |s| == |t| && AgreeOutside(BitsOf(s), BitsOf(t), p, 16)
    ensures Crc(s) == Crc(t) <==> s == t
  {
    hide BitsOf, Fold, Steps;
    FoldIsSteps(INITIAL, s);
    FoldIsSteps(INITIAL, t);
    OctetsOfBitsOf(s);
    OctetsOfBitsOf(t);
    if Crc(s) == Crc(t) {
      var a, b := BitsOf(s), BitsOf(t);
      if |a| <= 16 {
        ShortRunsDiffer(INITIAL, a, b);
      } else {
        var q := if p + 16 <= |a| then p else |a| - 16;
        InThree(a, b, p, q);
        BurstBits(INITIAL, a[..q], a[q..q + 16], b[q..q + 16], a[q + 16..]);
      }
    }
  }

  /** With its FCS behind it, a burst anywhere is seen. */
  lemma BurstDetected(s: seq<bv8>, t: seq<bv8>, p: nat)
    requires |s| == |t| >= 2 && s != t
    requires AgreeOutside(BitsOf(s), BitsOf(t), p, 16)
    requires Matches(s)
    ensures !Matches(t)
  {
    hide Matches, BitsOf, Fold, Steps;
    MatchesIffResidue(s);
    MatchesIffResidue(t);
    FoldIsSteps(INITIAL, s);
    FoldIsSteps(INITIAL, t);
    if Matches(t) {
      var a, b := BitsOf(s), BitsOf(t);
      var q := if p + 16 <= |a| then p else |a| - 16;
      InThree(a, b, p, q);
      BurstBits(INITIAL, a[..q], a[q..q + 16], b[q..q + 16], a[q + 16..]);
      OctetsOfBitsOf(s);
      OctetsOfBitsOf(t);
    }
  }

  lemma InThree(a: seq<bool>, b: seq<bool>, p: nat, q: nat)
    requires AgreeOutside(a, b, p, 16) && q + 16 <= |a| && q == if p + 16 <= |a| then p else |a| - 16
    ensures a == a[..q] + a[q..q + 16] + a[q + 16..] && b == a[..q] + b[q..q + 16] + a[q + 16..]
  {
  }

  lemma BurstBits(crc: bv16, head: seq<bool>, a: seq<bool>, b: seq<bool>, tail: seq<bool>)
    requires |a| == |b| == 16
    requires Steps(crc, head + a + tail) == Steps(crc, head + b + tail)
    ensures a == b
  {
    hide Steps;
    StepsConcat(crc, head + a, tail);
    StepsConcat(crc, head + b, tail);
    StepsConcat(crc, head, a);
    StepsConcat(crc, head, b);
    StepsInjective(Steps(crc, head + a), Steps(crc, head + b), tail);
    ShortRunsDiffer(Steps(crc, head), a, b);
  }

  /** A change of two neighbouring octets is a burst. */
  lemma AdjacentOctetsAreBurst(s: seq<bv8>, t: seq<bv8>, k: nat)
    requires |s| == |t| && k + 2 <= |s|
    requires s[..k] == t[..k] && s[k + 2..] == t[k + 2..]
    ensures AgreeOutside(BitsOf(s), BitsOf(t), 8 * k, 16)
  {
    hide BitsOf;
    BitsInThree(s, k);
    BitsInThree(t, k);
    MiddleOnly(BitsOf(s[..k]), BitsOf(s[k..k + 2]), BitsOf(t[k..k + 2]), BitsOf(s[k + 2..]));
  }

  lemma BitsInThree(s: seq<bv8>, k: nat)
    requires k + 2 <= |s|
    ensures BitsOf(s) == BitsOf(s[..k]) + BitsOf(s[k..k + 2]) + BitsOf(s[k + 2..])
  {
    hide BitsOf;
    InThreePieces(s, k);
    BitsOfThree(s[..k], s[k..k + 2], s[k + 2..]);
  }

  lemma InThreePieces(s: seq<bv8>, k: nat)
    requires k + 2 <= |s|
    ensures s == s[..k] + s[k..k + 2] + s[k + 2..]
  {
  }

  lemma BitsOfThree(a: seq<bv8>, b: seq<bv8>, c: seq<bv8>)
    ensures BitsOf(a + b + c) == BitsOf(a) + BitsOf(b) + BitsOf(c)
  {
    hide BitsOf;
    BitsOfConcat(a + b, c);
    BitsOfConcat(a, b);
  }

  lemma MiddleOnly(a: seq<bool>, x: seq<bool>, y: seq<bool>, z: seq<bool>)
    requires |x| == |y| == 16
    ensures AgreeOutside(a + x + z, a + y + z, |a|, 16)
  {
  }

  lemma BurstInPrefix(s: seq<bv8>, t: seq<bv8>, p: nat, n: nat)
    requires |s| == |t| && n <= |s| && AgreeOutside(BitsOf(s), BitsOf(t), p, 16)
    ensures AgreeOutside(BitsOf(s[..n]), BitsOf(t[..n]), p, 16)
  {
    hide OctetBits;
    assert s == s[..n] + s[n..] && t == t[..n] + t[n..];
    BitsOfConcat(s[..n], s[n..]);
    BitsOfConcat(t[..n], t[n..]);
    hide BitsOf;
    var a, b := BitsOf(s[..n]), BitsOf(t[..n]);
    forall i | 0 <= i < |a| && !(p <= i < p + 16) ensures a[i] == b[i] {
      assert a[i] == BitsOf(s)[i] && b[i] == BitsOf(t)[i];
    }
  }
}
