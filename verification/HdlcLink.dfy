/** What the decoder makes of what the encoder sends. */
module HdlcLink {
  import opened Bits
  import opened HdlcFraming
  import opened HdlcDecoder
  import Crc16

  lemma FlagToken(past: nat -> bv16, st: Rx, rest: seq<bool>)
    ensures Run(past, st, FLAG_BITS + rest) == Run(past, Step(past, st, Flag), rest)
  {
    var s := FLAG_BITS + rest;
    assert s[..8] == FLAG_BITS && s[8..] == rest;
  }

  lemma BitToken(past: nat -> bv16, st: Rx, b: bool, rest: seq<bool>)
    requires |rest| >= 7 && !FlagAt([b] + rest, 0)
    ensures Run(past, st, [b] + rest) == Run(past, Step(past, st, Bit(b)), rest)
  {
    var s := [b] + rest;
    assert s[..8] == s[0..8] && s[1..] == rest;
  }

  /** The line bits of a frame from the point where its first `done` bits are decoded. */
  function Ahead(run: nat, data: seq<bool>, rest: seq<bool>): seq<bool> {
    Line(run, data, FLAG_BITS + rest)
  }

  /** One line bit of unfinished data reaches the decoder as a bit. */
  lemma AheadToken(past: nat -> bv16, st: Rx, run: nat, data: seq<bool>, rest: seq<bool>)
    requires run <= 5 && data != []
    ensures run == 5 ==> Run(past, st, Ahead(run, data, rest)) == Run(past, Step(past, st, Bit(false)), Ahead(0, data, rest))
    ensures run < 5 ==> (Run(past, st, Ahead(run, data, rest))
                      == Run(past, Step(past, st, Bit(data[0])), Ahead(NextRun(run, data[0]), data[1..], rest)))
  {
    hide Step, Run, StuffFrom;
    NoFlagFirst(run, data, FLAG_BITS + rest);
    LineUnfolds(run, data, FLAG_BITS + rest);
    if run == 5 {
      BitToken(past, st, false, Ahead(0, data, rest));
    } else {
      BitToken(past, st, data[0], Ahead(NextRun(run, data[0]), data[1..], rest));
    }
  }

  const LONGEST: nat := 8 * (MAX_FRAME_SIZE + 1)

  /** The state after a frame of `bits`, whole octets or not, and its closing flag, for a
      decoder between frames. */
  function AfterFrame(past: nat -> bv16, checks: nat, out: seq<Frame>, bits: seq<bool>): Rx {
    if |bits| > LONGEST then Rx(FrameSync, checks, out)
    else if RunAfter(0, bits) == 5 then Rx(FlagSync, checks, out)
    else if |bits| % 8 != 0 then Rx(FrameSync, checks, out)
    else EndFrame(past, checks, out, OctetsOf(bits))
  }

  /** A decoder that has lost its place only looks for the flag, and finds the right one. */
  lemma {:induction false} SkipData(past: nat -> bv16, st: Rx, run: nat, data: seq<bool>, rest: seq<bool>)
    requires run <= 5 && st.phase == FlagSync
    ensures Run(past, st, Ahead(run, data, rest)) == Run(past, st.(phase := FrameSync), rest)
    decreases |data|, run
  {
    hide Run, StuffFrom;
    if data == [] {
      NoData(run, FLAG_BITS + rest);
      FlagToken(past, st, rest);
    } else {
      AheadToken(past, st, run, data, rest);
      if run == 5 {
        SkipData(past, st, 0, data, rest);
      } else {
        SkipData(past, st, NextRun(run, data[0]), data[1..], rest);
      }
    }
  }

  lemma NoData(run: nat, rest: seq<bool>)
    ensures Line(run, [], rest) == rest
  {
  }

  /** Unstuffing inverts stuffing: inside a frame the decoder gathers exactly the data. */
  lemma {:induction false} Unstuff(past: nat -> bv16, st: Rx, run: nat, data: seq<bool>, rest: seq<bool>, bits: seq<bool>)
    requires st.phase.InFrame? && st.phase.ones == run <= 5 && !st.phase.skipped
    requires bits == st.phase.acc + data && RunAfter(run, data) == RunAfter(0, bits)
    requires |st.phase.acc| <= LONGEST
    ensures Run(past, st, Ahead(run, data, rest)) == Run(past, AfterFrame(past, st.checks, st.out, bits), rest)
    decreases |data|
  {
    hide Run, StuffFrom, EndFrame, OctetsOf;
    var acc := st.phase.acc;
    if data == [] {
      NoData(run, FLAG_BITS + rest);
      FlagToken(past, st, rest);
      assert acc == bits && RunAfter(run, []) == run;
    } else {
      var d := data[0];
      var next := NextRun(if run == 5 then 0 else run, d);
      assert acc + data == (acc + [d]) + data[1..];
      AheadToken(past, st, run, data, rest);
      var st1 := st;
      if run == 5 {
        st1 := Step(past, st, Bit(false));
        AheadToken(past, st1, 0, data, rest);
      }
      var st2 := Step(past, st1, Bit(d));
      if |acc| == LONGEST {
        SkipData(past, st2, next, data[1..], rest);
      } else {
        Unstuff(past, st2, next, data[1..], rest, bits);
      }
    }
  }

  /** A stuffed frame and its closing flag, for a decoder between frames. */
  lemma FrameDecodes(past: nat -> bv16, st: Rx, bits: seq<bool>, rest: seq<bool>)
    requires st.phase == FrameSync && bits != []
    ensures Run(past, st, StuffFrom(0, bits) + FLAG_BITS + rest) == Run(past, AfterFrame(past, st.checks, st.out, bits), rest)
  {
    hide Run, StuffFrom, EndFrame, OctetsOf, AfterFrame;
    Assoc(StuffFrom(0, bits), FLAG_BITS, rest);
    AheadToken(past, st, 0, bits, rest);
    var st1 := Step(past, st, Bit(bits[0]));
    assert [bits[0]] + bits[1..] == bits;
    Unstuff(past, st1, NextRun(0, bits[0]), bits[1..], rest, bits);
  }

  // ---- Self-synchronisation ------------------------------------------------------

  predicate Between(st: Rx) { st.phase == FrameSync || st.phase == FlagSync }

  predicate Grew(before: Rx, after: Rx) {
    before.out <= after.out && before.checks <= after.checks
  }

  /** A flag ends whatever was going on. */
  lemma FlagSettles(past: nat -> bv16, st: Rx)
    ensures Between(Step(past, st, Flag)) && Grew(st, Step(past, st, Flag))
    ensures Between(st) ==> Step(past, st, Flag) == st.(phase := FrameSync)
  {
  }

  /** Five ones have been read, and no zero after them. */
  predicate FiveOnes(st: Rx) { st.phase.InFrame? && st.phase.ones == 5 && !st.phase.skipped }

  /** One flag puts the decoder at the start of a frame, wherever it was, in the middle of an
      octet too, unless it has just read five ones. It delivers nothing but a frame of at least
      nineteen whole octets that it ends. */
  lemma FlagLaw(past: nat -> bv16, st: Rx)
    ensures Step(past, st, Flag).phase == FrameSync <==> !(st.phase.InFrame? && st.phase.ones == 5 && !st.phase.skipped)
    ensures FiveOnes(st) ==> Step(past, st, Flag) == st.(phase := FlagSync)
    ensures !(st.phase.InFrame? && |st.phase.acc| % 8 == 0 && |st.phase.acc| >= 8 * 19) ==>
              Step(past, st, Flag).out == st.out && Step(past, st, Flag).checks == st.checks
  {
  }

  /** So one flag before a frame is enough, if and only if the decoder has not just read five
      ones: then the frame is missed. Nothing delivered before is taken back. */
  lemma OneFlagIsEnough(past: nat -> bv16, st: Rx, bits: seq<bool>, rest: seq<bool>)
    requires bits != []
    ensures var s, st1 := FLAG_BITS + (StuffFrom(0, bits) + FLAG_BITS + rest), Step(past, st, Flag);
            var after := if FiveOnes(st) then st.(phase := FrameSync) else AfterFrame(past, st1.checks, st1.out, bits);
            Run(past, st, s) == Run(past, after, rest) && Grew(st, st1) && Grew(st, after)
  {
    hide Run, StuffFrom, OctetsOf;
    var st1 := Step(past, st, Flag);
    FlagLaw(past, st);
    FlagSettles(past, st);
    FlagToken(past, st, StuffFrom(0, bits) + FLAG_BITS + rest);
    AfterGrows(past, st1.checks, st1.out, bits);
    hide Step;
    if FiveOnes(st) {
      Assoc(StuffFrom(0, bits), FLAG_BITS, rest);
      SkipData(past, st1, 0, bits, rest);
    } else {
      FrameDecodes(past, st1, bits, rest);
    }
  }

  lemma AfterGrows(past: nat -> bv16, checks: nat, out: seq<Frame>, bits: seq<bool>)
    ensures Grew(Rx(FrameSync, checks, out), AfterFrame(past, checks, out, bits))
  {
  }

  lemma BitDelivers(past: nat -> bv16, st: Rx, b: bool)
    ensures Step(past, st, Bit(b)).out == st.out && Step(past, st, Bit(b)).checks == st.checks
  {
  }

  const SIX_ONES: seq<bool> := [true, true, true, true, true, true, false]

  /** The state after `n` ones. */
  function OneMore(past: nat -> bv16, st: Rx, n: nat): Rx {
    if n == 0 then st else Step(past, OneMore(past, st, n - 1), Bit(true))
  }

  /** What the decoder can be in: at most five ones counted, none after a zero was skipped. */
  predicate Possible(st: Rx) {
    st.phase.InFrame? ==> st.phase.ones <= 5 && (st.phase.skipped ==> st.phase.ones == 0)
  }

  lemma StaysPossible(past: nat -> bv16, st: Rx, t: Token)
    requires Possible(st)
    ensures Possible(Step(past, st, t))
  {
  }

  /** So it is in such a state at any time, starting from any. */
  lemma {:induction false} AlwaysPossible(past: nat -> bv16, st: Rx, s: seq<bool>)
    requires Possible(st)
    ensures Possible(Run(past, st, s))
    decreases |s|
  {
    hide Step, Possible;
    if |s| >= 8 {
      StaysPossible(past, st, Lex(s));
      AlwaysPossible(past, Step(past, st, Lex(s)), s[Width(Lex(s))..]);
    }
  }

  /** Inside a frame with a run of `ones`, each further one counts, and the sixth ends the frame. */
  lemma {:induction false} OnesCount(past: nat -> bv16, st: Rx, n: nat)
    requires Possible(st)
    ensures var r := OneMore(past, st, n);
            && r.out == st.out && r.checks == st.checks && (st.phase == FlagSync ==> r == st)
            && (n > 0 ==> r.phase != FrameSync)
            && (r.phase.InFrame? && n > 0 ==> n + (if st.phase.InFrame? then st.phase.ones else 0) == r.phase.ones <= 5 && !r.phase.skipped)
  {
    if n > 0 {
      OnesCount(past, st, n - 1);
    }
  }

  /** Six ones in a row throw the decoder back to looking for a flag, whatever it was doing,
      and deliver nothing. */
  lemma SixOnes(past: nat -> bv16, st: Rx)
    requires Possible(st)
    ensures OneMore(past, st, 6) == st.(phase := FlagSync)
  {
    OnesCount(past, st, 6);
  }

  lemma {:induction false} EatOnes(past: nat -> bv16, st: Rx, n: nat, tail: seq<bool>)
    requires |tail| >= 7
    ensures Run(past, st, seq(n, _ => true) + tail) == Run(past, OneMore(past, st, n), tail)
    decreases n
  {
    hide Step, Run;
    var ones := seq(n, _ => true);
    if n == 0 {
      assert ones + tail == tail;
    } else {
      var t := [true] + tail;
      assert ones + tail == seq(n - 1, _ => true) + t;
      EatOnes(past, st, n - 1, t);
      assert !FlagAt(t, 0) by { assert t[0..8][0]; }
      BitToken(past, OneMore(past, st, n - 1), true, tail);
    }
  }

  /** A flag whose first zero was taken as the end of an earlier flag leaves the decoder looking for the next one. */
  lemma EatenZero(past: nat -> bv16, st: Rx, rest: seq<bool>)
    requires Between(st)
    ensures Run(past, st, SIX_ONES + FLAG_BITS + rest) == Run(past, st.(phase := FrameSync), rest)
  {
    hide Run;
    var tail := [false] + (FLAG_BITS + rest);
    assert SIX_ONES + FLAG_BITS + rest == seq(6, _ => true) + tail;
    EatOnes(past, st, 6, tail);
    SixOnes(past, st);
    hide *;
    var lost := st.(phase := FlagSync);
    NotTwoZeros(rest);
    BitToken(past, lost, false, FLAG_BITS + rest);
    FlagToken(past, lost, rest);
    FlagSyncSteps(past, lost);
  }

  lemma NotTwoZeros(rest: seq<bool>)
    ensures !FlagAt([false] + (FLAG_BITS + rest), 0)
  {
    assert !([false] + (FLAG_BITS + rest))[0..8][1];
  }

  lemma FlagSyncSteps(past: nat -> bv16, st: Rx)
    requires st.phase == FlagSync
    ensures Step(past, st, Bit(false)) == st && Step(past, st, Flag) == st.(phase := FrameSync)
  {
  }

  /** From every state of the decoder, after any bits whatever, two flags leave it at the
      start of a frame. */
  lemma {:induction false} TwoFlagsSynchronise(past: nat -> bv16, st: Rx, junk: seq<bool>, rest: seq<bool>) returns (after: Rx)
    ensures after.phase == FrameSync && Grew(st, after)
    ensures Run(past, st, junk + FLAG_BITS + FLAG_BITS + rest) == Run(past, after, rest)
    decreases |junk|
  {
    hide Run, Step;
    var s := junk + FLAG_BITS + FLAG_BITS + rest;
    if junk == [] {
      assert s == FLAG_BITS + (FLAG_BITS + rest);
      FlagToken(past, st, FLAG_BITS + rest);
      FlagSettles(past, st);
      var st1 := Step(past, st, Flag);
      FlagToken(past, st1, rest);
      FlagSettles(past, st1);
      after := Step(past, st1, Flag);
    } else if FlagAt(s, 0) {
      FlagSettles(past, st);
      var st1 := Step(past, st, Flag);
      if |junk| >= 8 {
        assert junk[..8] == s[0..8];
        assert s == FLAG_BITS + (junk[8..] + FLAG_BITS + FLAG_BITS + rest);
        FlagToken(past, st, junk[8..] + FLAG_BITS + FLAG_BITS + rest);
        after := TwoFlagsSynchronise(past, st1, junk[8..], rest);
      } else {
        OverlappingFlag(junk, FLAG_BITS + rest);
        assert s == FLAG_BITS + (SIX_ONES + FLAG_BITS + rest);
        FlagToken(past, st, SIX_ONES + FLAG_BITS + rest);
        EatenZero(past, st1, rest);
        after := st1.(phase := FrameSync);
      }
    } else {
      var tail := junk[1..] + FLAG_BITS + FLAG_BITS + rest;
      assert s == [junk[0]] + tail;
      BitToken(past, st, junk[0], tail);
      BitDelivers(past, st, junk[0]);
      after := TwoFlagsSynchronise(past, Step(past, st, Bit(junk[0])), junk[1..], rest);
    }
  }

  /** A flag pieced together from junk and the start of a flag takes one bit of the latter. */
  lemma OverlappingFlag(junk: seq<bool>, rest: seq<bool>)
    requires 0 < |junk| < 8 && FlagAt(junk + FLAG_BITS + rest, 0)
    ensures junk + FLAG_BITS + rest == FLAG_BITS + (SIX_ONES + rest)
  {
    var s := junk + FLAG_BITS + rest;
    var f := s[0..8];
    assert f == FLAG_BITS;
    assert f[|junk|] == FLAG_BITS[0];
    assert |junk| == 7;
  }

  // ---- Whole transmissions ---------------------------------------------------------

  /** Frames, each followed by a flag; consecutive frames share one. */
  function Closed(frames: seq<Frame>): seq<bool> {
    if frames == [] then [] else StuffFrom(0, FrameBits(frames[0])) + FLAG_BITS + Closed(frames[1..])
  }

  /** What a decoder between frames makes of a sequence of frames. One that has lost its
      place misses the frame, and its closing flag puts it back. */
  function Deliver(past: nat -> bv16, st: Rx, frames: seq<Frame>): Rx
    decreases |frames|
  {
    if frames == [] then st
    else Deliver(past,
                 if st.phase == FrameSync then AfterFrame(past, st.checks, st.out, FrameBits(frames[0]))
                 else st.(phase := FrameSync),
                 frames[1..])
  }

  lemma {:induction false} ClosedDecodes(past: nat -> bv16, st: Rx, frames: seq<Frame>, rest: seq<bool>)
    requires Between(st)
    ensures Run(past, st, Closed(frames) + rest) == Run(past, Deliver(past, st, frames), rest)
    ensures Between(Deliver(past, st, frames))
    decreases |frames|
  {
    hide Run, StuffFrom, FrameBits, EndFrame;
    if frames == [] {
      assert Closed(frames) + rest == rest;
    } else {
      var bits, tail := FrameBits(frames[0]), Closed(frames[1..]) + rest;
      FrameBitsLength(frames[0]);
      assert Closed(frames) + rest == StuffFrom(0, bits) + FLAG_BITS + tail;
      if st.phase == FrameSync {
        FrameDecodes(past, st, bits, tail);
        EndFrameSettles(past, st.checks, st.out, OctetsOf(bits));
        ClosedDecodes(past, AfterFrame(past, st.checks, st.out, bits), frames[1..], rest);
      } else {
        Assoc(StuffFrom(0, bits), FLAG_BITS, tail);
        SkipData(past, st, 0, bits, tail);
        ClosedDecodes(past, st.(phase := FrameSync), frames[1..], rest);
      }
    }
  }

  lemma EndFrameSettles(past: nat -> bv16, checks: nat, out: seq<Frame>, s: Frame)
    ensures EndFrame(past, checks, out, s).phase == FrameSync
  {
  }

  lemma FrameBitsLength(f: Frame)
    ensures |FrameBits(f)| == 8 * (|f| + 2) && OctetsOf(FrameBits(f)) == f + Crc16.Fcs(f)
  {
    OctetsOfBitsOf(f + Crc16.Fcs(f));
  }

  lemma {:induction false} FlagsDecode(past: nat -> bv16, st: Rx, n: nat, rest: seq<bool>)
    requires Between(st)
    ensures Run(past, st, Flags(n) + rest) == Run(past, if n == 0 then st else st.(phase := FrameSync), rest)
    decreases n
  {
    hide Run;
    if n == 0 {
      assert Flags(0) + rest == rest;
    } else {
      Assoc(FLAG_BITS, Flags(n - 1), rest);
      FlagToken(past, st, Flags(n - 1) + rest);
      FlagSettles(past, st);
      FlagsDecode(past, st.(phase := FrameSync), n - 1, rest);
    }
  }

  /** The frames of a transmission that are really sent. */
  function Sent(frames: seq<Frame>, max: nat): seq<Frame> {
    if max < |frames| then frames[..max] else frames
  }

  /** With at least one flag after it, the body is the sent frames, each closed by a flag;
      a frame left over adds one more flag. */
  lemma {:induction false} BodyIsClosed(frames: seq<Frame>, max: nat)
    requires frames != [] && max > 0
    ensures Body(0, frames, max) + FLAG_BITS == Closed(Sent(frames, max)) + Flags(if max < |frames| then 1 else 0)
    decreases max
  {
    hide StuffFrom, FrameBits;
    var first := StuffFrom(0, FrameBits(frames[0])) + FLAG_BITS;
    var rest := frames[1..];
    if |frames| == 1 {
      assert Closed(rest) == [];
      assert Closed(frames) == first + [] && Closed(frames) + [] == first;
    } else if max == 1 {
      assert Sent(frames, 1) == [frames[0]] && Closed(Sent(frames, 1)[1..]) == [];
      assert Closed(Sent(frames, 1)) == first + [];
      assert Body(0, rest, 0) == [] && first + [] + FLAG_BITS == first + FLAG_BITS;
      assert Flags(1) == FLAG_BITS + Flags(0) && Flags(1) == FLAG_BITS;
    } else {
      BodyIsClosed(rest, max - 1);
      assert Sent(frames, max)[1..] == Sent(rest, max - 1) && Sent(frames, max)[0] == frames[0];
      var more := Flags(if max < |frames| then 1 else 0);
      assert Closed(Sent(frames, max)) == first + Closed(Sent(rest, max - 1));
      Assoc(first, Body(0, rest, max - 1), FLAG_BITS);
      Assoc(first, Closed(Sent(rest, max - 1)), more);
    }
  }

  lemma FlagsLength(n: nat)
    ensures |Flags(n)| == 8 * n
  {
  }

  lemma FlagsSum(m: nat, n: nat)
    ensures Flags(m) + Flags(n) == Flags(m + n)
  {
    if m > 0 {
      FlagsSum(m - 1, n);
      Assoc(FLAG_BITS, Flags(m - 1), Flags(n));
    } else {
      assert Flags(0) + Flags(n) == Flags(n);
    }
  }

  /** A transmission, laid out as the decoder sees it. */
  lemma TransmissionLine(run: nat, txdelay: nat, frames: seq<Frame>, max: nat, txtail: nat)
    requires txdelay > 0 && frames != [] && max > 0 && txtail > 0
    ensures Transmission(run, txdelay, frames, max, txtail)
         == Flags(txdelay) + Closed(Sent(frames, max)) + Flags((if max < |frames| then 1 else 0) + txtail - 1)
  {
    hide Body, Closed, Flags, Sent;
    var extra := if max < |frames| then 1 else 0;
    var head, body, tail := Flags(txdelay), Body(0, frames, max), Flags(txtail - 1);
    FlagsSum(1, txtail - 1);
    FlagsSum(extra, txtail - 1);
    OneFlag();
    BodyIsClosed(frames, max);
    assert head + body + (FLAG_BITS + tail) == head + (body + FLAG_BITS) + tail;
    assert head + (Closed(Sent(frames, max)) + Flags(extra)) + tail == head + Closed(Sent(frames, max)) + (Flags(extra) + tail);
  }

  /** However far a run of flags has come through, nothing is delivered by it. */
  lemma {:induction false} FlagsAreQuiet(past: nat -> bv16, st: Rx, n: nat, cut: nat)
    requires Between(st) && cut <= |Flags(n)|
    ensures Run(past, st, Flags(n)[..cut]).out == st.out
    decreases n
  {
    hide Step;
    if cut >= 8 {
      var rest := Flags(n - 1)[..cut - 8];
      assert Flags(n)[..cut] == FLAG_BITS + rest;
      FlagToken(past, st, rest);
      FlagSettles(past, st);
      FlagsAreQuiet(past, st.(phase := FrameSync), n - 1, cut - 8);
    }
  }

  /** The link, for a decoder between frames: as soon as the flag after the last frame has
      come through, it has delivered what `Deliver` says. `cut` is how far the line has
      come through; up to seven bits of the last flag stay in the encoder's register. */
  lemma LinkDelivers(past: nat -> bv16, st: Rx, run: nat, txdelay: nat, frames: seq<Frame>, max: nat, txtail: nat, cut: nat)
    requires Between(st) && txdelay > 0 && frames != [] && max > 0 && txtail > 0
    requires |Transmission(run, txdelay, frames, max, txtail)| - 8 * (txtail - 1) <= cut
    requires cut <= |Transmission(run, txdelay, frames, max, txtail)|
    ensures Run(past, st, Transmission(run, txdelay, frames, max, txtail)[..cut]).out
         == Deliver(past, st.(phase := FrameSync), Sent(frames, max)).out
  {
    hide Body, Closed, Flags, Sent, Run, Deliver, Transmission;
    TransmissionLine(run, txdelay, frames, max, txtail);
    var n := (if max < |frames| then 1 else 0) + txtail - 1;
    FlagsLength(n);
    var head, body := Flags(txdelay), Closed(Sent(frames, max));
    var end := cut - |head| - |body|;
    assert (head + body + Flags(n))[..cut] == head + (body + Flags(n)[..end]);
    FlagsDecode(past, st, txdelay, body + Flags(n)[..end]);
    ClosedDecodes(past, st.(phase := FrameSync), Sent(frames, max), Flags(n)[..end]);
    FlagsAreQuiet(past, Deliver(past, st.(phase := FrameSync), Sent(frames, max)), n, end);
  }

  lemma TwoFlagsFirst(junk: seq<bool>, all: seq<bool>, most: seq<bool>, body: seq<bool>, tail: seq<bool>, end: nat)
    requires all == FLAG_BITS + FLAG_BITS + most && end <= |tail|
    ensures junk + (all + body + tail)[..|all| + |body| + end] == junk + FLAG_BITS + FLAG_BITS + (most + (body + tail[..end]))
  {
    assert (all + body + tail)[..|all| + |body| + end] == all + body + tail[..end];
  }

  /** The link from any decoder state and after any junk, given two flags of preamble:
      whatever was delivered meanwhile, the transmission's frames come after it. */
  lemma LinkSynchronises(past: nat -> bv16, st: Rx, junk: seq<bool>, run: nat, txdelay: nat,
                         frames: seq<Frame>, max: nat, txtail: nat, cut: nat) returns (synced: Rx)
    requires txdelay >= 2 && frames != [] && max > 0 && txtail > 0
    requires |Transmission(run, txdelay, frames, max, txtail)| - 8 * (txtail - 1) <= cut
    requires cut <= |Transmission(run, txdelay, frames, max, txtail)|
    ensures synced.phase == FrameSync && Grew(st, synced)
    ensures Run(past, st, junk + Transmission(run, txdelay, frames, max, txtail)[..cut]).out
         == Deliver(past, synced, Sent(frames, max)).out
  {
    hide Body, Closed, Sent, Run, Deliver, Transmission;
    TransmissionLine(run, txdelay, frames, max, txtail);
    var n := (if max < |frames| then 1 else 0) + txtail - 1;
    FlagsLength(n);
    FlagsLength(txdelay);
    FlagsSum(2, txdelay - 2);
    OneFlag();
    FlagsSum(1, 1);
    var body := Closed(Sent(frames, max));
    var end := cut - 8 * txdelay - |body|;
    var rest := Flags(txdelay - 2) + (body + Flags(n)[..end]);
    TwoFlagsFirst(junk, Flags(txdelay), Flags(txdelay - 2), body, Flags(n), end);
    hide Flags;
    synced := TwoFlagsSynchronise(past, st, junk, rest);
    FlagsDecode(past, synced, txdelay - 2, body + Flags(n)[..end]);
    assert synced.(phase := FrameSync) == synced;
    ClosedDecodes(past, synced, Sent(frames, max), Flags(n)[..end]);
    FlagsAreQuiet(past, Deliver(past, synced, Sent(frames, max)), n, end);
  }
}
