/** Exactly which frames of a transmission arrive. */
module HdlcDelivery {
  import opened Bits
  import opened HdlcFraming
  import opened HdlcDecoder
  import opened HdlcLink
  import Crc16

  function TrailingOnes(s: seq<bool>): nat {
    if s == [] || !s[|s| - 1] then 0 else 1 + TrailingOnes(s[..|s| - 1])
  }

  /** The run of ones on the line, from the run of ones in the data: every fifth is followed by a zero. */
  lemma {:induction false} RunLaw(s: seq<bool>)
    ensures RunAfter(0, s) == if TrailingOnes(s) == 0 then 0 else (TrailingOnes(s) - 1) % 5 + 1
    decreases |s|
  {
    if s != [] {
      var n := |s| - 1;
      RunLaw(s[..n]);
      assert s == s[..n] + [s[n]];
      StuffConcat(0, s[..n], [s[n]]);
      var r := RunAfter(0, s[..n]);
      assert RunAfter(r, [s[n]]) == NextRun(if r >= 5 then 0 else r, s[n]);
    }
  }

  /** The frame ends in ones in such a way that a zero would have to be stuffed after
      them, which the encoder does not do before a flag. */
  predicate Unclosed(f: Frame) {
    var n := TrailingOnes(FrameBits(f));
    n > 0 && n % 5 == 0
  }

  lemma UnclosedIsRunOfFive(f: Frame)
    ensures Unclosed(f) <==> RunAfter(0, FrameBits(f)) == 5
  {
    hide FrameBits;
    RunLaw(FrameBits(f));
  }

  /** The frame passes the decoder's length limits and its FCS comparison. */
  predicate PassesCheck(past: bv16, f: Frame) {
    |f| + 2 <= MAX_FRAME_SIZE + 1 && Accepts(past, f + Crc16.Fcs(f))
  }

  predicate Arrives(past: bv16, f: Frame) {
    !Unclosed(f) && PassesCheck(past, f)
  }

  /** The comparison on a sent frame of ordinary length fails only by running past a full slot. */
  lemma OrdinaryLength(past: bv16, f: Frame)
    requires 17 <= |f| <= 253
    ensures PassesCheck(past, f) <==> |f| % SLOT_SIZE != 0 || past == Crc16.Crc(f)
  {
    hide Crc16.Crc, Crc16.Fcs;
    var s := f + Crc16.Fcs(f);
    assert CheckedLength(|s|) == |f| && s[..|f|] == f;
    Crc16.FcsIsReceived(f);
  }

  /** A longer frame is checked over a prefix only: the length is cut to eight bits. */
  lemma LongFrame(past: bv16, f: Frame)
    requires 254 <= |f| <= 288
    ensures var s, n := f + Crc16.Fcs(f), if |f| <= 256 then 0 else |f| - 256;
            PassesCheck(past, f) <==> Crc16.Crc(f[..n]) == if n == 32 then past else Crc16.Received(s[n], s[n + 1])
  {
    hide Crc16.Crc, Crc16.Fcs, Crc16.Received;
    var s := f + Crc16.Fcs(f);
    var n := if |f| <= 256 then 0 else |f| - 256;
    assert CheckedLength(|s|) == n && s[..n] == f[..n];
  }

  /** Too short to be an AX.25 frame, or too long for the decoder: never delivered. */
  lemma BadLength(past: bv16, f: Frame)
    requires |f| < 17 || |f| > 288
    ensures !PassesCheck(past, f)
  {
  }

  /** One frame, from a decoder at the start of a frame. */
  lemma FrameFate(past: nat -> bv16, checks: nat, out: seq<Frame>, f: Frame)
    ensures var st := AfterFrame(past, checks, out, FrameBits(f));
            && st.out == (if Arrives(past(checks), f) then out + [f] else out)
            && (Arrives(past(checks), f) ==> st.checks == checks + 1 && st.phase == FrameSync)
  {
    hide FrameBits, OctetsOf, Unclosed, CrcMatch;
    UnclosedIsRunOfFive(f);
    FrameBitsLength(f);
    var s := f + Crc16.Fcs(f);
    assert s[..|s| - 2] == f;
  }

  /** What any bits at all come to, sent as a frame: only whole octets, 19 to 290 of them, are
      checked, and a run of five ones at the end makes the decoder miss the flag. */
  lemma AnyBits(past: nat -> bv16, st: Rx, bits: seq<bool>, rest: seq<bool>) returns (after: Rx)
    requires st.phase == FrameSync && bits != []
    ensures Run(past, st, StuffFrom(0, bits) + FLAG_BITS + rest) == Run(past, after, rest)
    ensures after.phase == if |bits| <= 2320 && TrailingOnes(bits) > 0 && TrailingOnes(bits) % 5 == 0 then FlagSync else FrameSync
    ensures |bits| % 8 != 0 || |bits| < 152 || |bits| > 2320 || after.phase == FlagSync ==>
              after.out == st.out && after.checks == st.checks
    ensures |bits| % 8 == 0 && 152 <= |bits| <= 2320 && after.phase == FrameSync ==>
              && after.checks == st.checks + 1
              && after.out == if CrcMatch(past(st.checks), OctetsOf(bits)) then st.out + [OctetsOf(bits)[..|bits| / 8 - 2]] else st.out
  {
    hide OctetsOf, CrcMatch, StuffFrom, Run, RunAfter, TrailingOnes;
    RunLaw(bits);
    FrameDecodes(past, st, bits, rest);
    after := AfterFrame(past, st.checks, st.out, bits);
  }

  /** A frame that was broken off or has lost bits does not take the next one along: with one
      flag between them the next is delivered, if and only if it would be, and the broken one
      did not end in five ones. */
  lemma NextFrameSurvives(past: nat -> bv16, st: Rx, f: Frame, rest: seq<bool>) returns (after: Rx)
    ensures var st1 := Step(past, st, Flag);
            && Grew(st, st1)
            && Run(past, st, FLAG_BITS + (StuffFrom(0, FrameBits(f)) + FLAG_BITS + rest)) == Run(past, after, rest)
            && (after.out == st1.out + [f] <==> Arrives(past(st1.checks), f) && !FiveOnes(st))
            && (after.out == st1.out + [f] || after.out == st1.out)
  {
    hide FrameBits, Run, StuffFrom, Step, Arrives, AfterFrame;
    var st1 := Step(past, st, Flag);
    FlagLaw(past, st);
    FrameBitsLength(f);
    OneFlagIsEnough(past, st, FrameBits(f), rest);
    FrameFate(past, st1.checks, st1.out, f);
    after := if FiveOnes(st) then st.(phase := FrameSync) else AfterFrame(past, st1.checks, st1.out, FrameBits(f));
  }

  lemma {:induction false} DeliversAtMost(past: nat -> bv16, st: Rx, frames: seq<Frame>)
    ensures |Deliver(past, st, frames).out| <= |st.out| + |frames|
    decreases |frames|
  {
    hide FrameBits, AfterFrame, Arrives;
    if frames != [] {
      var st1 := if st.phase == FrameSync then AfterFrame(past, st.checks, st.out, FrameBits(frames[0]))
                 else st.(phase := FrameSync);
      FrameFate(past, st.checks, st.out, frames[0]);
      DeliversAtMost(past, st1, frames[1..]);
    }
  }

  /** The frames arrive exactly, in order, if and only if each of them arrives. */
  lemma {:induction false} AllArriveIff(past: nat -> bv16, st: Rx, frames: seq<Frame>)
    requires st.phase == FrameSync
    ensures Deliver(past, st, frames).out == st.out + frames
       <==> forall i :: 0 <= i < |frames| ==> Arrives(past(st.checks + i), frames[i])
    decreases |frames|
  {
    hide FrameBits, AfterFrame, Arrives;
    if frames == [] {
      assert st.out + frames == st.out;
    } else {
      var st1 := AfterFrame(past, st.checks, st.out, FrameBits(frames[0]));
      FrameFate(past, st.checks, st.out, frames[0]);
      if Arrives(past(st.checks), frames[0]) {
        AllArriveIff(past, st1, frames[1..]);
        assert st.out + frames == (st.out + [frames[0]]) + frames[1..];
        assert forall i :: 0 < i < |frames| ==> frames[i] == frames[1..][i - 1];
      } else {
        DeliversAtMost(past, st1, frames[1..]);
      }
    }
  }

  /** A frame sent without its last zero is lost, and takes the frame after it along. */
  lemma UnclosedTakesTheNext(past: nat -> bv16, st: Rx, frames: seq<Frame>)
    requires st.phase == FrameSync && |frames| >= 2 && Unclosed(frames[0]) && |frames[0]| <= 288
    ensures Deliver(past, st, frames) == Deliver(past, st, frames[2..])
  {
    hide FrameBits, Unclosed;
    UnclosedIsRunOfFive(frames[0]);
    FrameBitsLength(frames[0]);
    var lost := AfterFrame(past, st.checks, st.out, FrameBits(frames[0]));
    assert lost == st.(phase := FlagSync);
    assert frames[1..][1..] == frames[2..];
    assert Deliver(past, lost, frames[1..]) == Deliver(past, lost.(phase := FrameSync), frames[1..][1..]);
  }

  // ---- Tone toggles -----------------------------------------------------------------

  /** With `run` ones before, no seven ones follow one another. */
  predicate RunsOk(run: nat, s: seq<bool>)
    decreases |s|
  {
    s == [] || (if s[0] then run < 6 && RunsOk(run + 1, s[1..]) else RunsOk(0, s[1..]))
  }

  lemma {:induction false} RunsOkMeaning(run: nat, s: seq<bool>, i: nat)
    requires RunsOk(run, s) && run <= 6 && i + 7 <= |s|
    ensures exists j :: i <= j < i + 7 && !s[j]
    decreases |s|, i
  {
    if i == 0 {
      var j := ZeroBefore(run, s);
      assert !s[j];
    } else {
      RunsOkMeaning(if s[0] then run + 1 else 0, s[1..], i - 1);
      var j :| i - 1 <= j < i + 6 && !s[1..][j];
      assert !s[j + 1];
    }
  }

  lemma {:induction false} ZeroBefore(run: nat, s: seq<bool>) returns (j: nat)
    requires RunsOk(run, s) && |s| >= 7 - run && run <= 6
    ensures j <= 6 - run && j < |s| && !s[j]
    decreases 6 - run
  {
    j := 0;
    if s[0] {
      var k := ZeroBefore(run + 1, s[1..]);
      j := k + 1;
    }
  }

  lemma {:induction false} StuffedRunsOk(run: nat, data: seq<bool>, rest: seq<bool>)
    requires run <= 5 && RunsOk(RunAfter(run, data), rest)
    ensures RunsOk(run, Line(run, data, rest))
    decreases |data|, run
  {
    hide StuffFrom, RunAfter;
    if data == [] {
      NoData(run, rest);
      NoRun(run);
    } else {
      StuffUnfolds(run, data);
      LineUnfolds(run, data, rest);
      if run == 5 {
        StuffedRunsOk(0, data, rest);
      } else {
        StuffedRunsOk(NextRun(run, data[0]), data[1..], rest);
      }
    }
  }

  lemma NoRun(run: nat)
    ensures RunAfter(run, []) == run
  {
  }

  lemma FlagRunsOk(run: nat, rest: seq<bool>)
    requires RunsOk(0, rest)
    ensures RunsOk(run, FLAG_BITS + rest)
  {
    var s := FLAG_BITS + rest;
    assert s[8..] == rest;
    assert RunsOk(0, s[8..]);
    assert s[7..][1..] == s[8..] && RunsOk(6, s[7..]);
    assert s[6..][1..] == s[7..] && RunsOk(5, s[6..]);
    assert s[5..][1..] == s[6..] && RunsOk(4, s[5..]);
    assert s[4..][1..] == s[5..] && RunsOk(3, s[4..]);
    assert s[3..][1..] == s[4..] && RunsOk(2, s[3..]);
    assert s[2..][1..] == s[3..] && RunsOk(1, s[2..]);
    assert s[1..][1..] == s[2..] && RunsOk(0, s[1..]);
  }

  lemma {:induction false} FlagsRunsOk(run: nat, n: nat, rest: seq<bool>)
    requires RunsOk(if n == 0 then run else 0, rest)
    ensures RunsOk(run, Flags(n) + rest)
    decreases n
  {
    hide RunsOk;
    if n == 0 {
      assert Flags(0) + rest == rest;
    } else {
      Assoc(FLAG_BITS, Flags(n - 1), rest);
      FlagsRunsOk(0, n - 1, rest);
      FlagRunsOk(run, Flags(n - 1) + rest);
    }
  }

  lemma {:induction false} BodyRunsOk(run: nat, frames: seq<Frame>, max: nat, rest: seq<bool>)
    requires run <= 5 && forall r :: r <= 5 ==> RunsOk(r, rest)
    ensures RunsOk(run, Body(run, frames, max) + rest)
    decreases max
  {
    hide RunsOk, StuffFrom, FrameBits;
    if max == 0 || frames == [] {
      assert Body(run, frames, max) + rest == rest;
    } else {
      var data := FrameBits(frames[0]);
      RunAtMostFive(run, data);
      if |frames| == 1 {
        StuffedRunsOk(run, data, rest);
      } else {
        var tail := Body(0, frames[1..], max - 1) + rest;
        BodyRunsOk(0, frames[1..], max - 1, rest);
        FlagRunsOk(RunAfter(run, data), tail);
        StuffedRunsOk(run, data, FLAG_BITS + tail);
        assert StuffFrom(run, data) + FLAG_BITS + Body(0, frames[1..], max - 1) + rest
            == StuffFrom(run, data) + (FLAG_BITS + tail);
      }
    }
  }

  /** In a whole transmission no seven bits in a row are ones, so the tone, which toggles
      on every zero, never stays the same for more than seven bit times. */
  lemma TogglesOften(run: nat, txdelay: nat, frames: seq<Frame>, max: nat, txtail: nat, i: nat)
    requires run <= 5 && i + 7 <= |Transmission(run, txdelay, frames, max, txtail)|
    ensures exists j :: i <= j < i + 7 && !Transmission(run, txdelay, frames, max, txtail)[j]
  {
    hide RunsOk, Body, Flags;
    var r := if txdelay == 0 then run else 0;
    assert Flags(txtail) + [] == Flags(txtail);
    forall q: nat | q <= 5 ensures RunsOk(q, Flags(txtail)) {
      EmptyRunsOk(if txtail == 0 then q else 0);
      FlagsRunsOk(q, txtail, []);
    }
    BodyRunsOk(r, frames, max, Flags(txtail));
    FlagsRunsOk(run, txdelay, Body(r, frames, max) + Flags(txtail));
    Assoc(Flags(txdelay), Body(r, frames, max), Flags(txtail));
    RunsOkMeaning(run, Transmission(run, txdelay, frames, max, txtail), i);
  }

  lemma EmptyRunsOk(run: nat)
    ensures RunsOk(run, [])
  {
  }
}
