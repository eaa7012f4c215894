/** Bit stuffing as a function on bit streams (section 3.6 of AX.25 v2.2), in the
    form the encoder implements it: the zero is inserted before the data bit that
    follows five ones, so never before a flag. */
module HdlcFraming {
  import opened Bits
  import Crc16

  const FLAG: bv8 := 0x7E
  const FLAG_BITS: seq<bool> := [false, true, true, true, true, true, true, false]

  lemma FlagBits()
    ensures OctetBits(FLAG) == FLAG_BITS
  {
  }

  /** The line bits of `data` when the last `run` line bits (at most five counted) were ones. */
  function StuffFrom(run: nat, data: seq<bool>): seq<bool>
    decreases |data|
  {
    if data == [] then []
    else if run >= 5 then [false, data[0]] + StuffFrom(NextRun(0, data[0]), data[1..])
    else [data[0]] + StuffFrom(NextRun(run, data[0]), data[1..])
  }

  function NextRun(run: nat, bit: bool): nat {
    if bit then run + 1 else 0
  }

  /** The number of ones the line ends with after `StuffFrom(run, data)`. */
  function RunAfter(run: nat, data: seq<bool>): nat
    decreases |data|
  {
    if data == [] then run
    else RunAfter(NextRun(if run >= 5 then 0 else run, data[0]), data[1..])
  }

  /** The first line bit: the stuffed zero after five ones, else the next data bit. */
  lemma StuffUnfolds(run: nat, data: seq<bool>)
    requires data != []
    ensures run >= 5 ==> StuffFrom(run, data) == [false] + StuffFrom(0, data) && RunAfter(run, data) == RunAfter(0, data)
    ensures run < 5 ==> StuffFrom(run, data) == [data[0]] + StuffFrom(NextRun(run, data[0]), data[1..])
                        && RunAfter(run, data) == RunAfter(NextRun(run, data[0]), data[1..])
  {
    var next := NextRun(if run >= 5 then 0 else run, data[0]);
    assert StuffFrom(0, data) == [data[0]] + StuffFrom(NextRun(0, data[0]), data[1..]);
    if run >= 5 {
      assert [false, data[0]] + StuffFrom(next, data[1..]) == [false] + ([data[0]] + StuffFrom(next, data[1..]));
    }
  }

  lemma {:induction false} StuffConcat(run: nat, a: seq<bool>, b: seq<bool>)
    ensures StuffFrom(run, a + b) == StuffFrom(run, a) + StuffFrom(RunAfter(run, a), b)
    ensures RunAfter(run, a + b) == RunAfter(RunAfter(run, a), b)
    decreases |a|
  {
    if a == [] {
      assert a + b == b;
    } else {
      assert (a + b)[1..] == a[1..] + b;
      StuffConcat(NextRun(if run >= 5 then 0 else run, a[0]), a[1..], b);
    }
  }

  lemma {:induction false} RunAtMostFive(run: nat, data: seq<bool>)
    requires run <= 5
    ensures RunAfter(run, data) <= 5
    decreases |data|
  {
    if data != [] {
      RunAtMostFive(NextRun(if run >= 5 then 0 else run, data[0]), data[1..]);
    }
  }

  // ---- No flag inside stuffed data -------------------------------------------

  /** The line from here on: the rest of the stuffed data, then whatever follows it. */
  function Line(run: nat, data: seq<bool>, rest: seq<bool>): seq<bool> {
    StuffFrom(run, data) + rest
  }

  lemma LineUnfolds(run: nat, data: seq<bool>, rest: seq<bool>)
    requires data != []
    ensures run >= 5 ==> Line(run, data, rest) == [false] + Line(0, data, rest)
    ensures run < 5 ==> Line(run, data, rest) == [data[0]] + Line(NextRun(run, data[0]), data[1..], rest)
  {
    StuffUnfolds(run, data);
  }

  /** At most five ones in a row can start the rest of a stuffed frame. */
  lemma {:induction false} ZeroSoon(run: nat, data: seq<bool>, rest: seq<bool>) returns (i: nat)
    requires run <= 5 && rest != [] && !rest[0]
    ensures i <= 5 - run && i < |Line(run, data, rest)| && !Line(run, data, rest)[i]
    decreases |data|
  {
    i := 0;
    if data != [] {
      LineUnfolds(run, data, rest);
      if run < 5 && data[0] {
        var j := ZeroSoon(run + 1, data[1..], rest);
        i := j + 1;
      }
    }
  }

  predicate FlagAt(s: seq<bool>, i: nat) {
    i + 8 <= |s| && s[i..i + 8] == FLAG_BITS
  }

  lemma FlagAtCons(x: bool, s: seq<bool>, i: nat)
    ensures FlagAt([x] + s, i + 1) <==> FlagAt(s, i)
  {
    if i + 8 <= |s| {
      assert ([x] + s)[i + 1..i + 9] == s[i..i + 8];
    }
  }

  lemma NotFlag(x: bool, s: seq<bool>, i: nat)
    requires x || (i <= 5 && i < |s| && !s[i])
    ensures !FlagAt([x] + s, 0)
  {
    var t := [x] + s;
    if |t| >= 8 {
      var u := t[0..8];
      assert u[0] == x;
      if !x { assert u[i + 1] == s[i]; }
    }
  }

  /** No flag starts at the first line bit of unsent data. */
  lemma NoFlagFirst(run: nat, data: seq<bool>, rest: seq<bool>)
    requires run <= 5 && data != [] && rest != [] && !rest[0]
    ensures !FlagAt(Line(run, data, rest), 0)
  {
    LineUnfolds(run, data, rest);
    if run >= 5 {
      var i := ZeroSoon(0, data, rest);
      NotFlag(false, Line(0, data, rest), i);
    } else {
      var i := ZeroSoon(NextRun(run, data[0]), data[1..], rest);
      NotFlag(data[0], Line(NextRun(run, data[0]), data[1..], rest), i);
    }
  }

  /** Transparency: no flag starts anywhere inside stuffed data, not even one that
      borrows bits from the closing flag or from what comes after it. */
  lemma {:induction false} NoFlagInside(run: nat, data: seq<bool>, rest: seq<bool>, i: nat)
    requires run <= 5 && i < |StuffFrom(run, data)| && rest != [] && !rest[0]
    ensures !FlagAt(StuffFrom(run, data) + rest, i)
    decreases |data|, run
  {
    LineUnfolds(run, data, rest);
    if i == 0 {
      NoFlagFirst(run, data, rest);
    } else if run >= 5 {
      assert |StuffFrom(run, data)| == 1 + |StuffFrom(0, data)|;
      FlagAtCons(false, Line(0, data, rest), i - 1);
      NoFlagInside(0, data, rest, i - 1);
    } else {
      FlagAtCons(data[0], Line(NextRun(run, data[0]), data[1..], rest), i - 1);
      NoFlagInside(NextRun(run, data[0]), data[1..], rest, i - 1);
    }
  }

  // ---- Transmissions -----------------------------------------------------------

  type Frame = seq<bv8>

  /** A frame's line data: its octets and its FCS. */
  function FrameBits(f: Frame): seq<bool> { BitsOf(f + Crc16.Fcs(f)) }

  function Flags(n: nat): seq<bool> {
    if n == 0 then [] else FLAG_BITS + Flags(n - 1)
  }

  /** The frames of one transmission, at most `max` of `frames`, with a flag after each
      one that is not the last available. The first starts after `run` ones. */
  function Body(run: nat, frames: seq<Frame>, max: nat): seq<bool>
    decreases max
  {
    if max == 0 || frames == [] then []
    else if |frames| == 1 then StuffFrom(run, FrameBits(frames[0]))
    else StuffFrom(run, FrameBits(frames[0])) + FLAG_BITS + Body(0, frames[1..], max - 1)
  }

  function Transmission(run: nat, txdelay: nat, frames: seq<Frame>, max: nat, txtail: nat): seq<bool> {
    Flags(txdelay) + Body(if txdelay == 0 then run else 0, frames, max) + Flags(txtail)
  }

  lemma OneFlag()
    ensures Flags(1) == FLAG_BITS
  {
    assert Flags(0) == [];
  }

  lemma {:induction false} FlagsSnoc(n: nat)
    ensures Flags(n + 1) == Flags(n) + FLAG_BITS
  {
    if n > 0 {
      FlagsSnoc(n - 1);
      Assoc(FLAG_BITS, Flags(n - 1), FLAG_BITS);
    }
  }
}
