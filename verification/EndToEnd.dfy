/** The whole chain: frames into the encoder of one station, onto the air as tones, out of
    the decoder of another. */
module EndToEnd {
  import opened Bits
  import opened HdlcFraming
  import opened HdlcDecoder
  import opened HdlcLink
  import opened HdlcDelivery
  import opened AfskTx
  import opened AfskRx

  function CountZeros(s: seq<bool>): nat {
    if s == [] then 0 else (if s[0] then 0 else 1) + CountZeros(s[1..])
  }

  lemma {:induction false} CountZerosConcat(a: seq<bool>, b: seq<bool>)
    ensures CountZeros(a + b) == CountZeros(a) + CountZeros(b)
  {
    if a == [] {
      assert a + b == b;
    } else {
      assert (a + b)[1..] == a[1..] + b;
      CountZerosConcat(a[1..], b);
    }
  }

  /** The tone changes once for every zero. */
  lemma {:induction false} ChangesAreZeros(level: bool, bits: seq<bool>)
    ensures Changes(level, Nrzi(level, bits)) == CountZeros(bits)
    decreases |bits|
  {
    if bits != [] {
      var next := if bits[0] then level else !level;
      assert Nrzi(level, bits)[1..] == Nrzi(next, bits[1..]);
      ChangesAreZeros(next, bits[1..]);
    }
  }

  /** The receiver's reading of the tone undoes the transmitter's coding. */
  lemma {:induction false} UnchangedReadsNrzi(level: bool, bits: seq<bool>)
    ensures Unchanged(level, Nrzi(level, bits)) == bits
    decreases |bits|
  {
    if bits != [] {
      var next := if bits[0] then level else !level;
      assert Nrzi(level, bits)[1..] == Nrzi(next, bits[1..]);
      UnchangedReadsNrzi(next, bits[1..]);
      assert bits == [bits[0]] + bits[1..];
    }
  }

  /** What a receiver in any state recovers from the tones of `head`, one more bit and
      `tail`, eight samples a bit, when `head` brings eight zeros: `tail`, after as many
      bits as came before it. It does not matter which tone it started from. */
  lemma PhysicalLayer(d: Sampler, tone: bool, head: seq<bool>, bit: bool, tail: seq<bool>)
    requires d.Valid() && CountZeros(head) >= 8
    ensures var r := Demodulate(d, HeldAll(Nrzi(tone, head + [bit] + tail))).1;
            |r| == |head| + 1 + |tail| && r[|head| + 1..] == tail
  {
    hide HeldAll, Demodulate, Unchanged, Changes;
    NrziConcat(tone, head + [bit], tail);
    NrziConcat(tone, head, [bit]);
    var levels := Nrzi(tone, head);
    var l1 := LastLevel(tone, head);
    var l2 := LastLevel(tone, head + [bit]);
    assert Nrzi(l1, [bit]) == [l2] by { OneLevel(l1, bit); }
    ChangesAreZeros(tone, head);
    assert head != [];
    ChangesFromFirst(tone, levels);
    LocksOn(d, levels, l2, Nrzi(l2, tail));
    UnchangedReadsNrzi(l2, tail);
  }

  /** A receiver that is locked recovers every bit; of the first it knows only whether the
      tone changed from what it heard last. */
  lemma LockedPhysicalLayer(d: Sampler, tone: bool, bits: seq<bool>)
    requires d.Valid() && d.phase <= 56 && d.newest == d.older == d.found && bits != []
    ensures Demodulate(d, HeldAll(Nrzi(tone, bits))).1 == [bits[0] == (tone == d.newest)] + bits[1..]
  {
    var next := if bits[0] then tone else !tone;
    var levels := Nrzi(tone, bits);
    assert levels[0] == next && levels[1..] == Nrzi(next, bits[1..]);
    UnchangedReadsNrzi(next, bits[1..]);
    hide HeldAll, Demodulate, Nrzi;
    LockedReads(d, levels);
  }

  lemma OneLevel(level: bool, bit: bool)
    ensures Nrzi(level, [bit]) == [LastLevel(level, [bit])]
  {
    assert [bit][1..] == [];
  }

  lemma ChangesFromFirst(level: bool, levels: seq<bool>)
    requires levels != []
    ensures Changes(levels[0], levels) >= Changes(level, levels) - 1
  {
  }

  lemma {:induction false} FlagZeros(n: nat)
    ensures CountZeros(Flags(n)) == 2 * n
  {
    if n > 0 {
      FlagZeros(n - 1);
      CountZerosConcat(FLAG_BITS, Flags(n - 1));
      OneFlagZeros();
    }
  }

  lemma OneFlagZeros()
    ensures CountZeros(FLAG_BITS) == 2
  {
    assert CountZeros([false]) == 1 && CountZeros([true, false]) == 1 && CountZeros([true, true, false]) == 1;
    assert CountZeros([true, true, true, true, false]) == 1;
    assert CountZeros([true, true, true, true, true, true, false]) == 1;
    assert FLAG_BITS == [false] + [true, true, true, true, true, true, false];
    CountZerosConcat([false], [true, true, true, true, true, true, false]);
  }

  /** A preamble can be cut anywhere between flags. */
  lemma PreambleSplits(run: nat, txdelay: nat, frames: seq<Frame>, max: nat, txtail: nat)
    requires txdelay > 5
    ensures Transmission(run, txdelay, frames, max, txtail)
         == Flags(4) + [false] + (SIX_ONES + Transmission(run, txdelay - 5, frames, max, txtail))
  {
    hide Body;
    FlagsSum(4, 1);
    FlagsSum(5, txdelay - 5);
    OneFlag();
    FlagSplits();
    Regrouped(Flags(4), [false], SIX_ONES, Flags(txdelay - 5), Body(0, frames, max), Flags(txtail));
    hide Flags;
  }

  lemma FlagSplits()
    ensures FLAG_BITS == [false] + SIX_ONES
  {
  }

  lemma Regrouped(a: seq<bool>, b: seq<bool>, c: seq<bool>, d: seq<bool>, e: seq<bool>, f: seq<bool>)
    ensures a + (b + c) + d + e + f == a + b + (c + (d + e + f))
  {
  }

  /** A transmission of queued frames, put on the air after `pending` bits left over from
      the one before, heard by a receiver whose phase, sample history, half-gathered octet,
      bit window and decoder state may be anything: its decoder delivers exactly what
      `Deliver` says of the frames sent. `air` is how many bits went out, `heard` how many of
      the recovered bits have reached the decoder in whole octets; `window` are the bits in
      its window, `before` those under way to it, and the first `swallowed` of what comes
      behind the window are read as ones, as up to two octets are when the receiver has
      just started. */
  lemma FramesCrossTheAir(past: nat -> bv16, st: Rx, window: seq<bool>, swallowed: nat, before: seq<bool>, d: Sampler, tone: bool,
                          pending: seq<bool>, run: nat, txdelay: nat, frames: seq<Frame>, max: nat, txtail: nat,
                          air: nat, heard: nat) returns (synced: Rx)
    requires d.Valid() && txdelay >= 7 && frames != [] && max > 0 && txtail > 0 && swallowed <= 16
    requires air <= |pending + Transmission(run, txdelay, frames, max, txtail)|
    requires heard <= |before| + air
    requires |before| + |pending + Transmission(run, txdelay, frames, max, txtail)| - 8 * (txtail - 1) <= heard
    ensures |Demodulate(d, HeldAll(Nrzi(tone, (pending + Transmission(run, txdelay, frames, max, txtail))[..air]))).1| == air
    ensures synced.phase == FrameSync && Grew(st, synced)
    ensures var line := (pending + Transmission(run, txdelay, frames, max, txtail))[..air];
            var bits := before + Demodulate(d, HeldAll(Nrzi(tone, line))).1;
            Run(past, st, window + Swallowed(bits[..heard], swallowed)).out == Deliver(past, synced, Sent(frames, max)).out
  {
    hide Swallowed, Body, Flags, Demodulate, HeldAll, Nrzi, Run, Deliver, Transmission, Sent, CountZeros;
    var short := Transmission(run, txdelay - 5, frames, max, txtail);
    var head := pending + Flags(4);
    AfterFourFlags(pending, run, txdelay, frames, max, txtail, air);
    var tail := (SIX_ONES + short)[..air - |head| - 1];
    PhysicalLayer(d, tone, head, false, tail);
    var r := Demodulate(d, HeldAll(Nrzi(tone, head + [false] + tail))).1;
    synced := DecoderHears(past, st, window, swallowed, before, r, |head| + 1, run, txdelay - 5, frames, max, txtail, heard);
  }

  /** The first four flags lock the receiver; what it gets of the fifth is all but its first bit. */
  lemma AfterFourFlags(pending: seq<bool>, run: nat, txdelay: nat, frames: seq<Frame>, max: nat, txtail: nat, air: nat)
    requires txdelay >= 7 && txtail > 0 && air <= |pending + Transmission(run, txdelay, frames, max, txtail)|
    requires |pending + Transmission(run, txdelay, frames, max, txtail)| - 8 * (txtail - 1) <= air
    ensures var head, rest := pending + Flags(4), SIX_ONES + Transmission(run, txdelay - 5, frames, max, txtail);
            && CountZeros(head) >= 8 && |head| == |pending| + 32 && |head| + 1 <= air <= |head| + 1 + |rest|
            && |Transmission(run, txdelay, frames, max, txtail)| == 33 + |rest|
            && (pending + Transmission(run, txdelay, frames, max, txtail))[..air] == head + [false] + rest[..air - |head| - 1]
  {
    hide Body, Flags, Transmission, CountZeros;
    PreambleSplits(run, txdelay, frames, max, txtail);
    FlagsLength(4);
    FlagZeros(4);
    CountZerosConcat(pending, Flags(4));
    TailIsLong(run, txdelay - 5, frames, max, txtail);
    OnTheAir(pending, Flags(4), [false], SIX_ONES + Transmission(run, txdelay - 5, frames, max, txtail), air);
  }

  /** What the decoder makes of recovered bits `r` that are, from place `k` on, the end of a
      flag and a transmission. */
  lemma DecoderHears(past: nat -> bv16, st: Rx, window: seq<bool>, swallowed: nat, before: seq<bool>, r: seq<bool>, k: nat,
                     run: nat, txdelay: nat, frames: seq<Frame>, max: nat, txtail: nat, heard: nat) returns (synced: Rx)
    requires txdelay >= 2 && frames != [] && max > 0 && txtail > 0 && 10 <= k <= |r| && swallowed <= 16
    requires |r| - k <= |SIX_ONES + Transmission(run, txdelay, frames, max, txtail)|
    requires r[k..] == (SIX_ONES + Transmission(run, txdelay, frames, max, txtail))[..|r| - k]
    requires heard <= |before + r|
    requires |before| + k + |SIX_ONES| + |Transmission(run, txdelay, frames, max, txtail)| - 8 * (txtail - 1) <= heard
    ensures synced.phase == FrameSync && Grew(st, synced)
    ensures Run(past, st, window + Swallowed((before + r)[..heard], swallowed)).out == Deliver(past, synced, Sent(frames, max)).out
  {
    hide Swallowed, Body, Flags, Run, Deliver, Transmission, Sent;
    var short := Transmission(run, txdelay, frames, max, txtail);
    TailIsLong(run, txdelay, frames, max, txtail);
    var junk := before + r[..k] + SIX_ONES;
    Heard(before, r, k, SIX_ONES, short, |r| - k, heard);
    SwallowsFront(window, junk, short[..heard - |junk|], swallowed);
    synced := LinkSynchronises(past, st, window + Swallowed(junk, swallowed), run, txdelay, frames, max, txtail, heard - |junk|);
  }

  lemma SwallowsFront(window: seq<bool>, junk: seq<bool>, rest: seq<bool>, n: nat)
    requires n <= |junk|
    ensures window + Swallowed(junk + rest, n) == window + Swallowed(junk, n) + rest
  {
    assert Swallowed(junk + rest, n) == Swallowed(junk, n) + rest;
  }

  lemma OnTheAir(a: seq<bool>, b: seq<bool>, c: seq<bool>, rest: seq<bool>, air: nat)
    requires |a + b + c| <= air <= |a + b + c + rest|
    ensures (a + (b + c + rest))[..air] == a + b + c + rest[..air - |a + b + c|]
  {
    assert a + (b + c + rest) == a + b + c + rest;
  }

  /** What is heard of the bits `r`, of which those from `k` on begin with `six`. */
  lemma Heard(before: seq<bool>, r: seq<bool>, k: nat, six: seq<bool>, short: seq<bool>, n: nat, heard: nat)
    requires k <= |r| && |six| <= n <= |six + short| && r[k..] == (six + short)[..n]
    requires |before| + k + |six| <= heard <= |before + r|
    ensures var junk := before + r[..k] + six;
            (before + r)[..heard] == junk + short[..heard - |junk|]
  {
    assert (six + short)[..n] == six + short[..n - |six|];
    assert before + r == before + r[..k] + six + short[..n - |six|];
  }

  lemma TailIsLong(run: nat, txdelay: nat, frames: seq<Frame>, max: nat, txtail: nat)
    ensures |Transmission(run, txdelay, frames, max, txtail)| >= 8 * txdelay + 8 * txtail
  {
    FlagsLength(txdelay);
    FlagsLength(txtail);
  }

  /** The same, for frames that all arrive: the decoder hands over exactly them, in order. */
  lemma AllFramesCrossTheAir(past: nat -> bv16, st: Rx, window: seq<bool>, swallowed: nat, before: seq<bool>, d: Sampler, tone: bool,
                             pending: seq<bool>, run: nat, txdelay: nat, frames: seq<Frame>, max: nat, txtail: nat,
                             air: nat, heard: nat) returns (synced: Rx)
    requires d.Valid() && txdelay >= 7 && 0 < |frames| <= max && txtail > 0 && swallowed <= 16
    requires air <= |pending + Transmission(run, txdelay, frames, max, txtail)|
    requires heard <= |before| + air
    requires |before| + |pending + Transmission(run, txdelay, frames, max, txtail)| - 8 * (txtail - 1) <= heard
    requires forall f :: f in frames ==> 17 <= |f| <= 253 && |f| % SLOT_SIZE != 0 && !Unclosed(f)
    ensures |Demodulate(d, HeldAll(Nrzi(tone, (pending + Transmission(run, txdelay, frames, max, txtail))[..air]))).1| == air
    ensures Grew(st, synced)
    ensures var line := (pending + Transmission(run, txdelay, frames, max, txtail))[..air];
            var bits := before + Demodulate(d, HeldAll(Nrzi(tone, line))).1;
            Run(past, st, window + Swallowed(bits[..heard], swallowed)).out == synced.out + frames
  {
    hide Body, Flags, Demodulate, HeldAll, Nrzi, Run, Deliver, Transmission, Unclosed, PassesCheck;
    synced := FramesCrossTheAir(past, st, window, swallowed, before, d, tone, pending, run, txdelay, frames, max, txtail, air, heard);
    forall i | 0 <= i < |frames| ensures Arrives(past(synced.checks + i), frames[i]) {
      assert frames[i] in frames;
      OrdinaryLength(past(synced.checks + i), frames[i]);
    }
    AllArriveIff(past, synced, frames);
  }

  lemma OneFlagFirst(run: nat, txdelay: nat, frames: seq<Frame>, max: nat, txtail: nat)
    requires txdelay > 1
    ensures Transmission(run, txdelay, frames, max, txtail) == FLAG_BITS + Transmission(run, txdelay - 1, frames, max, txtail)
  {
    hide Body;
    FlagsSum(1, txdelay - 1);
    OneFlag();
    hide Flags;
    Assoc(FLAG_BITS, Flags(txdelay - 1), Body(0, frames, max));
    Assoc(FLAG_BITS, Flags(txdelay - 1) + Body(0, frames, max), Flags(txtail));
  }

  /** A receiver that is locked already needs three flags only. */
  lemma LockedFramesCrossTheAir(past: nat -> bv16, st: Rx, window: seq<bool>, before: seq<bool>, d: Sampler, tone: bool,
                                pending: seq<bool>, run: nat, txdelay: nat, frames: seq<Frame>, max: nat, txtail: nat,
                                air: nat, heard: nat) returns (synced: Rx)
    requires d.Valid() && d.phase <= 56 && d.newest == d.older == d.found
    requires txdelay >= 3 && frames != [] && max > 0 && txtail > 0
    requires air <= |pending + Transmission(run, txdelay, frames, max, txtail)|
    requires heard <= |before| + air
    requires |before| + |pending + Transmission(run, txdelay, frames, max, txtail)| - 8 * (txtail - 1) <= heard
    ensures |Demodulate(d, HeldAll(Nrzi(tone, (pending + Transmission(run, txdelay, frames, max, txtail))[..air]))).1| == air
    ensures synced.phase == FrameSync && Grew(st, synced)
    ensures var line := (pending + Transmission(run, txdelay, frames, max, txtail))[..air];
            var bits := before + Demodulate(d, HeldAll(Nrzi(tone, line))).1;
            Run(past, st, window + bits[..heard]).out == Deliver(past, synced, Sent(frames, max)).out
  {
    hide Body, Flags, Demodulate, HeldAll, Nrzi, Run, Deliver, Transmission, Sent;
    var short := Transmission(run, txdelay - 1, frames, max, txtail);
    OneFlagFirst(run, txdelay, frames, max, txtail);
    TailIsLong(run, txdelay - 1, frames, max, txtail);
    var x := pending + FLAG_BITS;
    FirstPart(pending, FLAG_BITS, short, air);
    LockedPhysicalLayer(d, tone, x + short[..air - |x|]);
    var first := [x[0] == (tone == d.newest)] + x[1..];
    var junk := before + first;
    AfterJunk(before, x, short[..air - |x|], first[0], heard);
    assert short[..air - |x|][..heard - |junk|] == short[..heard - |junk|];
    Assoc(window, junk, short[..heard - |junk|]);
    synced := LinkSynchronises(past, st, window + junk, run, txdelay - 1, frames, max, txtail, heard - |junk|);
  }

  lemma FirstPart(a: seq<bool>, b: seq<bool>, c: seq<bool>, air: nat)
    requires |a + b| <= air <= |a + (b + c)|
    ensures (a + (b + c))[..air] == a + b + c[..air - |a + b|]
  {
    assert a + (b + c) == a + b + c;
  }

  lemma AfterJunk(before: seq<bool>, x: seq<bool>, y: seq<bool>, b: bool, heard: nat)
    requires x != [] && |before| + |x| <= heard <= |before| + |x| + |y|
    ensures (before + ([b] + (x + y)[1..]))[..heard] == before + ([b] + x[1..]) + y[..heard - |before| - |x|]
  {
    assert (x + y)[1..] == x[1..] + y;
  }
}
