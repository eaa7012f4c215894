/** Bit clock recovery and NRZI decoding, from the comparator's sample on, and the
    packing of recovered bits into octets. */
module AfskRx {
  import opened Bits

  const PHASE_BITS: int := 8
  const PHASE_INC: int := 1
  const PHASE_MAX: int := 64         // eight samples a bit, PHASE_BITS each
  const PHASE_THRESHOLD: int := 32   // PHASE_MAX / 2
  const QUEUE_SIZE: nat := 128       // AFSK_RX_QUEUE_SIZE

  // ---- The sampler as a function ---------------------------------------------------

  /** The last two samples, newest first, the phase, and the last bit value found. */
  datatype Sampler = Sampler(newest: bool, older: bool, phase: int, found: bool) {
    predicate Valid() { 0 <= phase < PHASE_MAX }
  }

  datatype Emit = Nothing | Recovered(bit: bool)

  function Majority(a: bool, b: bool, c: bool): bool {
    (a && b) || (a && c) || (b && c)
  }

  /** The phase after the nudge a transition gives it. */
  function Nudge(phase: int, transition: bool): int {
    if !transition then phase else if phase < PHASE_THRESHOLD then phase + PHASE_INC else phase - PHASE_INC
  }

  function Sample(d: Sampler, s: bool): (r: (Sampler, Emit))
    requires d.Valid()
    ensures r.0.Valid()
  {
    var phase := Nudge(d.phase, s != d.newest) + PHASE_BITS;
    if phase >= PHASE_MAX then
      var value := Majority(s, d.newest, d.older);
      (Sampler(s, d.newest, phase % PHASE_MAX, value), Recovered(value == d.found))
    else
      (Sampler(s, d.newest, phase, d.found), Nothing)
  }

  /** The sampler after a run of samples, and the bits it recovered on the way. */
  function Demodulate(d: Sampler, samples: seq<bool>): (r: (Sampler, seq<bool>))
    requires d.Valid()
    ensures r.0.Valid()
    decreases |samples|
  {
    if samples == [] then (d, [])
    else
      var (d1, e) := Sample(d, samples[0]);
      var (d2, bits) := Demodulate(d1, samples[1..]);
      (d2, (match e case Nothing => [] case Recovered(b) => [b]) + bits)
  }

  lemma DemodulateCons(d: Sampler, s: seq<bool>)
    requires d.Valid() && s != []
    ensures var (d1, e), r := Sample(d, s[0]), Demodulate(Sample(d, s[0]).0, s[1..]);
            && Demodulate(d, s).0 == r.0
            && Demodulate(d, s).1 == (if e.Recovered? then [e.bit] + r.1 else r.1)
            && (r.1 == [] ==> Demodulate(d, s).1 == if e.Recovered? then [e.bit] else [])
  {
    hide Sample;
  }

  lemma {:induction false} DemodulateConcat(d: Sampler, a: seq<bool>, b: seq<bool>)
    requires d.Valid()
    ensures Demodulate(d, a + b).0 == Demodulate(Demodulate(d, a).0, b).0
    ensures Demodulate(d, a + b).1 == Demodulate(d, a).1 + Demodulate(Demodulate(d, a).0, b).1
    decreases |a|
  {
    if a == [] {
      assert a + b == b;
    } else {
      assert (a + b)[1..] == a[1..] + b;
      DemodulateConcat(Sample(d, a[0]).0, a[1..], b);
    }
  }

  // ---- Any input: the clock stays near eight samples a bit ---------------------------

  /** The phases possible `k` samples after a recovered bit. */
  predicate Within(k: nat, phase: int) {
    match k
    case 0 => 0 <= phase <= 7
    case 1 => 8 <= phase <= 16
    case 2 => 16 <= phase <= 25
    case 3 => 24 <= phase <= 34
    case 4 => 32 <= phase <= 42
    case 5 => 39 <= phase <= 50
    case 6 => 46 <= phase <= 58
    case 7 => 53 <= phase <= 63
    case _ => k == 8 && 60 <= phase <= 63
  }

  lemma Drift(d: Sampler, k: nat, s: bool)
    requires d.Valid() && Within(k, d.phase)
    ensures Sample(d, s).1.Nothing? ==> Within(k + 1, Sample(d, s).0.phase)
    ensures Sample(d, s).1.Recovered? ==> 7 <= k + 1 <= 9 && Within(0, Sample(d, s).0.phase)
  {
  }

  /** Whatever the input, a bit comes seven, eight or nine samples after the one before,
      and leaves the phase where the same holds for the next. */
  lemma {:induction false} SevenToNine(d: Sampler, k: nat, s: seq<bool>) returns (n: nat)
    requires d.Valid() && Within(k, d.phase) && k + |s| == 9
    ensures 0 < n <= |s| && 7 <= k + n <= 9
    ensures Demodulate(d, s[..n - 1]).1 == [] && |Demodulate(d, s[..n]).1| == 1
    ensures Within(0, Demodulate(d, s[..n]).0.phase)
    decreases |s|
  {
    hide Sample;
    Drift(d, k, s[0]);
    var (d1, e) := Sample(d, s[0]);
    if e.Recovered? {
      n := 1;
      assert s[..1][0] == s[0] && s[..1][1..] == [] && s[..0] == [];
    } else {
      var m := SevenToNine(d1, k + 1, s[1..]);
      n := m + 1;
      assert s[..n][1..] == s[1..][..m] && s[..n][0] == s[0];
      assert m > 1 ==> s[..n - 1][1..] == s[1..][..m - 1];
    }
  }

  // ---- Ideal input: eight samples a bit ------------------------------------------------

  /** A level held for `n` samples. */
  function Held(n: nat, level: bool): seq<bool> { seq(n, _ => level) }

  lemma HeldCons(n: nat, level: bool)
    requires n > 0
    ensures Held(n, level) != [] && Held(n, level)[0] == level && Held(n, level)[1..] == Held(n - 1, level)
  {
  }

  lemma SameSample(d: Sampler)
    requires d.Valid()
    ensures var phase := d.phase + PHASE_BITS;
            Sample(d, d.newest) ==
            if phase < PHASE_MAX then (Sampler(d.newest, d.newest, phase, d.found), Nothing)
            else (Sampler(d.newest, d.newest, phase - PHASE_MAX, d.newest), Recovered(d.newest == d.found))
  {
  }

  /** Samples that bring no transition: at most one bit, of the level's own value. */
  lemma {:induction false} Steady(d: Sampler, n: nat)
    requires d.Valid() && d.phase + 8 * n < 2 * PHASE_MAX
    ensures var r := Demodulate(d, Held(n, d.newest));
            var older := if n == 0 then d.older else d.newest;
            r == if d.phase + 8 * n < PHASE_MAX then (Sampler(d.newest, older, d.phase + 8 * n, d.found), [])
                 else (Sampler(d.newest, older, d.phase + 8 * n - PHASE_MAX, d.newest), [d.newest == d.found])
    decreases n
  {
    if n > 0 {
      HeldCons(n, d.newest);
      SameSample(d);
      hide Held, Sample, Demodulate;
      var d1 := Sample(d, d.newest).0;
      Steady(d1, n - 1);
      DemodulateCons(d, Held(n, d.newest));
    }
  }

  /** The value found for a bit held at `level`. */
  function ValueFound(d: Sampler, level: bool): bool {
    if Nudge(d.phase, level != d.newest) >= PHASE_MAX - PHASE_BITS then Majority(level, d.newest, d.older) else level
  }

  /** The sampler after a bit time. */
  function AfterBit(d: Sampler, level: bool): (r: Sampler)
    requires d.Valid()
    ensures r.Valid()
  {
    Sampler(level, level, Nudge(d.phase, level != d.newest), ValueFound(d, level))
  }

  /** A level held for a bit time gives exactly one bit, whatever the phase. */
  lemma OneBit(d: Sampler, level: bool)
    requires d.Valid()
    ensures Demodulate(d, Held(8, level)) == (AfterBit(d, level), [ValueFound(d, level) == d.found])
  {
    if Nudge(d.phase, level != d.newest) + PHASE_BITS < PHASE_MAX { BitInRest(d, level); } else { BitAtOnce(d, level); }
    hide *;
  }

  /** The bit comes with one of the last seven samples. */
  lemma BitInRest(d: Sampler, level: bool)
    requires d.Valid() && Nudge(d.phase, level != d.newest) + PHASE_BITS < PHASE_MAX
    ensures Demodulate(d, Held(8, level)) == (AfterBit(d, level), [ValueFound(d, level) == d.found])
  {
    hide Held, Sample, Demodulate, ValueFound, Nudge;
    HeldCons(8, level);
    FirstSample(d, level);
    var phase := Nudge(d.phase, level != d.newest);
    var d1 := Sampler(level, d.newest, phase + PHASE_BITS, d.found);
    RestOfBit(d1, phase);
    DemodulateFirst(d, Held(8, level), d1, Nothing, Demodulate(d1, Held(7, level)));
  }

  /** The bit comes with the first sample. */
  lemma BitAtOnce(d: Sampler, level: bool)
    requires d.Valid() && Nudge(d.phase, level != d.newest) + PHASE_BITS >= PHASE_MAX
    ensures Demodulate(d, Held(8, level)) == (AfterBit(d, level), [ValueFound(d, level) == d.found])
  {
    hide Held, Sample, Demodulate, ValueFound, Nudge;
    HeldCons(8, level);
    FirstSample(d, level);
    var phase, v := Nudge(d.phase, level != d.newest), ValueFound(d, level);
    var d1 := Sampler(level, d.newest, phase + PHASE_BITS - PHASE_MAX, v);
    RestOfBit(d1, phase);
    DemodulateFirst(d, Held(8, level), d1, Recovered(v == d.found), Demodulate(d1, Held(7, level)));
  }

  /** The other seven samples. */
  lemma RestOfBit(d: Sampler, phase: int)
    requires d.Valid() && (d.phase == phase + PHASE_BITS || d.phase + PHASE_MAX == phase + PHASE_BITS)
    requires 0 <= phase < PHASE_MAX
    ensures Demodulate(d, Held(7, d.newest)) ==
            if d.phase == phase + PHASE_BITS then (Sampler(d.newest, d.newest, phase, d.newest), [d.newest == d.found])
            else (Sampler(d.newest, d.newest, phase, d.found), [])
  {
    hide Held, Demodulate;
    Steady(d, 7);
  }

  lemma DemodulateFirst(d: Sampler, s: seq<bool>, d1: Sampler, e: Emit, r: (Sampler, seq<bool>))
    requires d.Valid() && s != [] && Sample(d, s[0]) == (d1, e) && Demodulate(d1, s[1..]) == r
    ensures e.Nothing? ==> Demodulate(d, s) == r
    ensures e.Recovered? && r.1 == [] ==> Demodulate(d, s) == (r.0, [e.bit])
  {
    hide Sample;
    assert [] + r.1 == r.1;
    if e.Recovered? { assert [e.bit] + [] == [e.bit]; }
  }

  /** The first sample of a bit time. */
  lemma FirstSample(d: Sampler, level: bool)
    requires d.Valid()
    ensures var phase := Nudge(d.phase, level != d.newest) + PHASE_BITS;
            && PHASE_BITS <= phase < PHASE_MAX + PHASE_BITS && (phase < PHASE_MAX ==> ValueFound(d, level) == level)
            && Sample(d, level) ==
               if phase < PHASE_MAX then (Sampler(level, d.newest, phase, d.found), Nothing)
               else (Sampler(level, d.newest, phase - PHASE_MAX, ValueFound(d, level)), Recovered(ValueFound(d, level) == d.found))
  {
  }

  /** The value is right exactly unless a transition comes when the window is about to close. */
  lemma RightValueIff(d: Sampler, level: bool)
    requires d.Valid() && d.newest == d.older
    ensures ValueFound(d, level) == level <==> d.phase <= 56 || level == d.newest
  {
  }

  // ---- Locking -----------------------------------------------------------------------

  /** Steps from the phase to the nearer of 31 and 32. */
  function Distance(phase: int): int {
    if phase < PHASE_THRESHOLD then PHASE_THRESHOLD - 1 - phase else phase - PHASE_THRESHOLD
  }

  /** Each transition moves the phase one step closer, and then it stays in 31..32. */
  lemma TransitionLocks(phase: int)
    requires 0 <= phase < PHASE_MAX
    ensures Distance(Nudge(phase, true)) == if Distance(phase) == 0 then 0 else Distance(phase) - 1
  {
  }

  /** The phase after `n` transitions. */
  function NudgeTimes(phase: int, n: nat): int
    decreases n
  {
    if n == 0 then phase else NudgeTimes(Nudge(phase, true), n - 1)
  }

  lemma {:induction false} LockedAfter(phase: int, n: nat)
    requires 0 <= phase < PHASE_MAX
    ensures 0 <= NudgeTimes(phase, n) < PHASE_MAX
    ensures Distance(NudgeTimes(phase, n)) == if Distance(phase) <= n then 0 else Distance(phase) - n
    decreases n
  {
    if n > 0 {
      TransitionLocks(phase);
      LockedAfter(Nudge(phase, true), n - 1);
    }
  }

  /** From any phase whatever, 31 transitions put it at 31 or 32 for good; seven put it at 56 or below. */
  lemma LockTime(phase: int, n: nat)
    requires 0 <= phase < PHASE_MAX
    ensures n >= 31 ==> 31 <= NudgeTimes(phase, n) <= 32
    ensures n >= 7 ==> NudgeTimes(phase, n) <= 56
  {
    LockedAfter(phase, n);
  }

  // ---- A held bit stream ---------------------------------------------------------------

  /** Each level held for eight samples. */
  function HeldAll(levels: seq<bool>): seq<bool> {
    if levels == [] then [] else Held(8, levels[0]) + HeldAll(levels[1..])
  }

  lemma {:induction false} HeldAllConcat(a: seq<bool>, b: seq<bool>)
    ensures HeldAll(a + b) == HeldAll(a) + HeldAll(b)
  {
    hide Held;
    if a == [] {
      assert a + b == b;
    } else {
      assert (a + b)[1..] == a[1..] + b;
      HeldAllConcat(a[1..], b);
      Assoc(Held(8, a[0]), HeldAll(a[1..]), HeldAll(b));
    }
  }

  /** The sampler after a run of held levels. */
  function AfterBits(d: Sampler, levels: seq<bool>): (r: Sampler)
    requires d.Valid()
    ensures r.Valid()
    decreases |levels|
  {
    if levels == [] then d else AfterBits(AfterBit(d, levels[0]), levels[1..])
  }

  /** One recovered bit for each held level. */
  lemma {:induction false} BitPerLevel(d: Sampler, levels: seq<bool>)
    requires d.Valid()
    ensures Demodulate(d, HeldAll(levels)).0 == AfterBits(d, levels)
    ensures |Demodulate(d, HeldAll(levels)).1| == |levels|
    decreases |levels|
  {
    hide Held;
    if levels != [] {
      OneBit(d, levels[0]);
      DemodulateConcat(d, Held(8, levels[0]), HeldAll(levels[1..]));
      BitPerLevel(AfterBit(d, levels[0]), levels[1..]);
    }
  }

  function Changes(level: bool, levels: seq<bool>): nat
    decreases |levels|
  {
    if levels == [] then 0 else (if levels[0] != level then 1 else 0) + Changes(levels[0], levels[1..])
  }

  lemma {:induction false} PhaseAfterBits(d: Sampler, levels: seq<bool>)
    requires d.Valid()
    ensures AfterBits(d, levels).phase == NudgeTimes(d.phase, Changes(d.newest, levels))
    decreases |levels|
  {
    if levels != [] {
      PhaseAfterBits(AfterBit(d, levels[0]), levels[1..]);
    }
  }

  /** Recovered bits say whether the level changed: NRZI read back. */
  function Unchanged(level: bool, levels: seq<bool>): (r: seq<bool>)
    ensures |r| == |levels|
    decreases |levels|
  {
    if levels == [] then [] else [levels[0] == level] + Unchanged(levels[0], levels[1..])
  }

  /** Once the phase is at most 56, with the last bit found right, every bit is right. */
  lemma {:induction false} LockedReads(d: Sampler, levels: seq<bool>)
    requires d.Valid() && d.phase <= 56 && d.newest == d.older == d.found
    ensures Demodulate(d, HeldAll(levels)).1 == Unchanged(d.newest, levels)
    decreases |levels|
  {
    hide Held;
    if levels != [] {
      OneBit(d, levels[0]);
      RightValueIff(d, levels[0]);
      DemodulateConcat(d, Held(8, levels[0]), HeldAll(levels[1..]));
      LockedReads(AfterBit(d, levels[0]), levels[1..]);
    }
  }

  lemma {:induction false} AfterBitsConcat(d: Sampler, a: seq<bool>, b: seq<bool>)
    requires d.Valid()
    ensures AfterBits(d, a + b) == AfterBits(AfterBits(d, a), b)
    decreases |a|
  {
    if a == [] {
      assert a + b == b;
    } else {
      assert (a + b)[1..] == a[1..] + b;
      AfterBitsConcat(AfterBit(d, a[0]), a[1..], b);
    }
  }

  /** From any sampler state at all: once seven level changes have gone by and one more
      bit, everything after is read right. */
  lemma LocksOn(d: Sampler, head: seq<bool>, bit: bool, levels: seq<bool>)
    requires d.Valid() && head != [] && Changes(head[0], head) >= 7
    ensures var r := Demodulate(d, HeldAll(head + [bit] + levels)).1;
            |r| == |head| + 1 + |levels| && r[|head| + 1..] == Unchanged(bit, levels)
  {
    hide HeldAll, Demodulate, Unchanged, AfterBits;
    var d1 := AfterBits(d, head);
    PhaseAfterBits(d, head);
    ChangesAtLeast(d.newest, head);
    LockTime(d.phase, Changes(d.newest, head));
    AfterBitsConcat(d, head, [bit]);
    var d2 := AfterBits(d, head + [bit]);
    OneMore(d1, bit);
    LastLevelSettled(d, head);
    RightValueIff(d1, bit);
    HeldAllConcat(head + [bit], levels);
    DemodulateConcat(d, HeldAll(head + [bit]), HeldAll(levels));
    BitPerLevel(d, head + [bit]);
    LockedReads(d2, levels);
    BitPerLevel(d2, levels);
  }

  lemma OneMore(d: Sampler, bit: bool)
    requires d.Valid()
    ensures AfterBits(d, [bit]) == AfterBit(d, bit)
  {
    assert [bit][1..] == [];
  }

  lemma {:induction false} LastLevelSettled(d: Sampler, levels: seq<bool>)
    requires d.Valid() && levels != []
    ensures AfterBits(d, levels).newest == AfterBits(d, levels).older
    decreases |levels|
  {
    if |levels| > 1 {
      LastLevelSettled(AfterBit(d, levels[0]), levels[1..]);
    } else {
      assert levels == [levels[0]];
      OneMore(d, levels[0]);
    }
  }

  lemma ChangesAtLeast(level: bool, levels: seq<bool>)
    requires levels != []
    ensures Changes(level, levels) >= Changes(levels[0], levels)
  {
  }

  // ---- Glitches --------------------------------------------------------------------------

  /** How many samples are not at the level. */
  function Wrong(level: bool, s: seq<bool>): nat {
    if s == [] then 0 else (if s[0] != level then 1 else 0) + Wrong(level, s[1..])
  }

  /** One sample by the numbers: a transition moves the phase by one towards 32, a sample by
      eight, and at 64 the bit has the level of at least two of the last three samples. */
  lemma SampleIs(d: Sampler, s: bool)
    requires 0 <= d.phase < 64
    ensures var phase := (if s == d.newest then d.phase else if d.phase < 32 then d.phase + 1 else d.phase - 1) + 8;
            var (e, emit) := Sample(d, s);
            && e.newest == s && e.older == d.newest && e.phase == (if phase < 64 then phase else phase - 64)
            && (emit.Nothing? <==> phase < 64) && (emit.Nothing? ==> e.found == d.found)
            && (emit.Recovered? ==> emit.bit == (e.found == d.found))
            && forall level :: emit.Recovered? ==> (e.found == level <==> Wrong(level, [s, d.newest, d.older]) <= 1)
  {
    WrongOfThree(s, d.newest, d.older);
    hide Wrong;
  }

  lemma WrongOfThree(a: bool, b: bool, c: bool)
    ensures forall level :: Wrong(level, [a, b, c]) == (if a != level then 1 else 0) + (if b != level then 1 else 0) + (if c != level then 1 else 0)
  {
    forall level ensures Wrong(level, [a, b, c]) == (if a != level then 1 else 0) + (if b != level then 1 else 0) + (if c != level then 1 else 0) {
      WrongCons(level, a, [b, c]);
      WrongCons(level, b, [c]);
      WrongCons(level, c, []);
    }
  }

  lemma WrongCons(level: bool, a: bool, s: seq<bool>)
    ensures Wrong(level, [a] + s) == (if a != level then 1 else 0) + Wrong(level, s)
  {
    assert ([a] + s)[1..] == s;
  }

  /** Part way through a bit: after `n` samples, `w` of them wrong, the phase is near `p + 8 * n`. */
  predicate PartWay(d: Sampler, level: bool, p: int, n: nat, w: nat, done: bool) {
    var slack := 1 + 2 * w - if d.newest != level then 1 else 0;
    && d.Valid() && 3 <= p <= 44 && 1 <= n <= 8 && w <= 1
    && -slack <= (if done then d.phase + PHASE_MAX else d.phase) - (p + 8 * n) <= slack
    && (if d.newest != level then 1 else 0) + (if n >= 2 && d.older != level then 1 else 0) <= w
    && (done ==> d.found == level)
  }

  lemma PartWayOn(d: Sampler, level: bool, p: int, n: nat, w: nat, done: bool, s: bool)
    requires PartWay(d, level, p, n, w, done) && n < 8 && (s == level || w == 0)
    ensures var (e, emit) := Sample(d, s);
            && PartWay(e, level, p, n + 1, if s == level then w else 1, done || emit.Recovered?)
            && (emit.Recovered? ==> !done && emit.bit == (level == d.found)) && (emit.Nothing? && !done ==> e.found == d.found)
  {
  }

  lemma {:induction false} RestOfGlitched(d: Sampler, level: bool, p: int, n: nat, w: nat, done: bool, s: seq<bool>)
    requires PartWay(d, level, p, n, w, done) && n + |s| == 8 && w + Wrong(level, s) <= 1
    ensures var r := Demodulate(d, s);
            && r.1 == (if done then [] else [level == d.found]) && r.0.found == level && -3 <= r.0.phase - p <= 3
    decreases |s|
  {
    if s == [] {
      hide Sample;
    } else {
      hide Demodulate, Sample, PartWay;
      var (e, emit) := Sample(d, s[0]);
      PartWayOn(d, level, p, n, w, done, s[0]);
      DemodulateCons(d, s);
      RestOfGlitched(e, level, p, n + 1, if s[0] == level then w else 1, done || emit.Recovered?, s[1..]);
    }
  }

  /** A bit of eight samples, one of which may be wrong, is read right, and moves the phase by
      three at most. */
  lemma OneGlitch(d: Sampler, level: bool, s: seq<bool>)
    requires 3 <= d.phase <= 44 && |s| == 8 && Wrong(level, s) <= 1
    ensures var r := Demodulate(d, s);
            r.1 == [level == d.found] && r.0.found == level && -3 <= r.0.phase - d.phase <= 3
  {
    var (e, emit) := Sample(d, s[0]);
    assert PartWay(e, level, d.phase, 1, if s[0] == level then 0 else 1, false) && emit.Nothing?;
    hide Sample, PartWay;
    DemodulateCons(d, s);
    RestOfGlitched(e, level, d.phase, 1, if s[0] == level then 0 else 1, false, s[1..]);
  }

  /** How many bits have a wrong sample. */
  function Glitched(levels: seq<bool>, samples: seq<bool>): nat
    requires |samples| == 8 * |levels|
  {
    if levels == [] then 0
    else (if samples[..8] == Held(8, levels[0]) then 0 else 1) + Glitched(levels[1..], samples[8..])
  }

  /** No bit has more than one. */
  predicate NoneTwice(levels: seq<bool>, samples: seq<bool>)
    requires |samples| == 8 * |levels|
  {
    levels == [] || (Wrong(levels[0], samples[..8]) <= 1 && NoneTwice(levels[1..], samples[8..]))
  }

  /** Glitches do no harm: from a locked phase any bits are read right, up to five of them
      with a wrong sample, wherever in the bit that is. */
  lemma {:induction false} GlitchesDoNoHarm(d: Sampler, levels: seq<bool>, samples: seq<bool>)
    requires d.Valid() && |samples| == 8 * |levels| && NoneTwice(levels, samples)
    requires Distance(d.phase) + 3 * Glitched(levels, samples) <= 15
    ensures Demodulate(d, samples).1 == Unchanged(d.found, levels)
    decreases |levels|
  {
    hide Held, Demodulate, Wrong;
    if levels == [] {
      NoSamples(d);
    } else {
      var s := samples[..8];
      if s == Held(8, levels[0]) {
        OneBit(d, levels[0]);
      } else {
        OneGlitch(d, levels[0], s);
      }
      assert samples == s + samples[8..];
      DemodulateConcat(d, s, samples[8..]);
      GlitchesDoNoHarm(Demodulate(d, s).0, levels[1..], samples[8..]);
    }
  }

  lemma NoSamples(d: Sampler)
    requires d.Valid()
    ensures Demodulate(d, []) == (d, [])
  {
  }

  // ---- The demodulator -------------------------------------------------------------------

  class Demodulator {
    var sampled_bits: bv8
    var curr_phase: int
    var found_bits: bv8
    var octet: bv8
    var bit_count: nat
    var iq: seq<bv8>          // octets for the decoder, oldest first

    ghost predicate Valid()
      reads this
    {
      0 <= curr_phase < PHASE_MAX && bit_count < 8
    }

    ghost function State(): Sampler
      reads this
    {
      Sampler(sampled_bits & 1 != 0, sampled_bits & 2 != 0, curr_phase, found_bits & 1 != 0)
    }

    /** Recovered bits: those in whole octets, then those still being gathered. */
    ghost function Bits(): seq<bool>
      requires bit_count < 8
      reads this
    {
      BitsOf(iq) + Partial(octet, bit_count)
    }

    constructor ()
      ensures Valid() && State() == Sampler(false, false, 0, false) && Bits() == []
    {
      sampled_bits, curr_phase, found_bits, octet, bit_count, iq := 0, 0, 0, 0, 0, [];
    }

    /** `add_bit`; an octet that finds the queue full is dropped. */
    method AddBit(bit: bool)
      requires bit_count < 8
      modifies this`octet, this`bit_count, this`iq
      ensures bit_count < 8
      ensures |old(iq)| < 128 ==> Bits() == old(Bits()) + [bit]
      ensures |old(iq)| >= 128 ==>
                iq == old(iq) && Bits() == if old(bit_count) == 7 then BitsOf(old(iq)) else old(Bits()) + [bit]
    {
      hide OctetBits, BitsOf, PushTop, Partial;
      PartialGrows(octet, bit_count, bit);
      Assoc(BitsOf(iq), Partial(octet, bit_count), [bit]);
      octet := PushTop(octet, bit);
      bit_count := bit_count + 1;
      if bit_count == 8 {
        if |iq| < QUEUE_SIZE {
          BitsOfSnoc(iq, octet);
          iq := iq + [octet];
        }
        bit_count := 0;
      }
    }

    /** One comparator sample, 9600 times a second. */
    method ProcessSample(sample: bool)
      requires Valid()
      modifies this
      ensures Valid()
      ensures State() == old(Sample(State(), sample).0)
      ensures old(Sample(State(), sample).1.Nothing?) ==> iq == old(iq) && Bits() == old(Bits())
      ensures old(Sample(State(), sample).1.Recovered?) && |old(iq)| < 128 ==>
                Bits() == old(Bits() + [Sample(State(), sample).1.bit])
      ensures old(Sample(State(), sample).1.Recovered?) && |old(iq)| >= 128 ==>
                iq == old(iq) && Bits() == if old(bit_count) == 7 then BitsOf(old(iq)) else old(Bits() + [Sample(State(), sample).1.bit])
    {
      hide OctetBits, BitsOf, Sample;
      var recovered, bit := Clock(sample);
      if recovered {
        AddBit(bit);
      }
    }

    /** The sampler's part of it: the sample, the phase, and the bit if one is complete. */
    method Clock(sample: bool) returns (recovered: bool, bit: bool)
      requires Valid()
      modifies this`sampled_bits, this`curr_phase, this`found_bits
      ensures Valid() && State() == old(Sample(State(), sample).0)
      ensures old(Sample(State(), sample)).1 == if recovered then Recovered(bit) else Nothing
    {
      recovered, bit := false, false;
      ShiftSample(sampled_bits, sample);
      sampled_bits := (sampled_bits << 1) | (if sample then 1 else 0);
      if TransitionFound(sampled_bits) {
        curr_phase := if curr_phase < PHASE_THRESHOLD then curr_phase + PHASE_INC else curr_phase - PHASE_INC;
      }
      curr_phase := curr_phase + PHASE_BITS;
      if curr_phase >= PHASE_MAX {
        curr_phase := curr_phase % PHASE_MAX;
        LastThree(sampled_bits);
        var three := sampled_bits & 0x07;
        var one := three == 0x07 || three == 0x06 || three == 0x05 || three == 0x03;
        ShiftSample(found_bits, one);
        found_bits := (found_bits << 1) | (if one then 1 else 0);
        recovered, bit := true, !TransitionFound(found_bits);
      }
    }
  }

  function TransitionFound(bits: bv8): bool { (bits ^ (bits >> 1)) & 1 != 0 }

  lemma ShiftSample(b: bv8, s: bool)
    ensures var v := (b << 1) | (if s then 1 else 0);
            && (v & 1 != 0) == s && (v & 2 != 0) == (b & 1 != 0) && (v & 4 != 0) == (b & 2 != 0)
            && TransitionFound(v) == (s != (b & 1 != 0))
  {
  }

  lemma LastThree(b: bv8)
    ensures Majority(b & 1 != 0, b & 2 != 0, b & 4 != 0)
       <==> b & 0x07 == 0x07 || b & 0x07 == 0x06 || b & 0x07 == 0x05 || b & 0x07 == 0x03
  {
  }

  /** The last `k` bits taken into an octet. */
  function Partial(octet: bv8, k: nat): seq<bool>
    requires k < 8
  {
    OctetBits(octet)[8 - k..]
  }

  lemma PartialGrows(octet: bv8, k: nat, bit: bool)
    requires k < 8
    ensures k < 7 ==> Partial(PushTop(octet, bit), k + 1) == Partial(octet, k) + [bit]
    ensures k == 7 ==> OctetBits(PushTop(octet, bit)) == Partial(octet, k) + [bit]
    ensures Partial(PushTop(octet, bit), 0) == []
  {
    hide OctetBits, PushTop;
    PushTopBits(octet, bit);
    assert (OctetBits(octet)[1..] + [bit])[8 - (k + 1)..] == OctetBits(octet)[8 - k..] + [bit];
  }
}
