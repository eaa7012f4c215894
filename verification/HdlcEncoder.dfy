/** The transmitting side, `hdlc_encode_byte` and `hdlc_encode_frames`. */
module HdlcEncoder {
  import opened Bits
  import opened HdlcFraming
  import Crc16

  /** How many of the last five line bits held in the register, read back from the
      newest (bit 6), are ones. */
  function RunOf(outbyte: bv8): (r: nat)
    ensures r <= 5
  {
    if outbyte & 0x40 == 0 then 0
    else if outbyte & 0x20 == 0 then 1
    else if outbyte & 0x10 == 0 then 2
    else if outbyte & 0x08 == 0 then 3
    else if outbyte & 0x04 == 0 then 4
    else 5
  }

  lemma StuffTest(outbyte: bv8)
    ensures outbyte & 0x7c == 0x7c <==> RunOf(outbyte) == 5
  {
  }

  /** Shifting in a line bit. */
  function ShiftIn(outbyte: bv8, bit: bool): bv8 {
    (outbyte | (if bit then 0x80 else 0)) >> 1
  }

  lemma RunAfterShift(outbyte: bv8, bit: bool)
    requires outbyte & 0x80 == 0
    ensures RunOf(ShiftIn(outbyte, bit)) == if bit then (if RunOf(outbyte) == 5 then 5 else RunOf(outbyte) + 1) else 0
  {
  }

  lemma RegisterStaysLow(outbyte: bv8, bit: bool)
    ensures ShiftIn(outbyte, bit) & 0x80 == 0
  {
  }

  /** The line bits in the register that have not yet left as part of an octet. */
  function PendingOf(outbyte: bv8, outbits: nat): (r: seq<bool>)
    requires outbits < 8
    ensures |r| == outbits
  {
    OctetBits(outbyte)[7 - outbits..7]
  }

  lemma ShiftAppends(outbyte: bv8, outbits: nat, bit: bool)
    requires outbits < 8 && outbyte & 0x80 == 0
    ensures outbits < 7 ==> PendingOf(ShiftIn(outbyte, bit), outbits + 1) == PendingOf(outbyte, outbits) + [bit]
    ensures outbits == 7 ==> OctetBits(outbyte | (if bit then 0x80 else 0)) == PendingOf(outbyte, 7) + [bit]
  {
    hide OctetBits;
    TopBit(outbyte, bit);
    ShiftDown(outbyte | (if bit then 0x80 else 0));
  }

  class Encoder {
    var outbits: nat            // line bits gathered towards the next octet
    var outbyte: bv8            // the last line bits, newest in bit 6
    var outqueue: seq<bv8>      // octets handed to the modulator, oldest first
    var queue: seq<Frame>       // frames waiting to be sent, oldest first
    var buffer: Frame           // the frame in hand

    ghost predicate Valid()
      reads this`outbits, this`outbyte
    {
      outbits < 8 && outbyte & 0x80 == 0
    }

    /** Every line bit produced so far. */
    ghost function Stream(): seq<bool>
      requires Valid()
      reads this`outbits, this`outbyte, this`outqueue
    {
      BitsOf(outqueue) + PendingOf(outbyte, outbits)
    }

    constructor ()
      ensures Valid() && Stream() == [] && RunOf(outbyte) == 0
    {
      outbits, outbyte, outqueue := 0, 0, [];
      queue, buffer := [], [];
    }

    /** Counts a line bit that was put in bit 7 of the register, and shifts. */
    method Shift(ghost was: bv8, ghost bit: bool)
      requires outbits < 8 && was & 0x80 == 0
      requires outbyte == was | (if bit then 0x80 else 0)
      modifies this`outbits, this`outbyte, this`outqueue
      ensures Valid()
      ensures outbyte == ShiftIn(was, bit)
      ensures Stream() == BitsOf(old(outqueue)) + PendingOf(was, old(outbits)) + [bit]
    {
      hide OctetBits, BitsOf, PendingOf;
      ShiftAppends(was, outbits, bit);
      RegisterStaysLow(was, bit);
      outbits := outbits + 1;
      if outbits == 8 {
        BitsOfSnoc(outqueue, outbyte);
        Assoc(BitsOf(outqueue), PendingOf(was, 7), [bit]);
        outqueue := outqueue + [outbyte];
        outbits := 0;
      } else {
        Assoc(BitsOf(outqueue), PendingOf(was, outbits - 1), [bit]);
      }
      outbyte := outbyte >> 1;
      assert |PendingOf(outbyte, 0)| == 0;
    }

    /** One turn of the encoder's loop: a stuffed zero, or the lowest bit left in `txbyte`. */
    method LineBit(txbyte: bv8, flag: bool, ghost rest: seq<bool>) returns (left: bv8, stuffed: bool)
      requires Valid()
      requires 0 < |rest| <= 8 && rest == OctetBits(txbyte)[..|rest|]
      modifies this`outbits, this`outbyte, this`outqueue
      ensures Valid()
      ensures stuffed == (!flag && old(RunOf(outbyte)) == 5)
      ensures stuffed ==> left == txbyte && Stream() == old(Stream()) + [false] && RunOf(outbyte) == 0
      ensures !stuffed ==> rest[1..] == OctetBits(left)[..|rest| - 1] && Stream() == old(Stream()) + [rest[0]]
      ensures !stuffed && (!rest[0] || !flag) ==> RunOf(outbyte) == NextRun(old(RunOf(outbyte)), rest[0])
    {
      hide OctetBits, BitsOf, RunOf, ShiftIn, PendingOf;
      ghost var was := outbyte;
      StuffTest(outbyte);
      stuffed := !flag && outbyte & 0x7c == 0x7c;
      left := txbyte;
      if !stuffed {
        TakeLowest(txbyte, rest);
        outbyte := outbyte | ((txbyte & 0x01) << 7);
        left := txbyte >> 1;
      }
      RunAfterShift(was, !stuffed && rest[0]);
      Shift(was, !stuffed && rest[0]);
    }

    /** Sends one octet. The loop steps its counter back when it stuffs a zero. */
    method EncodeByte(octet: bv8, flag: bool)
      requires Valid()
      modifies this`outbits, this`outbyte, this`outqueue
      ensures Valid()
      ensures flag ==> Stream() == old(Stream()) + OctetBits(octet)
      ensures flag && !OctetBits(octet)[7] ==> RunOf(outbyte) == 0
      ensures !flag ==> Stream() == old(Stream()) + StuffFrom(old(RunOf(outbyte)), OctetBits(octet))
      ensures !flag ==> RunOf(outbyte) == RunAfter(old(RunOf(outbyte)), OctetBits(octet))
    {
      hide OctetBits, RunOf, StuffFrom, RunAfter, Progress, Stream;
      Unsent(flag, Stream(), RunOf(outbyte), OctetBits(octet));
      var txbyte := octet;
      ghost var bits := OctetBits(octet);
      ghost var start, run, rest := Stream(), RunOf(outbyte), bits;
      var i := 1;
      while i < 9
        invariant 1 <= i <= 9 && |rest| == 9 - i
        invariant Valid()
        invariant rest == bits[i - 1..] && rest == OctetBits(txbyte)[..9 - i]
        invariant Progress(flag, Stream(), RunOf(outbyte), rest, start, run, bits)
        invariant flag && i > 1 && !bits[i - 2] ==> RunOf(outbyte) == 0
        decreases 9 - i, RunOf(outbyte)
      {
        OneBitSent(flag, Stream(), RunOf(outbyte), rest, start, run, bits);
        var stuffed;
        txbyte, stuffed := LineBit(txbyte, flag, rest);
        if stuffed {
          i := i - 1;
        } else {
          rest := rest[1..];
        }
        i := i + 1;
      }
      assert rest == [];
      AllSent(flag, Stream(), RunOf(outbyte), start, run, bits);
    }

    method EncodeFlags(count: nat)
      requires Valid()
      modifies this`outbits, this`outbyte, this`outqueue
      ensures Valid()
      ensures Stream() == old(Stream()) + Flags(count)
      ensures RunOf(outbyte) == if count == 0 then old(RunOf(outbyte)) else 0
    {
      hide RunOf, Stream, OctetBits;
      FlagBits();
      var i := 0;
      while i < count
        invariant 0 <= i <= count
        invariant Valid()
        invariant Stream() == old(Stream()) + Flags(i)
        invariant RunOf(outbyte) == if i == 0 then old(RunOf(outbyte)) else 0
      {
        FlagsSnoc(i);
        Assoc(old(Stream()), Flags(i), FLAG_BITS);
        EncodeByte(FLAG, true);
        i := i + 1;
      }
    }

    /** Sends the octets of the frame in hand, then its FCS. */
    method EncodeFrame()
      requires Valid()
      modifies this`outbits, this`outbyte, this`outqueue
      ensures Valid()
      ensures Stream() == old(Stream()) + StuffFrom(old(RunOf(outbyte)), FrameBits(buffer))
      ensures RunOf(outbyte) == RunAfter(old(RunOf(outbyte)), FrameBits(buffer))
    {
      hide RunOf, Stream, OctetBits, BitsOf, Crc16.Fold, StuffFrom, RunAfter, Crc16.Update;
      ghost var run, start := RunOf(outbyte), Stream();
      var crc := Crc16.INITIAL;
      var i := 0;
      NothingStuffed(run, start);
      Crc16.CrcOfNone();
      assert buffer[..0] == [];
      while i < |buffer|
        invariant 0 <= i <= |buffer|
        invariant Valid()
        invariant crc == Crc16.Crc(buffer[..i])
        invariant Stream() == start + StuffFrom(run, BitsOf(buffer[..i]))
        invariant RunOf(outbyte) == RunAfter(run, BitsOf(buffer[..i]))
      {
        var txbyte := buffer[i];
        OneMoreOctet(run, start, buffer[..i], txbyte);
        Crc16.CrcSnoc(buffer[..i], txbyte);
        crc := Crc16.Update(crc, txbyte);
        EncodeByte(txbyte, false);
        assert buffer[..i + 1] == buffer[..i] + [txbyte];
        i := i + 1;
      }
      assert buffer[..i] == buffer;
      var low, high := ((crc & 255) as bv8) ^ 0xFF, ((crc >> 8) as bv8) ^ 0xFF;
      OneMoreOctet(run, start, buffer, low);
      OneMoreOctet(run, start, buffer + [low], high);
      EncodeByte(low, false);
      EncodeByte(high, false);
      assert buffer + [low] + [high] == buffer + Crc16.Fcs(buffer);
    }

    /** One transmission of the frame in hand and those waiting, as far as `maxfr` allows.
        A frame taken off the queue after the last one allowed is neither sent nor put back. */
    method EncodeFrames(txdelay: nat, txtail: nat, maxfr: nat)
      requires Valid()
      requires buffer != [] && forall f :: f in queue ==> f != []
      modifies this
      ensures Valid()
      ensures Stream() == old(Stream())
              + Transmission(old(RunOf(outbyte)), txdelay, [old(buffer)] + old(queue), maxfr, txtail)
      ensures txtail > 0 ==> RunOf(outbyte) == 0
      ensures queue == ([old(buffer)] + old(queue))[if maxfr <= |old(queue)| then maxfr + 1 else |old(queue)| + 1..]
    {
      hide RunOf, Stream, OctetBits, StuffFrom, RunAfter, FrameBits, Body, Flags;
      ghost var all := [buffer] + queue;
      ghost var run := RunOf(outbyte);
      EncodeFlags(txdelay);
      ghost var start, first := Stream(), RunOf(outbyte);
      var i := 0;
      while i < maxfr
        invariant 0 <= i <= maxfr && i < |all|
        invariant Valid()
        invariant buffer == all[i] && queue == all[i + 1..]
        invariant Stream() + Body(RunOf(outbyte), all[i..], maxfr - i) == start + Body(first, all, maxfr)
      {
        BodyUnfolds(RunOf(outbyte), all[i..], maxfr - i, Stream());
        assert all[i..][0] == buffer && all[i..][1..] == queue;
        EncodeFrame();
        if queue != [] {
          OneFlag();
          EncodeFlags(1);
          assert all[i..][1..] == all[i + 1..];
          buffer := queue[0];
          queue := queue[1..];
        } else {
          break;
        }
        i := i + 1;
      }
      NoBody(Stream(), RunOf(outbyte), all[i..]);
      assert Stream() == start + Body(first, all, maxfr);
      Assoc(old(Stream()), Flags(txdelay), Body(first, all, maxfr));
      Assoc(old(Stream()), Flags(txdelay) + Body(first, all, maxfr), Flags(txtail));
      EncodeFlags(txtail);
    }
  }

  lemma NoBody(sent: seq<bool>, run: nat, frames: seq<Frame>)
    ensures sent + Body(run, frames, 0) == sent
  {
  }

  lemma BodyUnfolds(run: nat, frames: seq<Frame>, max: nat, sent: seq<bool>)
    requires frames != [] && max > 0
    ensures |frames| == 1 ==> sent + Body(run, frames, max) == sent + StuffFrom(run, FrameBits(frames[0]))
    ensures |frames| > 1 ==> (sent + Body(run, frames, max)
                           == sent + StuffFrom(run, FrameBits(frames[0])) + FLAG_BITS + Body(0, frames[1..], max - 1))
  {
    hide StuffFrom, FrameBits;
  }

  lemma NothingStuffed(run: nat, start: seq<bool>)
    ensures StuffFrom(run, BitsOf([])) == [] && RunAfter(run, BitsOf([])) == run && start + [] == start
  {
  }

  lemma OneMoreOctet(run: nat, start: seq<bool>, s: seq<bv8>, b: bv8)
    ensures start + StuffFrom(run, BitsOf(s + [b]))
         == start + StuffFrom(run, BitsOf(s)) + StuffFrom(RunAfter(run, BitsOf(s)), OctetBits(b))
    ensures RunAfter(run, BitsOf(s + [b])) == RunAfter(RunAfter(run, BitsOf(s)), OctetBits(b))
  {
    hide *;
    BitsOfSnoc(s, b);
    StuffConcat(run, BitsOf(s), OctetBits(b));
    Assoc(start, StuffFrom(run, BitsOf(s)), StuffFrom(RunAfter(run, BitsOf(s)), OctetBits(b)));
  }

  /** What is sent so far, and what the current state will still send, is what was to be sent. */
  ghost predicate Progress(flag: bool, sent: seq<bool>, run: nat, rest: seq<bool>,
                           start: seq<bool>, run0: nat, bits: seq<bool>) {
    if flag then sent + rest == start + bits
    else sent + StuffFrom(run, rest) == start + StuffFrom(run0, bits) && RunAfter(run, rest) == RunAfter(run0, bits)
  }

  lemma OneBitSent(flag: bool, sent: seq<bool>, run: nat, rest: seq<bool>,
                   start: seq<bool>, run0: nat, bits: seq<bool>)
    requires Progress(flag, sent, run, rest, start, run0, bits) && rest != [] && run <= 5
    ensures !flag && run == 5 ==> Progress(flag, sent + [false], 0, rest, start, run0, bits)
    ensures !flag && run < 5 ==> Progress(flag, sent + [rest[0]], NextRun(run, rest[0]), rest[1..], start, run0, bits)
    ensures flag ==> forall r :: Progress(flag, sent + [rest[0]], r, rest[1..], start, run0, bits)
  {
    StuffUnfolds(run, rest);
    Assoc(sent, [false], StuffFrom(0, rest));
    Assoc(sent, [rest[0]], StuffFrom(NextRun(run, rest[0]), rest[1..]));
    Assoc(sent, [rest[0]], rest[1..]);
    assert rest == [rest[0]] + rest[1..];
  }

  lemma Unsent(flag: bool, start: seq<bool>, run0: nat, bits: seq<bool>)
    ensures Progress(flag, start, run0, bits, start, run0, bits)
  {
  }

  lemma AllSent(flag: bool, sent: seq<bool>, run: nat, start: seq<bool>, run0: nat, bits: seq<bool>)
    requires Progress(flag, sent, run, [], start, run0, bits)
    ensures flag ==> sent == start + bits
    ensures !flag ==> sent == start + StuffFrom(run0, bits) && run == RunAfter(run0, bits)
  {
    assert sent + [] == sent;
  }

  lemma TakeLowest(txbyte: bv8, rest: seq<bool>)
    requires 0 < |rest| <= 8 && rest == OctetBits(txbyte)[..|rest|]
    ensures rest[1..] == OctetBits(txbyte >> 1)[..|rest| - 1]
    ensures (txbyte & 0x01) << 7 == if rest[0] then 0x80 else 0
  {
    hide OctetBits;
    LowestBit(txbyte);
    ShiftDown(txbyte);
  }

  lemma LowestBit(txbyte: bv8)
    ensures (txbyte & 0x01) << 7 == if OctetBits(txbyte)[0] then 0x80 else 0
  {
  }
}
