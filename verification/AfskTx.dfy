/** The transmit bit clock: octets from the queue, least significant bit first, the tone
    toggling on every zero (NRZI). */
module AfskTx {
  import opened Bits

  /** The tone level in each bit time, from the level before the first. */
  function Nrzi(level: bool, bits: seq<bool>): (r: seq<bool>)
    ensures |r| == |bits|
    decreases |bits|
  {
    if bits == [] then [] else
      var next := if bits[0] then level else !level;
      [next] + Nrzi(next, bits[1..])
  }

  function LastLevel(level: bool, bits: seq<bool>): bool
    decreases |bits|
  {
    if bits == [] then level else LastLevel(if bits[0] then level else !level, bits[1..])
  }

  lemma {:induction false} NrziConcat(level: bool, a: seq<bool>, b: seq<bool>)
    ensures Nrzi(level, a + b) == Nrzi(level, a) + Nrzi(LastLevel(level, a), b)
    ensures LastLevel(level, a + b) == LastLevel(LastLevel(level, a), b)
    decreases |a|
  {
    if a == [] {
      assert a + b == b;
    } else {
      var next := if a[0] then level else !level;
      NrziCons(level, a);
      NrziCons(level, a + b);
      assert (a + b)[1..] == a[1..] + b;
      hide Nrzi, LastLevel;
      NrziConcat(next, a[1..], b);
      Assoc([next], Nrzi(next, a[1..]), Nrzi(LastLevel(next, a[1..]), b));
    }
  }

  lemma NrziCons(level: bool, a: seq<bool>)
    requires a != []
    ensures var next := if a[0] then level else !level;
            Nrzi(level, a) == [next] + Nrzi(next, a[1..]) && LastLevel(level, a) == LastLevel(next, a[1..])
  {
  }

  lemma NrziSnoc(level: bool, a: seq<bool>, bit: bool)
    ensures LastLevel(level, a + [bit]) == if bit then LastLevel(level, a) else !LastLevel(level, a)
    ensures Nrzi(level, a + [bit]) == Nrzi(level, a) + [LastLevel(level, a + [bit])]
  {
    NrziConcat(level, a, [bit]);
  }

  /** Reading the code back: a bit is one exactly when the level did not change. */
  lemma {:induction false} NrziReads(level: bool, bits: seq<bool>, i: nat)
    requires i < |bits|
    ensures bits[i] == (Nrzi(level, bits)[i] == if i == 0 then level else Nrzi(level, bits)[i - 1])
    decreases |bits|
  {
    if i > 0 {
      NrziReads(if bits[0] then level else !level, bits[1..], i - 1);
    }
  }

  /** The other polarity toggles at the same places. */
  lemma {:induction false} NrziPolarity(level: bool, bits: seq<bool>, i: nat)
    requires i < |bits|
    ensures Nrzi(!level, bits)[i] == !Nrzi(level, bits)[i]
    decreases |bits|
  {
    if i > 0 {
      NrziPolarity(if bits[0] then level else !level, bits[1..], i - 1);
    }
  }

  class Modulator {
    var oq: seq<bv8>           // octets from the encoder, oldest first
    var transmit: bool
    var bits: bv8
    var bit_count: nat
    var toneHigh: bool

    ghost var queued: seq<bv8>   // every octet ever put in the queue
    ghost var sent: seq<bool>    // every bit clocked out
    ghost var tones: seq<bool>   // the tone level after each of them
    ghost const start: bool      // the level before the first

    /** The bits of the octet being sent that are still to go. */
    ghost function Left(): seq<bool>
      requires bit_count <= 8
      reads this`bits, this`bit_count
    {
      OctetBits(bits)[..bit_count]
    }

    /** Nothing is lost, duplicated or reordered between the queue and the tone. */
    ghost predicate Valid()
      reads this
    {
      && bit_count <= 8
      && (transmit <==> bit_count > 0)
      && BitsOf(queued) == sent + Left() + BitsOf(oq)
      && tones == Nrzi(start, sent)
      && toneHigh == LastLevel(start, sent)
    }

    constructor (level: bool)
      ensures Valid() && start == level && queued == [] && sent == []
    {
      oq, transmit, bits, bit_count, toneHigh := [], false, 0, 0, level;
      queued, sent, tones, start := [], [], [], level;
    }

    /** The encoder's side of the queue. */
    method Put(octet: bv8)
      requires Valid()
      modifies this`oq, this`queued
      ensures Valid()
      ensures queued == old(queued) + [octet] && oq == old(oq) + [octet]
    {
      hide OctetBits, BitsOf;
      BitsOfSnoc(queued, octet);
      BitsOfSnoc(oq, octet);
      queued := queued + [octet];
      oq := oq + [octet];
    }

    method GetBit() returns (bit: bool)
      requires 0 < bit_count <= 8
      modifies this`bits, this`bit_count
      ensures bit_count == old(bit_count) - 1
      ensures old(Left()) == [bit] + Left()
    {
      hide OctetBits;
      ShiftOut(bits, bit_count);
      bit := bits & 0x01 != 0;
      bits := bits >> 1;
      bit_count := bit_count - 1;
    }

    /** Loads the next octet if the current one is used up; stops the transmitter at the end of the queue. */
    method NextByte()
      requires bit_count <= 8
      modifies this`oq, this`bits, this`bit_count, this`transmit
      ensures bit_count <= 8
      ensures Left() + BitsOf(oq) == old(Left() + BitsOf(oq))
      ensures old(bit_count) > 0 ==> unchanged(this)
      ensures old(bit_count) == 0 && old(oq) == [] ==> !transmit && bit_count == 0 && oq == []
      ensures old(bit_count) == 0 && old(oq) != [] ==> bit_count == 8 && transmit == old(transmit)
    {
      hide OctetBits;
      if bit_count == 0 {
        if oq == [] {
          transmit := false;
          return;
        }
        bits := oq[0];
        bit_count := 8;
        oq := oq[1..];
        assert OctetBits(bits)[..8] == OctetBits(bits);
      }
    }

    /** One tick of the bit clock. Idle ticks, with nothing to send, leave everything alone. */
    method Tick()
      requires Valid()
      modifies this
      ensures Valid() && queued == old(queued)
      ensures !old(transmit) && old(oq) == [] ==> sent == old(sent) && !transmit
      ensures old(transmit) || old(oq) != [] ==> |sent| == |old(sent)| + 1 && old(sent) <= sent
    {
      hide OctetBits, BitsOf, Nrzi, LastLevel;
      if !transmit {
        if oq == [] {
          return;
        }
        NextByte();
        transmit := true;
      }
      ghost var rest := Left() + BitsOf(oq);
      Assoc(sent, Left(), BitsOf(oq));
      var bit := GetBit();
      if !bit {
        toneHigh := !toneHigh;
      }
      NrziSnoc(start, sent, bit);
      Assoc([bit], Left(), BitsOf(oq));
      Assoc(sent, [bit], Left() + BitsOf(oq));
      sent := sent + [bit];
      tones := tones + [toneHigh];
      NextByte();
      Assoc(sent, Left(), BitsOf(oq));
    }
  }

  lemma ShiftOut(b: bv8, n: nat)
    requires 0 < n <= 8
    ensures OctetBits(b)[..n] == [b & 0x01 != 0] + OctetBits(b >> 1)[..n - 1]
  {
    LowestFirst(b);
    hide OctetBits;
    ShiftDown(b);
    FirstOf(OctetBits(b), OctetBits(b >> 1), n);
  }

  lemma LowestFirst(b: bv8)
    ensures OctetBits(b)[0] == (b & 0x01 != 0)
  {
  }

  lemma FirstOf(x: seq<bool>, y: seq<bool>, n: nat)
    requires |x| == |y| == 8 && x[1..] == y[..7] && 0 < n <= 8
    ensures x[..n] == [x[0]] + y[..n - 1]
  {
    assert x[..n] == [x[0]] + x[1..][..n - 1];
    assert y[..7][..n - 1] == y[..n - 1];
  }
}
