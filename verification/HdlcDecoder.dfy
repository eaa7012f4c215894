/** The receiving side, `get_bit`, `hdlc_rxdecoder` and `crc_match`: first as a function
    on bit streams, then as the state machine over octets that computes it. */
module HdlcDecoder {
  import opened Bits
  import opened HdlcFraming
  import Crc16
  import FbufChains

  const MAX_FRAME_SIZE: nat := 289   // MAX_HDLC_FRAME_SIZE, FCS included
  const MIN_LENGTH: nat := 18        // AX25_HDR_LEN(0) + 2
  const SLOT_SIZE: nat := FbufChains.SLOT_SIZE

  // ---- The lexer --------------------------------------------------------------

  /** What one call of `get_bit` returns. */
  datatype Token = Flag | Bit(b: bool)

  function Lex(s: seq<bool>): Token
    requires |s| >= 8
  {
    if s[..8] == FLAG_BITS then Flag else Bit(s[0])
  }

  function Width(t: Token): nat { if t.Flag? then 8 else 1 }

  // ---- The parser -------------------------------------------------------------

  /** Where the decoder is: looking for a flag, past a flag, or inside a frame with the
      unstuffed bits so far, the ones they end with, and whether a stuffed zero was just skipped. */
  datatype Phase =
    | FlagSync
    | FrameSync
    | InFrame(acc: seq<bool>, ones: nat, skipped: bool)

  /** Decoder state, with the number of frames checked and the frames delivered so far. */
  datatype Rx = Rx(phase: Phase, checks: nat, out: seq<Frame>)

  /** The two octets `crc_match` takes for the FCS. The length is an octet; and a position
      that is the end of a full buffer slot is not found (the read runs past the slot), so
      what it sees there is `past`, whatever lies behind the slot in memory. */
  function SeenFcs(past: bv16, s: Frame): bv16
    requires |s| >= 2
  {
    var n := CheckedLength(|s|);
    if n > 0 && n % SLOT_SIZE == 0 then past else Crc16.Received(s[n], s[n + 1])
  }

  /** The number of octets the CRC is taken over. */
  function CheckedLength(length: nat): (n: nat)
    requires length >= 2
    ensures n + 2 <= length
  {
    if length % 256 >= 2 then length % 256 - 2 else 0
  }

  predicate CrcMatch(past: bv16, s: Frame)
    requires |s| >= 2
  {
    Crc16.Crc(s[..CheckedLength(|s|)]) == SeenFcs(past, s)
  }

  predicate Accepts(past: bv16, s: Frame) {
    |s| > MIN_LENGTH && CrcMatch(past, s)
  }

  /** A complete frame: checked if long enough, and delivered without its FCS. */
  function EndFrame(past: nat -> bv16, checks: nat, out: seq<Frame>, s: Frame): Rx {
    Rx(FrameSync,
       if |s| > MIN_LENGTH then checks + 1 else checks,
       if Accepts(past(checks), s) then out + [s[..|s| - 2]] else out)
  }

  /** The next unstuffed token inside a frame. */
  function Continue(past: nat -> bv16, st: Rx, acc: seq<bool>, ones: nat, t: Token): Rx {
    match t
    case Flag =>
      if |acc| % 8 == 0 then EndFrame(past, st.checks, st.out, OctetsOf(acc)) else st.(phase := FrameSync)
    case Bit(b) =>
      if |acc| % 8 == 0 && |acc| / 8 > MAX_FRAME_SIZE then st.(phase := FlagSync)
      else st.(phase := InFrame(acc + [b], NextRun(ones, b), false))
  }

  function Step(past: nat -> bv16, st: Rx, t: Token): Rx {
    match st.phase
    case FlagSync => if t.Flag? then st.(phase := FrameSync) else st
    case FrameSync => if t.Flag? then st else st.(phase := InFrame([t.b], NextRun(0, t.b), false))
    case InFrame(acc, ones, skipped) =>
      if !skipped && ones == 5 then
        if t == Bit(false) then st.(phase := InFrame(acc, 0, true)) else st.(phase := FlagSync)
      else Continue(past, st, acc, ones, t)
  }

  /** The decoder run over the bits that have arrived; it blocks with fewer than eight left. */
  function Run(past: nat -> bv16, st: Rx, s: seq<bool>): Rx
    decreases |s|
  {
    if |s| < 8 then st else Run(past, Step(past, st, Lex(s)), s[Width(Lex(s))..])
  }

  /** The bits it has not yet taken when it blocks. */
  function Rest(s: seq<bool>): seq<bool>
    decreases |s|
  {
    if |s| < 8 then s else Rest(s[Width(Lex(s))..])
  }

  /** Bits that arrive later are decoded as if they had been there from the start. */
  lemma {:induction false} RunSplit(past: nat -> bv16, st: Rx, s: seq<bool>, more: seq<bool>)
    ensures Run(past, st, s + more) == Run(past, Run(past, st, s), Rest(s) + more)
    decreases |s|
  {
    if |s| >= 8 {
      var t := Lex(s);
      assert (s + more)[..8] == s[..8];
      assert (s + more)[Width(t)..] == s[Width(t)..] + more;
      RunSplit(past, Step(past, st, t), s[Width(t)..], more);
    }
  }

  // ---- The 16-bit window --------------------------------------------------------

  function Half(w: bv16): bv16 { w >> 1 }
  function Low(w: bv16): bool { w & 1 != 0 }
  function Or(w: bv16, x: bv16): bv16 { w | x }

  /** The `n` lowest bits of the window, the next one first. */
  function Window(w: bv16, n: nat): (r: seq<bool>)
    ensures |r| == n
    decreases n
  {
    if n == 0 then [] else [Low(w)] + Window(Half(w), n - 1)
  }

  /** No bit of the window is set above the `n` lowest. */
  predicate Clean(w: bv16, n: nat)
    decreases n
  {
    if n == 0 then w == 0 else Clean(Half(w), n - 1)
  }

  /** `byte << n` */
  function ShiftLeft(b: bv8, n: nat): bv16
    requires n < 8
  {
    match n
    case 0 => b as bv16
    case 1 => (b as bv16) << 1
    case 2 => (b as bv16) << 2
    case 3 => (b as bv16) << 3
    case 4 => (b as bv16) << 4
    case 5 => (b as bv16) << 5
    case 6 => (b as bv16) << 6
    case 7 => (b as bv16) << 7
  }

  lemma HalfShifted(b: bv8, n: nat)
    requires n < 7
    ensures Half(ShiftLeft(b, n + 1)) == ShiftLeft(b, n) && !Low(ShiftLeft(b, n + 1))
  {
  }

  lemma HalfOr(w: bv16, x: bv16)
    ensures Half(Or(w, x)) == Or(Half(w), Half(x))
  {
  }

  lemma LowOr(w: bv16, x: bv16)
    ensures Low(Or(w, x)) == (Low(w) || Low(x))
  {
  }

  lemma OrNone(b: bv8)
    ensures Or(0, ShiftLeft(b, 0)) == b as bv16
  {
  }

  lemma FirstOctet(b: bv8)
    ensures Window(b as bv16, 8) == OctetBits(b) && Clean(b as bv16, 8)
  {
    LowEight(b as bv16);
    Peel(b as bv16, 8, 0);
    assert (b as bv16) >> 8 == 0;
    assert ((b as bv16) & 255) as bv8 == b;
  }

  /** Adding an octet above a clean window appends its bits. */
  lemma {:induction false} AddOctet(w: bv16, n: nat, b: bv8)
    requires n < 8 && Clean(w, n)
    ensures Window(Or(w, ShiftLeft(b, n)), n + 8) == Window(w, n) + OctetBits(b)
    ensures Clean(Or(w, ShiftLeft(b, n)), n + 8)
    decreases n
  {
    hide Half, Low, Or, ShiftLeft, OctetBits;
    if n == 0 {
      FirstOctet(b);
      OrNone(b);
    } else {
      AddOctet(Half(w), n - 1, b);
      HalfShifted(b, n - 1);
      HalfOr(w, ShiftLeft(b, n));
      LowOr(w, ShiftLeft(b, n));
      Assoc([Low(w)], Window(Half(w), n - 1), OctetBits(b));
    }
  }

  /** The window after `k` bits are shifted out. */
  function Drop(w: bv16, k: nat): bv16
    decreases k
  {
    if k == 0 then w else Drop(Half(w), k - 1)
  }

  lemma {:induction false} Peel(w: bv16, k: nat, n: nat)
    ensures Window(w, k + n) == Window(w, k) + Window(Drop(w, k), n)
    ensures Clean(w, k + n) <==> Clean(Drop(w, k), n)
    decreases k
  {
    hide Half, Low;
    if k > 0 {
      Peel(Half(w), k - 1, n);
      Assoc([Low(w)], Window(Half(w), k - 1), Window(Drop(w, k), n));
    }
  }

  lemma {:induction false} DropSplit(w: bv16, j: nat, k: nat)
    ensures Drop(w, j + k) == Drop(Drop(w, j), k)
    decreases j
  {
    if j > 0 {
      DropSplit(Half(w), j - 1, k);
    }
  }

  lemma LowEight(w: bv16)
    ensures Drop(w, 8) == w >> 8
    ensures Window(w, 8) == OctetBits((w & 255) as bv8)
  {
    hide Window, Drop, OctetBits;
    LowBits(w);
    LowFour(w);
    LowFour(w >> 4);
    Peel(w, 4, 4);
    DropSplit(w, 4, 4);
    HighFour(w);
  }

  lemma HighFour(w: bv16)
    ensures (w >> 4) >> 4 == w >> 8
    ensures ((w >> 4) & 1 != 0) == (w & 16 != 0) && ((w >> 4) & 2 != 0) == (w & 32 != 0)
    ensures ((w >> 4) & 4 != 0) == (w & 64 != 0) && ((w >> 4) & 8 != 0) == (w & 128 != 0)
  {
  }

  lemma LowFour(w: bv16)
    ensures Drop(w, 4) == w >> 4
    ensures Window(w, 4) == [w & 1 != 0, w & 2 != 0, w & 4 != 0, w & 8 != 0]
  {
  }

  lemma LowBits(w: bv16)
    ensures OctetBits((w & 255) as bv8)
         == [w & 1 != 0, w & 2 != 0, w & 4 != 0, w & 8 != 0] + [w & 16 != 0, w & 32 != 0, w & 64 != 0, w & 128 != 0]
  {
  }

  predicate LowIsFlag(w: bv16) { (w & 255) as bv8 == FLAG }
  function DropOctet(w: bv16): bv16 { w >> 8 }

  lemma FlagTest(w: bv16, n: nat)
    requires n >= 8
    ensures LowIsFlag(w) <==> Window(w, n)[..8] == FLAG_BITS
    ensures Window(w, n)[8..] == Window(DropOctet(w), n - 8)
    ensures Clean(w, n) ==> Clean(DropOctet(w), n - 8)
  {
    Peel(w, 8, n - 8);
    LowEight(w);
    FlagBits();
    hide Window, OctetBits, Drop, Clean;
    assert Window(w, n)[..8] == OctetBits((w & 255) as bv8);
    if OctetBits((w & 255) as bv8) == FLAG_BITS {
      SplitIsInjective((w & 255) as bv8, FLAG);
    }
  }

  // ---- The decoder thread ---------------------------------------------------------

  /** The call of `get_bit` at which the thread waits. */
  datatype Site = AtFlagSync | AtFrameSync | AtBit | AfterStuffing

  function Ones(n: nat): seq<bv8> { seq(n, _ => 0xFF) }

  /** The octets as the lexer sees them: the first `k` read as all ones. */
  function Masked(s: seq<bv8>, k: nat): (r: seq<bv8>)
    ensures |r| == |s|
  {
    if k >= |s| then Ones(|s|) else Ones(k) + s[k..]
  }

  lemma MaskedCons(s: seq<bv8>, k: nat)
    requires s != []
    ensures BitsOf(Masked(s, k))
         == OctetBits(if k > 0 then 0xFF else s[0]) + BitsOf(Masked(s[1..], if k > 0 then k - 1 else 0))
  {
    hide OctetBits;
    assert Masked(s, k)[1..] == Masked(s[1..], if k > 0 then k - 1 else 0);
  }

  /** On bits: the first `n` read as ones. */
  function Swallowed(s: seq<bool>, n: nat): (r: seq<bool>)
    ensures |r| == |s|
  {
    seq(|s|, i requires 0 <= i < |s| => i < n || s[i])
  }

  lemma {:induction false} MaskedIsSwallowed(s: seq<bv8>, k: nat)
    ensures BitsOf(Masked(s, k)) == Swallowed(BitsOf(s), 8 * k)
    decreases |s|
  {
    hide OctetBits;
    if s == [] {
      assert Masked(s, k) == [];
    } else {
      var j := if k > 0 then k - 1 else 0;
      MaskedCons(s, k);
      MaskedIsSwallowed(s[1..], j);
      BitsOfCons(s);
      hide Masked, Swallowed, BitsOf;
      SwallowedConcat(OctetBits(s[0]), BitsOf(s[1..]), 8 * k);
      SwallowedOctet(s[0], k);
      assert k > 0 ==> 8 * k - 8 == 8 * j;
    }
  }

  lemma BitsOfCons(s: seq<bv8>)
    requires s != []
    ensures BitsOf(s) == OctetBits(s[0]) + BitsOf(s[1..])
  {
    hide OctetBits;
  }

  lemma SwallowedConcat(a: seq<bool>, b: seq<bool>, n: nat)
    ensures Swallowed(a + b, n) == Swallowed(a, n) + Swallowed(b, if n >= |a| then n - |a| else 0)
  {
  }

  lemma SwallowedOctet(b: bv8, k: nat)
    ensures Swallowed(OctetBits(b), 8 * k) == OctetBits(if k > 0 then 0xFF else b)
  {
    AllOnesOctet();
    hide OctetBits;
  }

  lemma AllOnesOctet()
    ensures OctetBits(0xFF) == [true, true, true, true, true, true, true, true]
  {
  }

  /** The all-ones window it starts with hides the first two octets. */
  lemma SwallowOctet(w: bv16, n: nat, b: bv8)
    requires (n == 0 && w == 0xFFFF) || (n == 7 && w == 0x7FFF)
    ensures Or(w, ShiftLeft(b, n)) == w
    ensures Window(w, n + 8) == Window(w, n) + OctetBits(0xFF)
    ensures n == 7 ==> Clean(w, 15)
  {
    Peel(w, n, 8);
    if n == 7 {
      AddOctet(0x7F, 7, 0xFF);
      assert Or(0x7F, ShiftLeft(0xFF, 7)) == 0x7FFF;
      assert Window(0x7F, 7) == Window(0x7FFF, 7) by { LowSeven(); }
    } else {
      LowEight(w);
    }
  }

  lemma LowSeven()
    ensures Window(0x7F, 7) == [true, true, true, true, true, true, true]
    ensures Window(0x7FFF, 7) == [true, true, true, true, true, true, true]
    ensures Clean(0x7F, 7)
  {
  }

  class Decoder {
    // get_bit
    var inq: seq<bv8>          // octets from the demodulator, oldest first
    var bits: bv16
    var bit_count: nat
    ghost var startup: nat     // octets still to be swallowed by the initial all-ones window

    // hdlc_rxdecoder
    var site: Site
    var octet: bv8
    var octet_bits: nat        // bits of the current octet, including the one just taken
    var ones_count: nat
    var length: nat
    var fbuf: seq<bv8>

    const past: nat -> bv16    // what the k-th check finds behind a full buffer slot
    var checks: nat
    var delivered: seq<Frame>  // frames handed to the subscribers

    ghost predicate WindowOk()
      reads this`bits, this`bit_count, this`startup
    {
      match startup
      case 0 => bit_count < 16 && Clean(bits, bit_count)
      case 1 => (bit_count == 7 && bits == 0x7FFF) || (bit_count == 8 && bits == 0xFFFF)
      case _ => startup == 2 && bit_count == 0 && bits == 0xFFFF
    }

    ghost predicate FrameOk()
      reads this`site, this`octet_bits, this`length, this`fbuf
    {
      site == AtBit || site == AfterStuffing ==> 1 <= octet_bits <= 8 && |fbuf| == length
    }

    /** The bits that are in the window or still to come through it. */
    ghost function Pending(): seq<bool>
      reads this`bits, this`bit_count, this`inq, this`startup
    {
      Window(bits, bit_count) + BitsOf(Masked(inq, startup))
    }

    /** The unstuffed bits of the frame so far. */
    ghost function Acc(): seq<bool>
      requires 1 <= octet_bits <= 8
      reads this`octet, this`octet_bits, this`fbuf
    {
      BitsOf(fbuf) + OctetBits(octet)[8 - octet_bits..]
    }

    ghost function State(): Rx
      requires FrameOk()
      reads this`site, this`octet, this`octet_bits, this`ones_count, this`length, this`fbuf, this`checks, this`delivered
    {
      Rx(match site
         case AtFlagSync => FlagSync
         case AtFrameSync => FrameSync
         case AtBit => InFrame(Acc(), ones_count, false)
         case AfterStuffing => InFrame(Acc(), ones_count, true),
         checks, delivered)
    }

    constructor (past: nat -> bv16)
      ensures this.past == past && WindowOk() && FrameOk()
      ensures State() == Rx(FlagSync, 0, [])
      ensures startup == 2 && Pending() == []
    {
      inq, bits, bit_count, startup := [], 0xFFFF, 0, 2;
      site, octet, octet_bits, ones_count, length, fbuf := AtFlagSync, 0, 0, 0, 0, [];
      this.past, checks, delivered := past, 0, [];
    }

    /** Takes the next octet into the window, above what is there. */
    method ReadOctet()
      requires WindowOk() && bit_count < 8 && inq != []
      modifies this`inq, this`bits, this`bit_count, this`startup
      ensures WindowOk() && bit_count == old(bit_count) + 8
      ensures Pending() == old(Pending())
    {
      hide Window, BitsOf, OctetBits, Clean, Or, ShiftLeft;
      ghost var was := bits;
      var byte := inq[0];
      MaskedCons(inq, startup);
      ghost var seen := if startup > 0 then 0xFF else byte;
      Assoc(Window(bits, bit_count), OctetBits(seen), BitsOf(Masked(inq[1..], if startup > 0 then startup - 1 else 0)));
      if startup == 0 {
        AddOctet(bits, bit_count, byte);
      } else {
        SwallowOctet(bits, bit_count, byte);
      }
      bits := Or(bits, ShiftLeft(byte, bit_count));
      bit_count := bit_count + 8;
      inq := inq[1..];
      startup := if startup > 0 then startup - 1 else 0;
    }

    /** One call of `get_bit` that does not block. */
    method GetBit() returns (t: Token)
      requires WindowOk() && |Pending()| >= 8
      modifies this`inq, this`bits, this`bit_count, this`startup
      ensures WindowOk()
      ensures t == Lex(old(Pending())) && Pending() == old(Pending())[Width(t)..]
    {
      hide Window, BitsOf, Clean, Low, Half, LowIsFlag, DropOctet, Masked;
      if bit_count < 8 {
        ReadOctet();
      }
      FlagTest(bits, bit_count);
      WindowCons(bits, bit_count);
      AllOnes();
      TakeFront(Window(bits, bit_count), BitsOf(Masked(inq, startup)));
      if LowIsFlag(bits) {
        bits := DropOctet(bits);
        bit_count := bit_count - 8;
        t := Flag;
      } else {
        t := Bit(Low(bits));
        bits := Half(bits);
        bit_count := bit_count - 1;
      }
    }
  
    /** `octet = (bit ? 0x80 : 0x00) | (octet >> 1)` and the count of ones, up to the next `get_bit`. */
    method Absorb(t: Token)
      requires octet_bits <= 8 && |fbuf| == length
      requires 1 <= octet_bits
      modifies this`octet, this`ones_count, this`site
      ensures FrameOk()
      ensures t.Flag? ==> site == AtFrameSync
      ensures t.Bit? ==> site == AtBit && ones_count == NextRun(old(ones_count), t.b)
      ensures t.Bit? ==> OctetBits(octet) == OctetBits(old(octet))[1..] + [t.b]
    {
      hide OctetBits, PushTop;
      if t == Flag {
        site := AtFrameSync;
      } else {
        PushTopBits(octet, t.b);
        octet := PushTop(octet, t.b);
        ones_count := if t.b then ones_count + 1 else 0;
        site := AtBit;
      }
    }

    /** The top of the outer loop: gives up on a frame that has grown too long. */
    method StartOctet(b: bool)
      requires |fbuf| == length
      modifies this`octet, this`octet_bits, this`ones_count, this`site
      ensures FrameOk()
      ensures length > MAX_FRAME_SIZE ==> State() == old(Rx(FlagSync, checks, delivered))
      ensures length <= MAX_FRAME_SIZE ==>
                State() == old(Rx(InFrame(BitsOf(fbuf) + [b], NextRun(ones_count, b), false), checks, delivered))
    {
      hide OctetBits, BitsOf;
      if length > MAX_FRAME_SIZE {
        site := AtFlagSync;
      } else {
        octet_bits := 1;
        Absorb(Bit(b));
        assert OctetBits(octet)[7..] == [b];
      }
    }
  
    /** `crc_match` on the frame in the buffer. */
    method CheckCrc() returns (ok: bool)
      requires |fbuf| == length && length >= 2
      ensures ok == CrcMatch(past(checks), fbuf)
    {
      hide Crc16.Update, Crc16.Fold;
      var short := length % 256;         // the parameter is a uint8_t
      var crc := Crc16.INITIAL;
      var i := 0;
      Crc16.CrcOfNone();
      while i + 2 < short
        invariant 0 <= i <= CheckedLength(length)
        invariant crc == Crc16.Crc(fbuf[..i])
      {
        assert fbuf[..i + 1] == fbuf[..i] + [fbuf[i]];
        Crc16.CrcSnoc(fbuf[..i], fbuf[i]);
        crc := Crc16.Update(crc, fbuf[i]);
        i := i + 1;
      }
      var rcrc := if i > 0 && i % SLOT_SIZE == 0 then past(checks) else Crc16.Received(fbuf[i], fbuf[i + 1]);
      ok := crc == rcrc;
    }

    /** A flag ended the frame on an octet boundary. */
    method FinishFrame()
      requires |fbuf| == length
      modifies this`site, this`checks, this`delivered
      ensures FrameOk()
      ensures State() == EndFrame(past, old(checks), old(delivered), fbuf)
    {
      if length > MIN_LENGTH {
        var ok := CheckCrc();
        if ok {
          delivered := delivered + [fbuf[..length - 2]];
        }
        checks := checks + 1;
      }
      site := AtFrameSync;
    }

    /** The end of the inner loop's body, with the next unstuffed token in hand. */
    method AfterBit(t: Token)
      requires FrameOk() && (site == AtBit || site == AfterStuffing)
      modifies this`site, this`octet, this`octet_bits, this`ones_count, this`length, this`fbuf, this`checks, this`delivered
      ensures FrameOk()
      ensures State() == old(Continue(past, State(), Acc(), ones_count, t))
    {
      if octet_bits < 8 {
        InOctet(t);
      } else {
        NextOctet(t);
      }
    }

    /** Inside an octet. */
    method InOctet(t: Token)
      requires FrameOk() && (site == AtBit || site == AfterStuffing) && octet_bits < 8
      modifies this`site, this`octet, this`octet_bits, this`ones_count
      ensures FrameOk()
      ensures State() == old(Continue(past, State(), Acc(), ones_count, t))
    {
      hide OctetBits, BitsOf, OctetsOf, EndFrame;
      ghost var o := OctetBits(octet);
      octet_bits := octet_bits + 1;
      Absorb(t);
      if t.Bit? {
        assert (o[1..] + [t.b])[8 - octet_bits..] == o[8 - (octet_bits - 1)..] + [t.b];
        Assoc(BitsOf(fbuf), o[8 - (octet_bits - 1)..], [t.b]);
      }
    }

    /** At the end of an octet. */
    method NextOctet(t: Token)
      requires FrameOk() && (site == AtBit || site == AfterStuffing) && octet_bits == 8
      modifies this`site, this`octet, this`octet_bits, this`ones_count, this`length, this`fbuf, this`checks, this`delivered
      ensures FrameOk()
      ensures State() == old(Continue(past, State(), Acc(), ones_count, t))
    {
      hide OctetBits, BitsOf, OctetsOf, EndFrame;
      assert OctetBits(octet)[0..] == OctetBits(octet);
      BitsOfSnoc(fbuf, octet);
      fbuf := fbuf + [octet];
      length := length + 1;
      OctetsOfBitsOf(fbuf);
      match t
      case Flag => FinishFrame();
      case Bit(b) => StartOctet(b);
    }

    /** What the thread does with a token until it next calls `get_bit`. */
    method Resume(t: Token)
      requires FrameOk()
      modifies this`site, this`octet, this`octet_bits, this`ones_count, this`length, this`fbuf, this`checks, this`delivered
      ensures FrameOk()
      ensures State() == old(Step(past, State(), t))
    {
      hide OctetBits, BitsOf, Continue;
      match site
      case AtFlagSync =>
        if t == Flag { site := AtFrameSync; }
      case AtFrameSync =>
        if t.Bit? {
          length, ones_count, octet, fbuf := 0, 0, 0, [];
          NoOctets(t.b);
          StartOctet(t.b);
        }
      case AtBit =>
        if ones_count == 5 {
          if t != Bit(false) {
            site := AtFlagSync;
          } else {
            ones_count := 0;
            site := AfterStuffing;
          }
        } else {
          AfterBit(t);
        }
      case AfterStuffing => AfterBit(t);
    }

    /** The thread until it blocks for want of an octet. */
    method Decode()
      requires WindowOk() && FrameOk()
      modifies this
      ensures WindowOk() && FrameOk()
      ensures State() == old(Run(past, State(), Pending()))
      ensures Pending() == old(Rest(Pending())) && |Pending()| < 8
    {
      hide Step, Pending, State, Acc;
      ghost var st, s := State(), Pending();
      while bit_count >= 8 || inq != []
        invariant WindowOk() && FrameOk()
        invariant Run(past, st, s) == Run(past, State(), Pending())
        invariant Rest(s) == Rest(Pending())
        decreases |Pending()|
      {
        PendingLength();
        var t := GetBit();
        Resume(t);
      }
      PendingLength();
    }

    lemma PendingLength()
      ensures |Pending()| == bit_count + 8 * |inq|
    {
    }
  }

  lemma NoOctets(b: bool)
    ensures BitsOf([]) + [b] == [b]
  {
  }

  lemma TakeFront(w: seq<bool>, tail: seq<bool>)
    requires |w| >= 8
    ensures (w + tail)[..8] == w[..8] && (w + tail)[0] == w[0]
    ensures (w + tail)[8..] == w[8..] + tail && (w + tail)[1..] == w[1..] + tail
  {
  }

  lemma WindowCons(w: bv16, n: nat)
    requires n > 0
    ensures Window(w, n)[0] == Low(w) && Window(w, n)[1..] == Window(Half(w), n - 1)
    ensures Clean(w, n) ==> Clean(Half(w), n - 1)
  {
    hide Low, Half;
  }

  lemma AllOnes()
    ensures Half(0xFFFF) == 0x7FFF
    ensures !LowIsFlag(0xFFFF)
  {
  }
}
