/** Octets as sequences of bits, least significant bit first: the order in which
    section 3.8 of AX.25 v2.2 sends them. */
module Bits {

  lemma Assoc<T>(a: seq<T>, b: seq<T>, c: seq<T>)
    ensures (a + b) + c == a + (b + c)
  {
  }

  /** The eight bits of an octet, least significant first. */
  function OctetBits(b: bv8): (r: seq<bool>)
    ensures |r| == 8
  {
    [b & 1 != 0, b & 2 != 0, b & 4 != 0, b & 8 != 0, b & 16 != 0, b & 32 != 0, b & 64 != 0, b & 128 != 0]
  }

  /** By the numbers: bit `k` is what is left of division by two, after division by the `k`-th
      power of two. */
  lemma BitByNumber(b: bv8)
    ensures OctetBits(b) == [b % 2 == 1, b / 2 % 2 == 1, b / 4 % 2 == 1, b / 8 % 2 == 1,
                             b / 16 % 2 == 1, b / 32 % 2 == 1, b / 64 % 2 == 1, b / 128 % 2 == 1]
  {
  }

  /** `0x01 << k` */
  function Mask(k: nat): bv8
    requires k < 8
  {
    if k == 0 then 0x01 else if k == 1 then 0x02 else if k == 2 then 0x04 else if k == 3 then 0x08
    else if k == 4 then 0x10 else if k == 5 then 0x20 else if k == 6 then 0x40 else 0x80
  }

  lemma MaskIs(b: bv8, k: nat)
    requires k < 8
    ensures OctetBits(b)[k] == (b & Mask(k) != 0)
  {
  }

  lemma MaskIsSet(k: nat)
    requires k < 8
    ensures Mask(k) != 0
  {
  }

  function Join(b0: bool, b1: bool, b2: bool, b3: bool, b4: bool, b5: bool, b6: bool, b7: bool): bv8 {
    (if b0 then 1 else 0) | (if b1 then 2 else 0) | (if b2 then 4 else 0) | (if b3 then 8 else 0)
    | (if b4 then 16 else 0) | (if b5 then 32 else 0) | (if b6 then 64 else 0) | (if b7 then 128 else 0)
  }

  lemma JoinedBits(b0: bool, b1: bool, b2: bool, b3: bool, b4: bool, b5: bool, b6: bool, b7: bool)
    ensures OctetBits(Join(b0, b1, b2, b3, b4, b5, b6, b7)) == [b0, b1, b2, b3, b4, b5, b6, b7]
  {
    var b := Join(b0, b1, b2, b3, b4, b5, b6, b7);
    assert (b & 1 != 0) == b0 && (b & 2 != 0) == b1 && (b & 4 != 0) == b2 && (b & 8 != 0) == b3;
    assert (b & 16 != 0) == b4 && (b & 32 != 0) == b5 && (b & 64 != 0) == b6 && (b & 128 != 0) == b7;
  }

  /** The octet that eight bits make up. */
  function PackOctet(s: seq<bool>): (b: bv8)
    requires |s| == 8
  {
    Join(s[0], s[1], s[2], s[3], s[4], s[5], s[6], s[7])
  }

  lemma PackThenSplit(s: seq<bool>)
    requires |s| == 8
    ensures OctetBits(PackOctet(s)) == s
  {
    assert s == [s[0], s[1], s[2], s[3], s[4], s[5], s[6], s[7]];
    JoinedBits(s[0], s[1], s[2], s[3], s[4], s[5], s[6], s[7]);
  }

  lemma SplitIsInjective(a: bv8, b: bv8)
    requires OctetBits(a) == OctetBits(b)
    ensures a == b
  {
    var x, y := OctetBits(a), OctetBits(b);
    assert forall i :: 0 <= i < 8 ==> x[i] == y[i];
    assert a & 1 == b & 1 by { assert x[0] == y[0]; }
    assert a & 2 == b & 2 by { assert x[1] == y[1]; }
    assert a & 4 == b & 4 by { assert x[2] == y[2]; }
    assert a & 8 == b & 8 by { assert x[3] == y[3]; }
    assert a & 16 == b & 16 by { assert x[4] == y[4]; }
    assert a & 32 == b & 32 by { assert x[5] == y[5]; }
    assert a & 64 == b & 64 by { assert x[6] == y[6]; }
    assert a & 128 == b & 128 by { assert x[7] == y[7]; }
  }

  lemma SplitThenPack(b: bv8)
    ensures PackOctet(OctetBits(b)) == b
  {
    PackThenSplit(OctetBits(b));
    SplitIsInjective(PackOctet(OctetBits(b)), b);
  }

  /** The bit stream of a sequence of octets. */
  function BitsOf(s: seq<bv8>): (r: seq<bool>)
    ensures |r| == 8 * |s|
  {
    if s == [] then [] else OctetBits(s[0]) + BitsOf(s[1..])
  }

  lemma {:induction false} BitsOfConcat(a: seq<bv8>, b: seq<bv8>)
    ensures BitsOf(a + b) == BitsOf(a) + BitsOf(b)
  {
    if a == [] {
      assert a + b == b;
    } else {
      BitsOfConcat(a[1..], b);
      assert (a + b)[1..] == a[1..] + b;
      Assoc(OctetBits(a[0]), BitsOf(a[1..]), BitsOf(b));
    }
  }

  lemma BitsOfSnoc(a: seq<bv8>, b: bv8)
    ensures BitsOf(a + [b]) == BitsOf(a) + OctetBits(b)
  {
    BitsOfConcat(a, [b]);
    assert BitsOf([b]) == OctetBits(b) + BitsOf([]);
  }

  /** The whole octets of a bit stream; a tail of fewer than eight bits is dropped. */
  function OctetsOf(s: seq<bool>): (r: seq<bv8>)
    ensures |r| == |s| / 8
  {
    if |s| < 8 then [] else [PackOctet(s[..8])] + OctetsOf(s[8..])
  }

  lemma {:induction false} OctetsOfBitsOf(s: seq<bv8>)
    ensures OctetsOf(BitsOf(s)) == s
  {
    if s != [] {
      var t := BitsOf(s);
      assert t[..8] == OctetBits(s[0]);
      assert t[8..] == BitsOf(s[1..]);
      SplitThenPack(s[0]);
      OctetsOfBitsOf(s[1..]);
    }
  }

  lemma {:induction false} BitsOfOctetsOf(s: seq<bool>)
    requires |s| % 8 == 0
    ensures BitsOf(OctetsOf(s)) == s
  {
    if |s| >= 8 {
      PackThenSplit(s[..8]);
      BitsOfOctetsOf(s[8..]);
      assert OctetsOf(s)[1..] == OctetsOf(s[8..]);
      assert s == s[..8] + s[8..];
    }
  }

  /** Reading one more whole octet appends it. */
  lemma {:induction false} OctetsOfSnoc(s: seq<bool>, t: seq<bool>)
    requires |s| % 8 == 0 && |t| == 8
    ensures OctetsOf(s + t) == OctetsOf(s) + [PackOctet(t)]
  {
    if s == [] {
      assert s + t == t;
      assert t[..8] == t;
    } else {
      assert (s + t)[..8] == s[..8];
      assert (s + t)[8..] == s[8..] + t;
      OctetsOfSnoc(s[8..], t);
    }
  }

  /** A shift towards the low end drops the lowest bit. */
  lemma ShiftDown(v: bv8)
    ensures OctetBits(v >> 1) == OctetBits(v)[1..] + [false]
  {
    var w := v >> 1;
    assert (w & 1 != 0) == (v & 2 != 0);
    assert (w & 2 != 0) == (v & 4 != 0);
    assert (w & 4 != 0) == (v & 8 != 0);
    assert (w & 8 != 0) == (v & 16 != 0);
    assert (w & 16 != 0) == (v & 32 != 0);
    assert (w & 32 != 0) == (v & 64 != 0);
    assert (w & 64 != 0) == (v & 128 != 0);
    assert w & 128 == 0;
  }

  /** Shifts an octet down and puts a bit on top: how both receivers gather octets. */
  function PushTop(octet: bv8, bit: bool): bv8 {
    (octet >> 1) | (if bit then 0x80 else 0x00)
  }

  lemma PushTopBits(octet: bv8, bit: bool)
    ensures OctetBits(PushTop(octet, bit)) == OctetBits(octet)[1..] + [bit]
  {
    ShiftDown(octet);
    TopBit(octet >> 1, bit);
    var w := OctetBits(octet >> 1);
    assert w == OctetBits(octet)[1..] + [false];
    hide OctetBits;
  }

  lemma TopBit(v: bv8, bit: bool)
    requires v & 0x80 == 0
    ensures OctetBits(v | (if bit then 0x80 else 0)) == OctetBits(v)[..7] + [bit]
  {
    var w := v | (if bit then 0x80 else 0);
    assert w & 1 == v & 1;
    assert w & 2 == v & 2;
    assert w & 4 == v & 4;
    assert w & 8 == v & 8;
    assert w & 16 == v & 16;
    assert w & 32 == v & 32;
    assert w & 64 == v & 64;
    assert (w & 128 != 0) == bit;
  }
}
