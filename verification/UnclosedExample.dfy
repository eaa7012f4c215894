/** An ordinary AX.25 frame that is sent without its last stuffed zero. */
module UnclosedExample {
  import opened Bits
  import opened HdlcFraming
  import opened HdlcDelivery
  import Crc16
  import Ax25

  /** A UI frame from NOCALL to APAT01, with no digipeaters. */
  const HEADER: Ax25.Header := Ax25.Header(
    Ax25.Addr([0x41, 0x50, 0x41, 0x54, 0x30, 0x31], 0, 0), Ax25.Addr([0x4E, 0x4F, 0x43, 0x41, 0x4C, 0x4C], 0, 0),
    [], 0x03, 0xF0)

  /** The status report "A". */
  const INFORMATION: seq<bv8> := [0x3E, 0x41]

  const FRAME: Frame := [
    0x82, 0xA0, 0x82, 0xA8, 0x60, 0x62, 0x60,
    0x9C, 0x9E, 0x86, 0x82, 0x98, 0x98, 0x61,
    0x03, 0xF0, 0x3E, 0x41]

  /** Its FCS is 0xEE, 0xFA: the last five bits are ones. */
  lemma UnclosedExists()
    ensures Ax25.GoodHeader(HEADER) && FRAME == Ax25.Encoded(HEADER) + INFORMATION
    ensures Unclosed(FRAME)
  {
    HeaderOctets();
    ExampleCrc();
    ExampleFcs();
    hide Crc16.Fcs, Crc16.Crc, BitsOf, OctetBits, Ax25.Encoded;
    var f := FRAME;
    assert f + [0xEE, 0xFA] == f + [0xEE] + [0xFA];
    BitsOfSnoc(f + [0xEE], 0xFA);
    LastOctet();
    EndsInFive(FrameBits(f), BitsOf(f + [0xEE]) + [false, true]);
  }

  lemma ToOctets()
    ensures Ax25.AddrOctets(HEADER.to.callsign, 0, 0) == FRAME[..7]
  {
  }

  lemma FromOctets()
    ensures Ax25.AddrOctets(HEADER.from.callsign, 0, Ax25.WithLast(0, true)) == FRAME[7..14]
  {
  }

  lemma HeaderOctets()
    ensures Ax25.GoodHeader(HEADER) && FRAME == Ax25.Encoded(HEADER) + INFORMATION
  {
    ToOctets();
    FromOctets();
    hide Ax25.AddrOctets, Ax25.WithLast;
    assert Ax25.HasPid(0x03);
    assert FRAME == FRAME[..7] + FRAME[7..14] + [0x03, 0xF0] + INFORMATION;
  }

  lemma LastOctet()
    ensures OctetBits(0xFA) == [false, true] + [false] + [true, true, true, true, true]
  {
  }

  lemma EndsInFive(s: seq<bool>, head: seq<bool>)
    requires s == head + [false] + [true, true, true, true, true]
    ensures TrailingOnes(s) == 5
  {
    var n := |s|;
    assert TrailingOnes(s[..n - 5]) == 0;
    assert s[..n - 1][..n - 2] == s[..n - 2] && s[..n - 2][..n - 3] == s[..n - 3];
    assert s[..n - 3][..n - 4] == s[..n - 4] && s[..n - 4][..n - 5] == s[..n - 5];
    assert TrailingOnes(s[..n - 4]) == 1;
    assert TrailingOnes(s[..n - 3]) == 2;
    assert TrailingOnes(s[..n - 2]) == 3;
    assert TrailingOnes(s[..n - 1]) == 4;
  }

  lemma ExampleCrc()
    ensures Crc16.Crc(FRAME) == 0x0511
  {
    Octets0To2();
    Octets3To5();
    Octets6To8();
    Octets9To11();
    Octets12To14();
    Octets15To17();
    assert FRAME[0..] == FRAME && FRAME[18..] == [];
  }

  lemma FoldStep(crc: bv16, k: nat)
    requires k < |FRAME|
    ensures Crc16.Fold(crc, FRAME[k..]) == Crc16.Fold(Crc16.Update(crc, FRAME[k]), FRAME[k + 1..])
  {
    assert FRAME[k..][1..] == FRAME[k + 1..];
  }

  lemma Octets0To2()
    ensures Crc16.Fold(0xFFFF, FRAME[0..]) == Crc16.Fold(0x8882, FRAME[3..])
  {
    Updates0To2();
    hide Crc16.Update, Crc16.Fold;
    FoldStep(0xFFFF, 0);
    FoldStep(0xA89D, 1);
    FoldStep(0xEACE, 2);
  }

  lemma Updates0To2()
    ensures Crc16.Update(0xFFFF, 0x82) == 0xA89D
    ensures Crc16.Update(0xA89D, 0xA0) == 0xEACE
    ensures Crc16.Update(0xEACE, 0x82) == 0x8882
  {
  }

  lemma Octets3To5()
    ensures Crc16.Fold(0x8882, FRAME[3..]) == Crc16.Fold(0x170C, FRAME[6..])
  {
    Updates3To5();
    hide Crc16.Update, Crc16.Fold;
    FoldStep(0x8882, 3);
    FoldStep(0x8ED0, 4);
    FoldStep(0xB505, 5);
  }

  lemma Updates3To5()
    ensures Crc16.Update(0x8882, 0xA8) == 0x8ED0
    ensures Crc16.Update(0x8ED0, 0x60) == 0xB505
    ensures Crc16.Update(0xB505, 0x62) == 0x170C
  {
  }

  lemma Octets6To8()
    ensures Crc16.Fold(0x170C, FRAME[6..]) == Crc16.Fold(0xB57D, FRAME[9..])
  {
    Updates6To8();
    hide Crc16.Update, Crc16.Fold;
    FoldStep(0x170C, 6);
    FoldStep(0xA97D, 7);
    FoldStep(0xF62E, 8);
  }

  lemma Updates6To8()
    ensures Crc16.Update(0x170C, 0x60) == 0xA97D
    ensures Crc16.Update(0xA97D, 0x9C) == 0xF62E
    ensures Crc16.Update(0xF62E, 0x9E) == 0xB57D
  {
  }

  lemma Octets9To11()
    ensures Crc16.Fold(0xB57D, FRAME[9..]) == Crc16.Fold(0x46F9, FRAME[12..])
  {
    Updates9To11();
    hide Crc16.Update, Crc16.Fold;
    FoldStep(0xB57D, 9);
    FoldStep(0x49E9, 10);
    FoldStep(0xDD9C, 11);
  }

  lemma Updates9To11()
    ensures Crc16.Update(0xB57D, 0x86) == 0x49E9
    ensures Crc16.Update(0x49E9, 0x82) == 0xDD9C
    ensures Crc16.Update(0xDD9C, 0x98) == 0x46F9
  {
  }

  lemma Octets12To14()
    ensures Crc16.Fold(0x46F9, FRAME[12..]) == Crc16.Fold(0x0331, FRAME[15..])
  {
    Updates12To14();
    hide Crc16.Update, Crc16.Fold;
    FoldStep(0x46F9, 12);
    FoldStep(0x72C9, 13);
    FoldStep(0x2930, 14);
  }

  lemma Updates12To14()
    ensures Crc16.Update(0x46F9, 0x98) == 0x72C9
    ensures Crc16.Update(0x72C9, 0x61) == 0x2930
    ensures Crc16.Update(0x2930, 0x03) == 0x0331
  {
  }

  lemma Octets15To17()
    ensures Crc16.Fold(0x0331, FRAME[15..]) == Crc16.Fold(0x0511, FRAME[18..])
  {
    Updates15To17();
    hide Crc16.Update, Crc16.Fold;
    FoldStep(0x0331, 15);
    FoldStep(0xD786, 16);
    FoldStep(0x3914, 17);
  }

  lemma Updates15To17()
    ensures Crc16.Update(0x0331, 0xF0) == 0xD786
    ensures Crc16.Update(0xD786, 0x3E) == 0x3914
    ensures Crc16.Update(0x3914, 0x41) == 0x0511
  {
  }

  lemma ExampleFcs()
    ensures Crc16.Crc(FRAME) == 0x0511 ==> Crc16.Fcs(FRAME) == [0xEE, 0xFA]
  {
    hide Crc16.Crc;
  }
}
