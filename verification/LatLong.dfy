/** Compressed coordinates (chapter 9 of APRS Protocol Reference 1.0.1): a latitude or
    longitude as four printable base-91 digits. Positions are real numbers here. */
module LatLong {
  const ASCII_BASE: nat := 33
  const BASE: nat := 91

  /** Steps to a degree. */
  function Scale(is_longitude: bool): nat { if is_longitude then 190463 else 380926 }

  /** What is scaled and cut to an integer. */
  function Distance(pos: real, is_longitude: bool): real {
    if is_longitude then 180.0 + pos else 90.0 - pos
  }

  predicate ValidPosition(pos: real, is_longitude: bool) {
    if is_longitude then -180.0 <= pos <= 180.0 else -90.0 <= pos <= 90.0
  }

  /** The value in base 91 of printable characters. */
  function Decode(s: seq<nat>): int {
    if s == [] then 0 else Decode(s[..|s| - 1]) * BASE + (s[|s| - 1] - ASCII_BASE)
  }

  /** The position that a decoded value stands for. */
  function Position(v: int, is_longitude: bool): real {
    if is_longitude then v as real / 190463.0 - 180.0 else 90.0 - v as real / 380926.0
  }

  lemma DecodeFour(a: nat, b: nat, c: nat, d: nat)
    ensures Decode([a, b, c, d]) == (a - 33) * 753571 + (b - 33) * 8281 + (c - 33) * 91 + (d - 33)
  {
    assert [a, b, c, d][..3] == [a, b, c] && [a, b, c][..2] == [a, b] && [a, b][..1] == [a] && [a][..0] == [];
    assert Decode([a]) == a - 33 && Decode([a, b]) == (a - 33) * 91 + (b - 33);
    assert Decode([a, b, c]) == Decode([a, b]) * 91 + (c - 33);
  }

  /** `send_latlong_compressed` for a value already scaled; `lround` of an integer is itself. */
  method SendScaled(start: nat) returns (packet: seq<nat>)
    requires start < 94 * 753571
    ensures |packet| == 4 && Decode(packet) == start
    ensures 33 <= packet[0] <= 126 && forall k :: 1 <= k < 4 ==> 33 <= packet[k] <= 123
    ensures start < 91 * 753571 ==> packet[0] <= 123
  {
    var v := start;
    packet := [v / 753571 + ASCII_BASE];
    v := v % 753571;
    packet := packet + [v / 8281 + ASCII_BASE];
    v := v % 8281;
    packet := packet + [v / 91 + ASCII_BASE];
    v := v % 91;
    packet := packet + [v + ASCII_BASE];
    DecodeFour(packet[0], packet[1], packet[2], packet[3]);
    assert packet == [packet[0], packet[1], packet[2], packet[3]];
  }

  lemma ScaledFits(pos: real, is_longitude: bool)
    requires ValidPosition(pos, is_longitude)
    ensures 0 <= (Scale(is_longitude) as real * Distance(pos, is_longitude)).Floor < 91 * 753571
  {
  }

  /** The scaled value is the position to within one step, and never beyond it. */
  lemma ErrorIsBelowOneStep(pos: real, is_longitude: bool)
    ensures var v := (Scale(is_longitude) as real * Distance(pos, is_longitude)).Floor;
            var e := Position(v, is_longitude) - pos;
            if is_longitude then -1.0 / 190463.0 < e <= 0.0 else 0.0 <= e < 1.0 / 380926.0
  {
    var s := Scale(is_longitude) as real;
    var x := s * Distance(pos, is_longitude);
    assert x - 1.0 < x.Floor as real <= x;
  }

  /** `send_latlong_compressed`: four printable characters that decode to a position less than
      one step away, to the west of or north of the true one. */
  method SendLatLong(pos: real, is_longitude: bool) returns (packet: seq<nat>)
    requires ValidPosition(pos, is_longitude)
    ensures |packet| == 4 && forall k :: 0 <= k < 4 ==> 33 <= packet[k] <= 123
    ensures var e := Position(Decode(packet), is_longitude) - pos;
            if is_longitude then -1.0 / 190463.0 < e <= 0.0 else 0.0 <= e < 1.0 / 380926.0
  {
    ScaledFits(pos, is_longitude);
    ErrorIsBelowOneStep(pos, is_longitude);
    var v := (Scale(is_longitude) as real * Distance(pos, is_longitude)).Floor;
    packet := SendScaled(v);
  }
}
