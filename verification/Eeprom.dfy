/** The EEPROM, memory that is written in cells of one, two or four octets. */
module Eeprom {
  const EEPROM_SIZE: nat := 1024

  // ---- Words as octets, the low one first ----------------------------------------------

  function Octet16(v: bv16, k: nat): bv8
    requires k < 2
  {
    if k == 0 then (v & 0xFF) as bv8 else ((v >> 8) & 0xFF) as bv8
  }

  function Octet32(v: bv32, k: nat): bv8
    requires k < 4
  {
    if k == 0 then (v & 0xFF) as bv8 else if k == 1 then ((v >> 8) & 0xFF) as bv8
    else if k == 2 then ((v >> 16) & 0xFF) as bv8 else ((v >> 24) & 0xFF) as bv8
  }

  function Octets16(v: bv16): seq<bv8> { [Octet16(v, 0), Octet16(v, 1)] }

  function Octets32(v: bv32): seq<bv8> { [Octet32(v, 0), Octet32(v, 1), Octet32(v, 2), Octet32(v, 3)] }

  function Word16(a: bv8, b: bv8): bv16 { (a as bv16) | ((b as bv16) << 8) }

  function Word32(a: bv8, b: bv8, c: bv8, d: bv8): bv32 {
    (a as bv32) | ((b as bv32) << 8) | ((c as bv32) << 16) | ((d as bv32) << 24)
  }

  /** The numbers that the octets stand for. */
  lemma Octets16ByNumber(v: bv16)
    ensures v == (Octets16(v)[0] as bv16) + 0x100 * (Octets16(v)[1] as bv16)
  {
  }

  lemma Octets32ByNumber(v: bv32)
    ensures v == (Octets32(v)[0] as bv32) + 0x100 * (Octets32(v)[1] as bv32)
               + 0x1_0000 * (Octets32(v)[2] as bv32) + 0x100_0000 * (Octets32(v)[3] as bv32)
  {
  }

  lemma Word16Octets(a: bv8, b: bv8)
    ensures Octet16(Word16(a, b), 0) == a && Octet16(Word16(a, b), 1) == b
  {
  }

  lemma Word32Low(a: bv8, b: bv8, c: bv8, d: bv8)
    ensures Octet32(Word32(a, b, c, d), 0) == a && Octet32(Word32(a, b, c, d), 1) == b
  {
  }

  lemma Word32High(a: bv8, b: bv8, c: bv8, d: bv8)
    ensures Octet32(Word32(a, b, c, d), 2) == c && Octet32(Word32(a, b, c, d), 3) == d
  {
  }

  /** The bits of `v` from bit `8 * k` on, cut to sixteen. */
  function Half(v: bv32, k: nat): bv16
    requires k < 3
  {
    if k == 0 then (v & 0xFFFF) as bv16 else if k == 1 then ((v >> 8) & 0xFFFF) as bv16 else ((v >> 16) & 0xFFFF) as bv16
  }

  lemma HalfOctets(v: bv32, k: nat)
    requires k < 3
    ensures Octet16(Half(v, k), 0) == Octet32(v, k) && Octet16(Half(v, k), 1) == Octet32(v, k + 1)
  {
  }

  // ---- What writing octet by octet comes to -----------------------------------------------

  /** `m` with `data` written from `offset` on; what lies beyond the end is dropped. */
  function Written(m: seq<bv8>, offset: nat, data: seq<bv8>): (r: seq<bv8>)
    ensures |r| == |m|
  {
    seq(|m|, i requires 0 <= i < |m| => if offset <= i < offset + |data| then data[i - offset] else m[i])
  }

  /** One octet after the other. */
  function ByteByByte(m: seq<bv8>, offset: nat, data: seq<bv8>): (r: seq<bv8>)
    ensures |r| == |m|
    decreases |data|
  {
    if data == [] then m
    else ByteByByte(if offset < |m| then m[offset := data[0]] else m, offset + 1, data[1..])
  }

  lemma {:induction false} WrittenIsByteByByte(m: seq<bv8>, offset: nat, data: seq<bv8>)
    ensures Written(m, offset, data) == ByteByByte(m, offset, data)
    decreases |data|
  {
    if data != [] {
      WrittenIsByteByByte(if offset < |m| then m[offset := data[0]] else m, offset + 1, data[1..]);
    } else {
      assert Written(m, offset, data) == m;
    }
  }

  lemma WrittenConcat(m: seq<bv8>, offset: nat, a: seq<bv8>, b: seq<bv8>)
    ensures Written(Written(m, offset, a), offset + |a|, b) == Written(m, offset, a + b)
  {
  }

  lemma WrittenNothing(m: seq<bv8>, offset: nat)
    ensures Written(m, offset, []) == m
  {
  }

  lemma WrittenClipped(m: seq<bv8>, offset: nat, data: seq<bv8>, n: nat)
    requires n <= |data| && offset + n >= |m|
    ensures Written(m, offset, data[..n]) == Written(m, offset, data)
  {
  }

  /** What is read back after a write: the data where it went, the old contents elsewhere. */
  lemma ReadBack(m: seq<bv8>, offset: nat, data: seq<bv8>, at: nat, n: nat)
    requires at + n <= |m|
    ensures at == offset && n <= |data| ==> Written(m, offset, data)[at..at + n] == data[..n]
    ensures at + n <= offset || offset + |data| <= at ==> Written(m, offset, data)[at..at + n] == m[at..at + n]
  {
  }

  class Memory {
    const cells: array<bv8>

    ghost predicate Valid()
    {
      cells.Length == EEPROM_SIZE
    }

    constructor ()
      ensures Valid() && fresh(cells) && cells.Length == 1024
    {
      cells := new bv8[EEPROM_SIZE];
    }

    // ---- The hardware's stores: within one aligned cell only ------------------------------------

    method Store8(offset: nat, v: bv8)
      requires offset < cells.Length
      modifies cells
      ensures cells[..] == Written(old(cells[..]), offset, [v])
    {
      if cells[offset] != v {
        cells[offset] := v;
      }
    }

    method Store16(offset: nat, v: bv16)
      requires offset % 2 == 0 && offset + 2 <= cells.Length
      modifies cells
      ensures cells[..] == Written(old(cells[..]), offset, Octets16(v))
    {
      hide Octet16;
      cells[offset] := Octet16(v, 0);
      cells[offset + 1] := Octet16(v, 1);
    }

    method Store32(offset: nat, v: bv32)
      requires offset % 4 == 0 && offset + 4 <= cells.Length
      modifies cells
      ensures cells[..] == Written(old(cells[..]), offset, Octets32(v))
    {
      hide Octet32;
      cells[offset] := Octet32(v, 0);
      cells[offset + 1] := Octet32(v, 1);
      cells[offset + 2] := Octet32(v, 2);
      cells[offset + 3] := Octet32(v, 3);
    }

    method Load16(offset: nat) returns (v: bv16)
      requires offset % 2 == 0 && offset + 2 <= cells.Length
      ensures Octets16(v) == cells[offset..offset + 2]
    {
      v := Word16(cells[offset], cells[offset + 1]);
      Word16Octets(cells[offset], cells[offset + 1]);
    }

    method Load32(offset: nat) returns (v: bv32)
      requires offset % 4 == 0 && offset + 4 <= cells.Length
      ensures Octets32(v) == cells[offset..offset + 4]
    {
      hide Octet32, Word32;
      v := Word32(cells[offset], cells[offset + 1], cells[offset + 2], cells[offset + 3]);
      Word32Low(cells[offset], cells[offset + 1], cells[offset + 2], cells[offset + 3]);
      Word32High(cells[offset], cells[offset + 1], cells[offset + 2], cells[offset + 3]);
    }

    /** Stores only what is not there already. */
    method Put16(offset: nat, v: bv16)
      requires offset % 2 == 0 && offset + 2 <= cells.Length
      modifies cells
      ensures cells[..] == Written(old(cells[..]), offset, Octets16(v))
    {
      hide Octet16;
      var was := Load16(offset);
      if was != v {
        Store16(offset, v);
      } else {
        SameAgain(cells[..], offset, Octets16(v));
      }
    }

    method Put32(offset: nat, v: bv32)
      requires offset % 4 == 0 && offset + 4 <= cells.Length
      modifies cells
      ensures cells[..] == Written(old(cells[..]), offset, Octets32(v))
    {
      hide Octet32;
      var was := Load32(offset);
      if was != v {
        Store32(offset, v);
      } else {
        SameAgain(cells[..], offset, Octets32(v));
      }
    }

    // ---- The operations ------------------------------------------------------------------------

    /** `eeprom_read_byte` */
    method ReadByte(offset: nat) returns (v: bv8)
      requires Valid()
      ensures v == if offset < EEPROM_SIZE then cells[offset] else 0
    {
      if offset >= EEPROM_SIZE {
        return 0;
      }
      v := cells[offset];
    }

    /** `eeprom_write_byte` */
    method WriteByte(offset: nat, v: bv8)
      requires Valid()
      modifies cells
      ensures cells[..] == Written(old(cells[..]), offset, [v])
    {
      if offset >= EEPROM_SIZE {
        Beyond(cells[..], offset, [v]);
        return;
      }
      Store8(offset, v);
    }

    /** `eeprom_write_word`: the octets of the word, unless it does not fit. */
    method WriteWord(offset: nat, v: bv16)
      requires Valid()
      modifies cells
      ensures cells[..] == if offset + 2 <= EEPROM_SIZE then Written(old(cells[..]), offset, Octets16(v)) else old(cells[..])
    {
      hide Octet16;
      if offset >= EEPROM_SIZE - 1 {
        return;
      }
      if offset % 2 == 0 {
        Put16(offset, v);
      } else {
        WrittenConcat(cells[..], offset, [Octet16(v, 0)], [Octet16(v, 1)]);
        Store8(offset, Octet16(v, 0));
        Store8(offset + 1, Octet16(v, 1));
        assert [Octet16(v, 0)] + [Octet16(v, 1)] == Octets16(v);
      }
    }

    /** `eeprom_write_dword` */
    method WriteDword(offset: nat, v: bv32)
      requires Valid()
      modifies cells
      ensures cells[..] == if offset + 4 <= EEPROM_SIZE then Written(old(cells[..]), offset, Octets32(v)) else old(cells[..])
    {
      hide Octet32, Half, Octet16;
      if offset >= EEPROM_SIZE - 3 {
        return;
      }
      if offset % 4 == 0 {
        Put32(offset, v);
      } else if offset % 4 == 2 {
        InHalves(cells[..], offset, v);
        Put16(offset, Half(v, 0));
        Put16(offset + 2, Half(v, 2));
      } else {
        AroundMiddle(cells[..], offset, v);
        Store8(offset, Octet32(v, 0));
        Put16(offset + 1, Half(v, 1));
        Store8(offset + 3, Octet32(v, 3));
      }
    }

    /** `eeprom_write_block`: with cells of four, two and one octets, what writing the octets
        one by one does. */
    method WriteBlock(src: seq<bv8>, start: nat)
      requires Valid() && start < 0x1_0000_0000 && |src| < 0x1_0000_0000
      modifies cells
      ensures cells[..] == Written(old(cells[..]), start, src)
    {
      hide Octet16, Octet32, Word16, Word32, Written;
      ghost var m := cells[..];
      if start >= EEPROM_SIZE {
        Beyond(m, start, src);
        return;
      }
      var len := |src|;
      if len >= EEPROM_SIZE {
        len := EEPROM_SIZE;
      }
      if start + len >= EEPROM_SIZE {
        len := EEPROM_SIZE - start;
      }
      ghost var n := len;
      var k := 0;
      WrittenNothing(m, start);
      assert src[..0] == [];
      while len > 0
        invariant 0 <= k && 0 <= len && k + len == n <= |src| && start + n <= EEPROM_SIZE
        invariant cells[..] == Written(m, start, src[..k])
      {
        var step := WriteCell(src, k, start + k, len);
        WrittenConcat(m, start, src[..k], src[k..k + step]);
        assert src[..k + step] == src[..k] + src[k..k + step];
        k := k + step;
        len := len - step;
      }
      AllWritten(m, start, src, n);
    }

    /** One turn of its loop: the widest store that is aligned and not too long. */
    method WriteCell(src: seq<bv8>, k: nat, offset: nat, len: nat) returns (step: nat)
      requires 0 < len && k + len <= |src| && offset + len <= cells.Length
      modifies cells
      ensures 0 < step <= len && cells[..] == Written(old(cells[..]), offset, src[k..k + step])
    {
      hide Octets16, Octets32, Word16, Word32, Written;
      var lsb := offset % 4;
      step := 1;
      if lsb == 0 && len >= 4 {
        step := 4;
        FourOctets(src, k);
        Put32(offset, Word32(src[k], src[k + 1], src[k + 2], src[k + 3]));
      } else if (lsb == 0 || lsb == 2) && len >= 2 {
        step := 2;
        TwoOctets(src, k);
        Put16(offset, Word16(src[k], src[k + 1]));
      } else {
        OneOctet(src, k);
        Store8(offset, src[k]);
      }
    }

    /** `eeprom_read_block`. The end of the block is taken modulo 2^32; what is not read stays
        as it was in `dest`. */
    method ReadBlock(dest: array<bv8>, start: nat, len: nat)
      requires Valid() && dest != cells && start < 0x1_0000_0000 && len <= dest.Length && len < 0x1_0000_0000
      modifies dest
      ensures start + len < 0x1_0000_0000 ==>
                forall i :: 0 <= i < dest.Length ==>
                  dest[i] == if i < len && start + i < EEPROM_SIZE then cells[start + i] else old(dest[i])
      ensures start + len >= 0x1_0000_0000 ==> dest[..] == old(dest[..])
    {
      var offset := start;
      var end := (start + len) % 0x1_0000_0000;
      if end > EEPROM_SIZE {
        end := EEPROM_SIZE;
      }
      var k := 0;
      while offset < end
        invariant offset == start + k && (k > 0 ==> offset <= end) && k <= len
        invariant forall i :: 0 <= i < dest.Length ==> dest[i] == if i < k then cells[start + i] else old(dest[i])
        decreases end - offset
      {
        dest[k] := cells[offset];
        k := k + 1;
        offset := offset + 1;
      }
    }
  }

  lemma FourOctets(src: seq<bv8>, k: nat)
    requires k + 4 <= |src|
    ensures Octets32(Word32(src[k], src[k + 1], src[k + 2], src[k + 3])) == src[k..k + 4]
  {
    hide Octet32, Word32;
    Word32Low(src[k], src[k + 1], src[k + 2], src[k + 3]);
    Word32High(src[k], src[k + 1], src[k + 2], src[k + 3]);
  }

  lemma TwoOctets(src: seq<bv8>, k: nat)
    requires k + 2 <= |src|
    ensures Octets16(Word16(src[k], src[k + 1])) == src[k..k + 2]
  {
    hide Octet16, Word16;
    Word16Octets(src[k], src[k + 1]);
  }

  lemma OneOctet(src: seq<bv8>, k: nat)
    requires k < |src|
    ensures [src[k]] == src[k..k + 1]
  {
  }

  lemma SameAgain(m: seq<bv8>, offset: nat, data: seq<bv8>)
    requires offset + |data| <= |m| && m[offset..offset + |data|] == data
    ensures Written(m, offset, data) == m
  {
    forall i | 0 <= i < |m| ensures Written(m, offset, data)[i] == m[i] {
      if offset <= i < offset + |data| { assert m[offset..offset + |data|][i - offset] == m[i]; }
    }
  }

  lemma Beyond(m: seq<bv8>, offset: nat, data: seq<bv8>)
    requires |m| <= offset
    ensures Written(m, offset, data) == m
  {
  }

  lemma AllWritten(m: seq<bv8>, start: nat, src: seq<bv8>, n: nat)
    requires n <= |src| && (n == |src| || start + n >= |m|)
    ensures Written(m, start, src[..n]) == Written(m, start, src)
  {
    if n == |src| { assert src[..n] == src; } else { WrittenClipped(m, start, src, n); }
  }

  lemma InHalves(m: seq<bv8>, offset: nat, v: bv32)
    ensures Written(Written(m, offset, Octets16(Half(v, 0))), offset + 2, Octets16(Half(v, 2))) == Written(m, offset, Octets32(v))
  {
    HalfOctets(v, 0);
    HalfOctets(v, 2);
    hide Octet16, Octet32, Half, Written;
    WrittenConcat(m, offset, Octets16(Half(v, 0)), Octets16(Half(v, 2)));
    assert Octets16(Half(v, 0)) + Octets16(Half(v, 2)) == Octets32(v);
  }

  lemma AroundMiddle(m: seq<bv8>, offset: nat, v: bv32)
    ensures Written(Written(Written(m, offset, [Octet32(v, 0)]), offset + 1, Octets16(Half(v, 1))), offset + 3, [Octet32(v, 3)])
         == Written(m, offset, Octets32(v))
  {
    HalfOctets(v, 1);
    hide Octet16, Octet32, Half, Written;
    WrittenConcat(m, offset, [Octet32(v, 0)], Octets16(Half(v, 1)));
    WrittenConcat(m, offset, [Octet32(v, 0)] + Octets16(Half(v, 1)), [Octet32(v, 3)]);
    assert [Octet32(v, 0)] + Octets16(Half(v, 1)) + [Octet32(v, 3)] == Octets32(v);
  }
}
