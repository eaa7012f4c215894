/** `crc_match` on a buffer in the pool: what it computes is what the decoder's model says. */
module FcsCheck {
  import opened FbufChains
  import opened FbufReading
  import opened FbufCuts
  import opened FbufPool
  import Crc16
  import HdlcDecoder

  /** In a buffer that was only written to, the slots end at the multiples of the slot size. */
  lemma SlotEndsAreMultiples(p: Slots, c: Chain, pos: nat)
    requires c != [] && AllOk(p, c) && FullBefore(Parts(p, c)) && 0 < pos < |Content(p, c)|
    ensures AtSlotEnd(p, c, pos) <==> pos % SLOT_SIZE == 0
  {
    WholeEnd(p, c);
    hide Content, AllOk, Parts, FullBefore;
    if pos % SLOT_SIZE == 0 {
      var j := pos / SLOT_SIZE - 1;
      EndAt(p, c, j);
    } else if AtSlotEnd(p, c, pos) {
      var j: nat :| j < |c| && pos == EndOf(p, c, j);
      EndAt(p, c, j);
    }
  }

  lemma WholeEnd(p: Slots, c: Chain)
    requires c != [] && AllOk(p, c) && FullBefore(Parts(p, c))
    ensures EndOf(p, c, |c| - 1) == |Content(p, c)| <= SLOT_SIZE * |c|
  {
    assert c[..|c|] == c && Last(c) in c;
    EndAt(p, c, |c| - 2);
    PartsAtEnd(p, c);
    hide Parts, Flat;
    FlatConcat(Parts(p, Front(c)), [Bytes(p[Last(c)])]);
    FlatOne(Bytes(p[Last(c)]));
  }

  lemma EndAt(p: Slots, c: Chain, j: int)
    requires c != [] && FullBefore(Parts(p, c)) && -1 <= j < |c| - 1
    ensures |Content(p, c[..j + 1])| == SLOT_SIZE * (j + 1)
    ensures j >= 0 ==> EndOf(p, c, j) == SLOT_SIZE * (j + 1)
  {
    assert Parts(p, c[..j + 1]) == Parts(p, c)[..j + 1];
    hide Parts;
    FlatFull(Parts(p, c), j + 1);
  }

  lemma {:induction false} FlatFull(l: seq<Part>, k: nat)
    requires k < |l| && FullBefore(l)
    ensures |Flat(l[..k])| == SLOT_SIZE * k
  {
    if k > 0 {
      FlatFull(l, k - 1);
      FlatTake(l, k - 1);
    } else {
      assert l[..0] == [];
    }
  }

  /** `past` is the two octets that lie behind the end of the slot the seek stops in. */
  method CrcMatch(pool: Pool, b: Fbuf, length: nat, past: bv16) returns (ok: bool)
    requires pool.Valid() && b in pool.chains && pool.OnlyWritten(b) && pool.ReadsAt(b, 0)
    requires 2 <= length == |pool.ContentOf(b)|
    modifies b`rslot, b`rpos
    ensures pool.Valid()
    ensures ok == HdlcDecoder.CrcMatch(past, pool.ContentOf(b))
  {
    hide Crc16.Update, Crc16.Fold, Pool.ReadsAt, Pool.OnlyWritten, Pool.ReadableTo, Pool.Valid, Inv, Content;
    pool.BufferFacts(b);
    pool.OnlyWrittenFacts(b);
    var short := length % 256;
    var crc := CrcOver(pool, b, HdlcDecoder.CheckedLength(length));
    var rcrc := ReceivedFcs(pool, b, short, past);
    ok := crc == rcrc;
  }

  /** The CRC over the next `n` octets. */
  method CrcOver(pool: Pool, b: Fbuf, n: nat) returns (crc: bv16)
    requires pool.Valid() && b in pool.chains && (forall m: nat :: pool.ReadableTo(b, m)) && pool.ReadsAt(b, 0) && n <= |pool.ContentOf(b)|
    modifies b`rslot, b`rpos
    ensures pool.Valid() && pool.ReadsAt(b, n) && crc == Crc16.Crc(pool.ContentOf(b)[..n])
  {
    hide Crc16.Update, Crc16.Fold, Crc16.Crc, Pool.ReadsAt, Pool.ReadableTo, Pool.Valid, Pool.ContentOf;
    ghost var content := pool.ContentOf(b);
    crc := Crc16.INITIAL;
    var i := 0;
    Crc16.CrcOfNone();
    assert content[..0] == [];
    while i < n
      invariant 0 <= i <= n && pool.Valid() && pool.ReadsAt(b, i) && crc == Crc16.Crc(content[..i])
    {
      assert content[..i + 1] == content[..i] + [content[i]];
      Crc16.CrcSnoc(content[..i], content[i]);
      var x := pool.GetChar(b, i);
      crc := Crc16.Update(crc, x);
      i := i + 1;
    }
  }

  /** The seek and the two reads behind it. */
  method ReceivedFcs(pool: Pool, b: Fbuf, short: nat, past: bv16) returns (rcrc: bv16)
    requires pool.Valid() && b in pool.chains && pool.OnlyWritten(b)
    requires 2 <= |pool.ContentOf(b)| && short == |pool.ContentOf(b)| % 256
    requires short < 2 ==> pool.ReadsAt(b, 0)
    modifies b`rslot, b`rpos
    ensures pool.Valid()
    ensures rcrc == HdlcDecoder.SeenFcs(past, pool.ContentOf(b))
  {
    hide Inv, Pool.Valid, Cursor, Content, Linked, Distinct, AtSlotEnd, Parts, AllOk, Plain, NoneEmpty, ClearTo, FullBefore, Small;
    ghost var p, c := pool.P(), pool.chains[b];
    pool.BufferFacts(b);
    pool.OnlyWrittenFacts(b);
    if short >= 2 {     // otherwise the position is taken modulo 2^16, and there is no such position
      pool.Rseek(b, short - 2);
      if short == 2 {
        assert pool.ReadableTo(b, 1);
        CursorAtStart(p, c);
      } else {
        SlotEndsAreMultiples(p, c, short - 2);
        if b.rpos == pool.slots[b.rslot].length {
          return past;
        }
      }
    }
    var lo := pool.GetChar(b, HdlcDecoder.CheckedLength(b.length));
    var hi := pool.GetChar(b, HdlcDecoder.CheckedLength(b.length) + 1);
    rcrc := Crc16.Received(lo, hi);
  }
}
