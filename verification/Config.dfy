/** The parameter store: records with a checksum at fixed places in the EEPROM. */
module Config {
  import opened Bits
  import opened Eeprom
  import Ax25

  // ---- The table of parameters -----------------------------------------------------------

  const BYTE: nat := 1
  const WORD: nat := 2
  const DWORD: nat := 4
  const ADDRESS: nat := 9            // addr_t
  const OBJID_LENGTH: nat := 10
  const COMMENT_LENGTH: nat := 40
  const INET_NAME_LENGTH: nat := 40
  const CRED_LENGTH: nat := 32

  datatype Param =
    | VERSION_KEY | TRX_TX_FREQ | TRX_RX_FREQ | TRX_SQUELCH | TRX_VOLUME | TRX_MICLEVEL | TXDELAY | TXTAIL
    | MAXFRAME | MYCALL | DEST | NDIGIS | DIGIS | SYMBOL | SYMBOL_TAB | TRACKER_ON | TRACKER_TURN_LIMIT
    | TRACKER_MAXPAUSE | TRACKER_MINDIST | TRACKER_MINPAUSE | STATUS_TIME | TIMESTAMP_ON | COMPRESS_ON
    | ALTITUDE_ON | OBJ_SYMBOL | OBJ_SYMBOL_TABLE | OBJ_ID | REPORT_COMMENT | REPORT_BEEP_ON | REPEAT_ON
    | EXTRATURN_ON | GPS_POWERSAVE_ON | TXMON_ON | DIGIP_WIDE1_ON | DIGIP_SAR_ON | DIGIPEATER_ON | IGATE_ON
    | IGATE_HOST | IGATE_PORT | IGATE_USERNAME | IGATE_PASSCODE | IGATE_FILTER | IGATE_TRACK_ON | WIFI_ON
    | HTTP_ON | HTTP_USER | HTTP_PASSWD | SOFTAP_PASSWD | WIFIAP

  /** The place of a parameter, or of its first instance. */
  function Offset(p: Param): nat {
    match p
    case VERSION_KEY => 0
    case TRX_TX_FREQ => 3
    case TRX_RX_FREQ => 8
    case TRX_SQUELCH => 13
    case TRX_VOLUME => 15
    case TRX_MICLEVEL => 17
    case TXDELAY => 19
    case TXTAIL => 21
    case MAXFRAME => 23
    case MYCALL => 25
    case DEST => 35
    case NDIGIS => 45
    case DIGIS => 47
    case SYMBOL => 112
    case SYMBOL_TAB => 114
    case TRACKER_ON => 116
    case TRACKER_TURN_LIMIT => 118
    case TRACKER_MAXPAUSE => 121
    case TRACKER_MINDIST => 123
    case TRACKER_MINPAUSE => 125
    case STATUS_TIME => 127
    case TIMESTAMP_ON => 129
    case COMPRESS_ON => 131
    case ALTITUDE_ON => 133
    case OBJ_SYMBOL => 135
    case OBJ_SYMBOL_TABLE => 137
    case OBJ_ID => 139
    case REPORT_COMMENT => 150
    case REPORT_BEEP_ON => 191
    case REPEAT_ON => 193
    case EXTRATURN_ON => 195
    case GPS_POWERSAVE_ON => 197
    case TXMON_ON => 199
    case DIGIP_WIDE1_ON => 201
    case DIGIP_SAR_ON => 203
    case DIGIPEATER_ON => 205
    case IGATE_ON => 207
    case IGATE_HOST => 209
    case IGATE_PORT => 250
    case IGATE_USERNAME => 253
    case IGATE_PASSCODE => 286
    case IGATE_FILTER => 289
    case IGATE_TRACK_ON => 322
    case WIFI_ON => 324
    case HTTP_ON => 326
    case HTTP_USER => 328
    case HTTP_PASSWD => 361
    case SOFTAP_PASSWD => 394
    case WIFIAP => 427
  }

  function Size(p: Param): (n: nat)
    ensures 0 < n < 256
  {
    match p
    case VERSION_KEY | TRACKER_TURN_LIMIT | IGATE_PORT | IGATE_PASSCODE => WORD
    case TRX_TX_FREQ | TRX_RX_FREQ => DWORD
    case MYCALL | DEST => ADDRESS
    case DIGIS => Ax25.MAX_DIGIS * ADDRESS
    case OBJ_ID => OBJID_LENGTH
    case REPORT_COMMENT => COMMENT_LENGTH
    case IGATE_HOST => INET_NAME_LENGTH
    case IGATE_USERNAME | IGATE_FILTER | HTTP_USER | HTTP_PASSWD | SOFTAP_PASSWD => CRED_LENGTH
    case WIFIAP => 2 * CRED_LENGTH
    case _ => BYTE
  }

  /** WIFIAP is used as an array of six. */
  function Instances(p: Param): nat { if p == WIFIAP then 6 else 1 }

  /** Where GET_PARAM_I and SET_PARAM_I find instance `i`. */
  function Place(p: Param, i: nat): nat { Offset(p) + i * (Size(p) + 1) }

  /** The first cell behind the records of a parameter. */
  function End(p: Param): nat { Offset(p) + Instances(p) * (Size(p) + 1) }

  /** The parameter to which a cell of the EEPROM belongs. */
  function Owner(cell: nat): Param {
    if cell < 135 then
      if cell < 47 then
        if cell < 19 then
          if cell < 13 then
            if cell < 3 then
              VERSION_KEY
            else
              if cell < 8 then TRX_TX_FREQ else TRX_RX_FREQ
          else
            if cell < 15 then
              TRX_SQUELCH
            else
              if cell < 17 then TRX_VOLUME else TRX_MICLEVEL
        else
          if cell < 25 then
            if cell < 21 then
              TXDELAY
            else
              if cell < 23 then TXTAIL else MAXFRAME
          else
            if cell < 35 then
              MYCALL
            else
              if cell < 45 then DEST else NDIGIS
      else
        if cell < 123 then
          if cell < 116 then
            if cell < 112 then
              DIGIS
            else
              if cell < 114 then SYMBOL else SYMBOL_TAB
          else
            if cell < 118 then
              TRACKER_ON
            else
              if cell < 121 then TRACKER_TURN_LIMIT else TRACKER_MAXPAUSE
        else
          if cell < 129 then
            if cell < 125 then
              TRACKER_MINDIST
            else
              if cell < 127 then TRACKER_MINPAUSE else STATUS_TIME
          else
            if cell < 131 then
              TIMESTAMP_ON
            else
              if cell < 133 then COMPRESS_ON else ALTITUDE_ON
    else
      if cell < 207 then
        if cell < 195 then
          if cell < 150 then
            if cell < 137 then
              OBJ_SYMBOL
            else
              if cell < 139 then OBJ_SYMBOL_TABLE else OBJ_ID
          else
            if cell < 191 then
              REPORT_COMMENT
            else
              if cell < 193 then REPORT_BEEP_ON else REPEAT_ON
        else
          if cell < 201 then
            if cell < 197 then
              EXTRATURN_ON
            else
              if cell < 199 then GPS_POWERSAVE_ON else TXMON_ON
          else
            if cell < 203 then
              DIGIP_WIDE1_ON
            else
              if cell < 205 then DIGIP_SAR_ON else DIGIPEATER_ON
      else
        if cell < 322 then
          if cell < 253 then
            if cell < 209 then
              IGATE_ON
            else
              if cell < 250 then IGATE_HOST else IGATE_PORT
          else
            if cell < 286 then
              IGATE_USERNAME
            else
              if cell < 289 then IGATE_PASSCODE else IGATE_FILTER
        else
          if cell < 328 then
            if cell < 324 then
              IGATE_TRACK_ON
            else
              if cell < 326 then WIFI_ON else HTTP_ON
          else
            if cell < 394 then
              if cell < 361 then HTTP_USER else HTTP_PASSWD
            else
              if cell < 427 then SOFTAP_PASSWD else WIFIAP
  }

  lemma OwnerOf(p: Param, cell: nat)
    requires Offset(p) <= cell < End(p)
    ensures Owner(cell) == p && cell < EEPROM_SIZE
  {
    if Early(p) { OwnerOfEarly(p, cell); } else { OwnerOfLate(p, cell); }
    hide Owner, Offset, End, Early;
  }

  /** The first half of the table. */
  predicate Early(p: Param) {
    match p
    case VERSION_KEY | TRX_TX_FREQ | TRX_RX_FREQ | TRX_SQUELCH | TRX_VOLUME | TRX_MICLEVEL | TXDELAY |
         TXTAIL | MAXFRAME | MYCALL | DEST | NDIGIS | DIGIS | SYMBOL | SYMBOL_TAB | TRACKER_ON |
         TRACKER_TURN_LIMIT | TRACKER_MAXPAUSE | TRACKER_MINDIST | TRACKER_MINPAUSE | STATUS_TIME |
         TIMESTAMP_ON | COMPRESS_ON | ALTITUDE_ON => true
    case _ => false
  }

  lemma OwnerOfEarly(p: Param, cell: nat)
    requires Offset(p) <= cell < End(p) && Early(p)
    ensures Owner(cell) == p && cell < EEPROM_SIZE
  {
  }

  lemma OwnerOfLate(p: Param, cell: nat)
    requires Offset(p) <= cell < End(p) && !Early(p)
    ensures Owner(cell) == p && cell < EEPROM_SIZE
  {
  }

  /** There are no gaps in the table but one cell behind DIGIS: whatever is smaller than 817 is
      in the records of its owner. */
  lemma NoGaps(cell: nat)
    ensures cell < 817 && cell != 111 <==> exists p :: Offset(p) <= cell < End(p)
  {
    if cell < 817 && cell != 111 {
      if cell < 135 { NoGapsEarly(cell); } else { NoGapsLate(cell); }
    }
    forall p | Offset(p) <= cell < End(p) ensures cell < 817 && cell != 111 {
      LastCell(p, cell);
    }
  }

  lemma NoGapsEarly(cell: nat)
    requires cell < 135 && cell != 111
    ensures Offset(Owner(cell)) <= cell < End(Owner(cell))
  {
  }

  lemma NoGapsLate(cell: nat)
    requires 135 <= cell < 817
    ensures Offset(Owner(cell)) <= cell < End(Owner(cell))
  {
  }

  lemma LastCell(p: Param, cell: nat)
    requires Offset(p) <= cell < End(p)
    ensures cell < 817 && cell != 111
  {
  }

  /** Records do not overlap, and all of them are inside the EEPROM. */
  lemma RecordsDisjoint(p: Param, i: nat, q: Param, j: nat)
    requires i < Instances(p) && j < Instances(q) && (p, i) != (q, j)
    ensures Place(p, i) + Size(p) < EEPROM_SIZE
    ensures Place(p, i) + Size(p) < Place(q, j) || Place(q, j) + Size(q) < Place(p, i)
  {
    hide Offset, Size, Owner, Instances, End;
    WithinRun(p, i);
    WithinRun(q, j);
    if p == q {
      Apart(i, j, Size(p) + 1);
    } else {
      hide Place;
      if Place(p, i) <= Place(q, j) <= Place(p, i) + Size(p) {
        OwnerOf(p, Place(q, j));
        OwnerOf(q, Place(q, j));
      } else if Place(q, j) <= Place(p, i) <= Place(q, j) + Size(q) {
        OwnerOf(p, Place(p, i));
        OwnerOf(q, Place(p, i));
      }
    }
  }

  lemma WithinRun(p: Param, i: nat)
    requires i < Instances(p)
    ensures Offset(p) <= Place(p, i) && Place(p, i) + Size(p) < End(p) <= EEPROM_SIZE
  {
    EndOfAll(p);
    hide Offset, Size;
    Apart(i, Instances(p), Size(p) + 1);
  }

  lemma EndOfAll(p: Param)
    ensures End(p) <= EEPROM_SIZE
  {
  }

  lemma Apart(i: nat, j: nat, n: nat)
    requires i != j && n > 0
    ensures i * n + n <= j * n || j * n + n <= i * n
    ensures 0 <= i * n && (i < j ==> i * n + n <= j * n)
  {
    if i < j { assert (i + 1) * n <= j * n; } else { assert (j + 1) * n <= i * n; }
  }

  // ---- Records ---------------------------------------------------------------------------------

  function Xor(a: bv8, b: bv8): bv8 { a ^ b }

  lemma XorCancels(a: bv8, b: bv8, c: bv8)
    ensures Xor(a, b) == Xor(a, c) <==> b == c
    ensures Xor(b, a) == Xor(c, a) <==> b == c
  {
  }

  /** Bit by bit. */
  lemma XorBits(a: bv8, b: bv8, k: nat)
    requires k < 8
    ensures OctetBits(Xor(a, b))[k] == (OctetBits(a)[k] != OctetBits(b)[k])
  {
    hide OctetBits, Xor;
    MaskIs(a, k);
    MaskIs(b, k);
    MaskIs(Xor(a, b), k);
    XorMasked(a, b, k);
  }

  lemma XorMasked(a: bv8, b: bv8, k: nat)
    requires k < 8
    ensures (Xor(a, b) & Mask(k) != 0) == ((a & Mask(k) != 0) != (b & Mask(k) != 0))
  {
  }

  /** How many octets have bit `k`. */
  function WithBit(data: seq<bv8>, k: nat): nat
    requires k < 8
  {
    if data == [] then 0 else WithBit(data[..|data| - 1], k) + if OctetBits(data[|data| - 1])[k] then 1 else 0
  }

  /** The checksum by its bits: the parity of each bit position, the low four inverted. */
  lemma {:induction false} ChecksumParity(data: seq<bv8>, k: nat)
    requires k < 8
    ensures OctetBits(Checksum(data))[k] == ((WithBit(data, k) % 2 == 1) != (k < 4))
  {
    hide Xor, OctetBits;
    if data == [] {
      LowHalf();
    } else {
      ChecksumParity(data[..|data| - 1], k);
      XorBits(Checksum(data[..|data| - 1]), data[|data| - 1], k);
    }
  }

  lemma LowHalf()
    ensures OctetBits(0x0F) == [true, true, true, true, false, false, false, false]
  {
  }

  function Checksum(data: seq<bv8>): bv8 {
    if data == [] then 0x0F else Xor(Checksum(data[..|data| - 1]), data[|data| - 1])
  }

  /** The octets of the record for a value. */
  function Record(data: seq<bv8>): seq<bv8> { data + [Checksum(data)] }

  function SetRecord(m: seq<bv8>, at: nat, data: seq<bv8>): (r: seq<bv8>)
    ensures |r| == |m|
  {
    Written(m, at, Record(data))
  }

  predicate Intact(record: seq<bv8>)
    requires record != []
  {
    Checksum(record[..|record| - 1]) == record[|record| - 1]
  }

  /** The value in a record of `size` octets and a checksum, if that is right. */
  function GetRecord(m: seq<bv8>, at: nat, size: nat, default: seq<bv8>): seq<bv8>
    requires at + size < |m|
  {
    if Intact(m[at..at + size + 1]) then m[at..at + size] else default
  }

  /** What was set is got; a record that the set does not touch is as before. */
  lemma SetGet(m: seq<bv8>, at: nat, data: seq<bv8>, from: nat, size: nat, default: seq<bv8>)
    requires from + size < |m|
    ensures from == at && size == |data| ==>
              Intact(SetRecord(m, at, data)[from..from + size + 1]) && GetRecord(SetRecord(m, at, data), from, size, default) == data
    ensures from + size < at || at + |data| < from ==>
              GetRecord(SetRecord(m, at, data), from, size, default) == GetRecord(m, from, size, default)
  {
    hide Checksum, Written;
    var r := SetRecord(m, at, data);
    ReadBack(m, at, Record(data), from, size + 1);
    ReadBack(m, at, Record(data), from, size);
    if from == at && size == |data| {
      assert r[from..from + size + 1] == Record(data);
      assert Record(data)[..size] == data;
    }
  }

  /** One octet changed changes the checksum. */
  lemma {:induction false} ChecksumChanges(data: seq<bv8>, k: nat, x: bv8)
    requires k < |data|
    ensures Checksum(data[k := x]) == Checksum(data) <==> x == data[k]
  {
    hide Xor;
    var n := |data| - 1;
    if k == n {
      assert data[k := x][..n] == data[..n];
      XorCancels(Checksum(data[..n]), x, data[k]);
    } else {
      assert data[k := x][..n] == data[..n][k := x];
      ChecksumChanges(data[..n], k, x);
      XorCancels(data[n], Checksum(data[..n][k := x]), Checksum(data[..n]));
    }
  }

  /** An intact record changed in one octet, that of the checksum included, is not intact any
      more: the default is got instead of a wrong value. */
  lemma DamageDetected(m: seq<bv8>, at: nat, size: nat, k: nat, x: bv8, default: seq<bv8>)
    requires at + size < |m| && k <= size && Intact(m[at..at + size + 1])
    ensures Intact(m[at + k := x][at..at + size + 1]) <==> x == m[at + k]
    ensures x != m[at + k] ==> GetRecord(m[at + k := x], at, size, default) == default
  {
    hide Checksum;
    var record := m[at..at + size + 1];
    assert record[k] == m[at + k];
    assert m[at + k := x][at..at + size + 1] == record[k := x];
    if k < size {
      assert record[k := x][..size] == record[..size][k := x];
      ChecksumChanges(record[..size], k, x);
    } else {
      assert record[k := x][..size] == record[..size];
    }
  }

  /** An octet outside a record has no effect on it. */
  lemma DamageElsewhere(m: seq<bv8>, at: nat, size: nat, cell: nat, x: bv8, default: seq<bv8>)
    requires at + size < |m| && cell < |m| && (cell < at || at + size < cell)
    ensures GetRecord(m[cell := x], at, size, default) == GetRecord(m, at, size, default)
  {
    assert m[cell := x][at..at + size + 1] == m[at..at + size + 1];
    assert m[cell := x][at..at + size] == m[at..at + size];
  }

  // ---- The store is a map ----------------------------------------------------------------------

  datatype Setting = Setting(param: Param, i: nat, value: seq<bv8>) {
    predicate Ok() { i < Instances(param) && |value| == Size(param) }
  }

  function Get(m: seq<bv8>, p: Param, i: nat, default: seq<bv8>): seq<bv8>
    requires |m| == EEPROM_SIZE && i < Instances(p)
  {
    WithinRun(p, i);
    GetRecord(m, Place(p, i), Size(p), default)
  }

  function SetAll(m: seq<bv8>, s: seq<Setting>): (r: seq<bv8>)
    ensures |r| == |m|
    decreases |s|
  {
    if s == [] then m
    else
      var last := s[|s| - 1];
      SetRecord(SetAll(m, s[..|s| - 1]), Place(last.param, last.i), last.value)
  }

  /** The value of the last setting of (`p`, `i`), or `otherwise` if there is none. */
  function LastSet(s: seq<Setting>, p: Param, i: nat, otherwise: seq<bv8>): seq<bv8> {
    if s == [] then otherwise
    else if s[|s| - 1].param == p && s[|s| - 1].i == i then s[|s| - 1].value
    else LastSet(s[..|s| - 1], p, i, otherwise)
  }

  /** After any sequence of settings every parameter has the value it was last given, or the
      one it had before. */
  lemma {:induction false} StoreIsMap(m: seq<bv8>, s: seq<Setting>, p: Param, i: nat, default: seq<bv8>)
    requires |m| == EEPROM_SIZE && i < Instances(p) && forall k :: 0 <= k < |s| ==> s[k].Ok()
    ensures Get(SetAll(m, s), p, i, default) == LastSet(s, p, i, Get(m, p, i, default))
    decreases |s|
  {
    if s != [] {
      hide SetRecord, Place, Size, Instances, Get;
      OneSetting(SetAll(m, s[..|s| - 1]), s[|s| - 1], p, i, default);
      StoreIsMap(m, s[..|s| - 1], p, i, default);
    }
  }

  lemma OneSetting(m: seq<bv8>, s: Setting, p: Param, i: nat, default: seq<bv8>)
    requires |m| == EEPROM_SIZE && i < Instances(p) && s.Ok()
    ensures Get(SetRecord(m, Place(s.param, s.i), s.value), p, i, default) ==
            if s.param == p && s.i == i then s.value else Get(m, p, i, default)
  {
    hide SetRecord, GetRecord, Place, Size, Instances;
    WithinRun(p, i);
    if (s.param, s.i) != (p, i) {
      RecordsDisjoint(p, i, s.param, s.i);
    }
    SetGet(m, Place(s.param, s.i), s.value, Place(p, i), Size(p), default);
  }

  // ---- The operations -----------------------------------------------------------------------------

  /** `set_param` */
  method SetParam(e: Memory, ee_addr: nat, value: seq<bv8>)
    requires e.Valid() && |value| < 256 && ee_addr < 0x1_0000
    modifies e.cells
    ensures e.cells[..] == SetRecord(old(e.cells[..]), ee_addr, value)
  {
    var checksum := 0x0F;
    var i := 0;
    while i < |value|
      invariant i <= |value| && checksum == Checksum(value[..i])
    {
      assert value[..i + 1][..i] == value[..i];
      checksum := Xor(checksum, value[i]);
      i := i + 1;
    }
    assert value[..i] == value;
    WrittenConcat(e.cells[..], ee_addr, value, [checksum]);
    e.WriteBlock(value, ee_addr);
    e.WriteByte(ee_addr + |value|, checksum);
  }

  /** What is read of a value: past the end of the memory what was in the caller's buffer. */
  function Fetched(m: seq<bv8>, at: nat, ram: seq<bv8>): (v: seq<bv8>)
    ensures |v| == |ram|
  {
    seq(|ram|, i requires 0 <= i < |ram| => if at + i < |m| then m[at + i] else ram[i])
  }

  /** What is read of a single octet. */
  function CellAt(m: seq<bv8>, at: nat): bv8 { if at < |m| then m[at] else 0 }

  lemma FetchedInside(m: seq<bv8>, at: nat, ram: seq<bv8>, default: seq<bv8>)
    requires at + |ram| < |m|
    ensures var ok := Checksum(Fetched(m, at, ram)) == CellAt(m, at + |ram|);
            && Intact(m[at..at + |ram| + 1]) == ok
            && GetRecord(m, at, |ram|, default) == if ok then Fetched(m, at, ram) else default
  {
    hide Checksum;
    var record := m[at..at + |ram| + 1];
    assert record[..|ram|] == m[at..at + |ram|] == Fetched(m, at, ram);
  }

  /** `get_param`; `failed` tells that the default was taken. */
  method GetParam(e: Memory, ee_addr: nat, ram: array<bv8>, size: nat, default: seq<bv8>) returns (failed: bool)
    requires e.Valid() && ram != e.cells && size < 256 && size == |default| == ram.Length && ee_addr < 0x1_0000
    modifies ram
    ensures failed == (Checksum(Fetched(e.cells[..], ee_addr, old(ram[..]))) != CellAt(e.cells[..], ee_addr + size))
    ensures ram[..] == if failed then default else Fetched(e.cells[..], ee_addr, old(ram[..]))
    ensures ee_addr + size < EEPROM_SIZE ==>
              && ram[..] == GetRecord(e.cells[..], ee_addr, size, default)
              && failed == !Intact(e.cells[..][ee_addr..ee_addr + size + 1])
  {
    hide Checksum, GetRecord, Intact;
    ghost var value := Fetched(e.cells[..], ee_addr, ram[..]);
    if ee_addr + size < EEPROM_SIZE { FetchedInside(e.cells[..], ee_addr, ram[..], default); }
    e.ReadBlock(ram, ee_addr, size);
    assert ram[..] == value;
    var checksum := ChecksumOf(ram);
    var s_checksum := e.ReadByte(ee_addr + size);
    failed := s_checksum != checksum;
    if failed {
      CopyDefault(ram, default);
    }
  }

  /** The loop over the octets read. */
  method ChecksumOf(ram: array<bv8>) returns (checksum: bv8)
    ensures checksum == Checksum(ram[..])
  {
    hide Xor;
    checksum := 0x0F;
    var i := 0;
    while i < ram.Length
      invariant i <= ram.Length && checksum == Checksum(ram[..i])
    {
      assert ram[..i + 1][..i] == ram[..i];
      checksum := Xor(checksum, ram[i]);
      i := i + 1;
    }
    assert ram[..i] == ram[..];
  }

  /** The `memcpy` of the default. */
  method CopyDefault(ram: array<bv8>, default: seq<bv8>)
    requires ram.Length == |default|
    modifies ram
    ensures ram[..] == default
  {
    var i := 0;
    while i < ram.Length
      invariant i <= ram.Length && forall k :: 0 <= k < i ==> ram[k] == default[k]
    {
      ram[i] := default[i];
      i := i + 1;
    }
  }

  lemma RecordOfOne(b: bv8)
    ensures Record([b]) == [b, Xor(0x0F, b)]
  {
    assert [b][..0] == [] && Checksum([b]) == Xor(Checksum([b][..0]), b);
  }

  /** `set_byte_param`: the record of one octet. */
  method SetByteParam(e: Memory, ee_addr: nat, byte: bv8)
    requires e.Valid() && ee_addr < 0x1_0000
    modifies e.cells
    ensures e.cells[..] == SetRecord(old(e.cells[..]), ee_addr, [byte])
  {
    RecordOfOne(byte);
    WrittenConcat(e.cells[..], ee_addr, [byte], [Xor(0x0F, byte)]);
    e.WriteByte(ee_addr, byte);
    e.WriteByte(ee_addr + 1, Xor(0x0F, byte));
  }

  /** `get_byte_param` */
  method GetByteParam(e: Memory, ee_addr: nat, default: bv8) returns (b: bv8)
    requires e.Valid()
    ensures var c := e.cells[..];
            b == if Xor(0x0F, CellAt(c, ee_addr)) == CellAt(c, ee_addr + 1) then CellAt(c, ee_addr) else default
    ensures ee_addr + 1 < EEPROM_SIZE ==> [b] == GetRecord(e.cells[..], ee_addr, 1, [default])
  {
    var b1 := e.ReadByte(ee_addr);
    var b2 := e.ReadByte(ee_addr + 1);
    b := if Xor(0x0F, b1) == b2 then b1 else default;
    if ee_addr + 1 < EEPROM_SIZE {
      RecordOfOne(b1);
      assert Checksum([b1]) == Record([b1])[1] && Fetched(e.cells[..], ee_addr, [b1]) == [b1];
      FetchedInside(e.cells[..], ee_addr, [b1], [default]);
    }
  }
}
