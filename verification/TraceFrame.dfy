/** The fixed-size binary trace frame and its offline decoder. */
module TraceFrame {
  import opened Bits
  import opened Bytes

  type u64 = x: int | 0 <= x < 0x1_0000_0000_0000_0000
  type i64 = x: int | -0x8000_0000_0000_0000 <= x < 0x8000_0000_0000_0000

  const FRAME_BYTES: nat := 256
  const HEADER_BYTES: nat := 12
  const MAX_NAME_LEN: nat := 64
  const FIELD_BYTES: nat := 16
  const MAX_KEY_BYTES: nat := 6

  datatype Level = Off | Warn | Info | Debug

  /** Doubles are their bit patterns. */
  datatype Value = Str(text: seq<byte>) | I64(i: i64) | U64(u: u64) | F64(bits: u64) | Bool(b: bool)

  datatype Field = Field(key: seq<byte>, value: Value)

  datatype Frame = Frame(seqno: nat, level: Level, event: seq<byte>, fields: seq<Field>)

  function LevelCode(level: Level): byte {
    match level
    case Off => 0
    case Warn => 1
    case Info => 2
    case Debug => 3
  }

  function KindCode(v: Value): byte {
    match v
    case Str(_) => 0
    case I64(_) => 1
    case U64(_) => 2
    case F64(_) => 3
    case Bool(_) => 4
  }

  function Min(a: nat, b: nat): nat {
    if a < b then a else b
  }

  function Zeros(n: nat): (s: seq<byte>)
    ensures |s| == n
  {
    seq(n, i => 0)
  }

  /** The low n bytes of v, least significant first. */
  function LittleEndian(v: nat, n: nat): (s: seq<byte>)
    ensures |s| == n
  {
    if n == 0 then [] else [v % 256] + LittleEndian(v / 256, n - 1)
  }

  function FromLittleEndian(s: seq<byte>): nat {
    if s == [] then 0 else s[0] as nat + 256 * FromLittleEndian(s[1..])
  }

  function Power256(n: nat): (p: nat)
    ensures p > 0
  {
    if n == 0 then 1 else 256 * Power256(n - 1)
  }

  lemma {:induction false} LittleEndianRoundTrip(v: nat, n: nat)
    ensures FromLittleEndian(LittleEndian(v, n)) == v % Power256(n)
  {
    if n > 0 {
      LittleEndianRoundTrip(v / 256, n - 1);
      var p := Power256(n - 1);
      assert LittleEndian(v, n)[1..] == LittleEndian(v / 256, n - 1);
      Remainder(v, p);
    }
  }

  /** Byte i of the number v. */
  lemma {:induction false} LittleEndianBytes(v: nat, n: nat, i: nat)
    requires i < n
    ensures LittleEndian(v, n)[i] == v / Power256(i) % 256
  {
    if i > 0 {
      LittleEndianBytes(v / 256, n - 1, i - 1);
      DivideTwice(v, Power256(i - 1));
    }
  }

  lemma DivideTwice(v: nat, p: nat)
    requires p > 0
    ensures v / 256 / p == v / (256 * p)
  {
    var q, r := v / 256 / p, v / 256 % p;
    assert v / 256 == q * p + r;
    var low := v % 256 + 256 * r;
    assert v == (256 * p) * q + low by {
      assert 256 * (q * p) == (256 * p) * q;
    }
    var k := v / (256 * p);
    assert v == (256 * p) * k + v % (256 * p);
    Unique(v, 256 * p, q, low);
    assert (256 * p) * (k - q) == 0 by { assert (256 * p) * (k - q) == (256 * p) * k - (256 * p) * q; }
    Multiple(256 * p, k - q);
  }

  lemma Remainder(v: nat, p: nat)
    requires p > 0
    ensures v % (256 * p) == v % 256 + 256 * (v / 256 % p)
  {
    var q, r := v / 256 / p, v / 256 % p;
    assert v / 256 == q * p + r;
    assert v == 256 * (v / 256) + v % 256;
    var low := v % 256 + 256 * r;
    assert v == (256 * p) * q + low by {
      assert 256 * (q * p) == (256 * p) * q;
    }
    assert 0 <= low < 256 * p;
    Unique(v, 256 * p, q, low);
  }

  // ------------------------------------------------------------------ fields

  /** Two's complement. */
  function Unsigned(i: i64): u64 {
    if i < 0 then i + 0x1_0000_0000_0000_0000 else i
  }

  function Signed(u: u64): i64 {
    if u < 0x8000_0000_0000_0000 then u else u - 0x1_0000_0000_0000_0000
  }

  /** The bytes written at offset 8 of a field; the rest of its 16 bytes stays zero. */
  function ValueBytes(v: Value): (s: seq<byte>)
    ensures |s| <= 8
  {
    match v
    case Str(text) => text[..Min(|text|, 8)]
    case I64(i) => LittleEndian(Unsigned(i), 8)
    case U64(u) => LittleEndian(u, 8)
    case F64(bits) => LittleEndian(bits, 8)
    case Bool(b) => [if b then 1 else 0]
  }

  function Padded(s: seq<byte>, n: nat): (p: seq<byte>)
    requires |s| <= n
    ensures |p| == n
  {
    s + Zeros(n - |s|)
  }

  function StoredKey(key: seq<byte>): (k: seq<byte>)
    ensures |k| <= MAX_KEY_BYTES
  {
    key[..Min(|key|, MAX_KEY_BYTES)]
  }

  function FieldBytes(f: Field): (s: seq<byte>)
    ensures |s| == FIELD_BYTES
  {
    [KindCode(f.value), |StoredKey(f.key)|] + Padded(StoredKey(f.key), MAX_KEY_BYTES) + Padded(ValueBytes(f.value), 8)
  }

  /** What survives of a field: six bytes of the key, eight of a string, whose length is not kept. */
  function Stored(f: Field): Field {
    Field(StoredKey(f.key), match f.value case Str(_) => Str(Padded(ValueBytes(f.value), 8)) case _ => f.value)
  }

  function DecodeValue(kind: byte, s: seq<byte>): Option<Value>
    requires |s| == 8
  {
    var n := FromLittleEndian(s);
    if kind == 0 then Some(Str(s))
    else if n >= 0x1_0000_0000_0000_0000 then None
    else if kind == 1 then Some(I64(Signed(n)))
    else if kind == 2 then Some(U64(n))
    else if kind == 3 then Some(F64(n))
    else if kind == 4 then Some(Bool(s[0] != 0))
    else None
  }

  function DecodeField(s: seq<byte>): Option<Field>
    requires |s| == FIELD_BYTES
  {
    if s[1] as nat > MAX_KEY_BYTES then None
    else
      match DecodeValue(s[0], s[8..])
      case None => None
      case Some(v) => Some(Field(s[2..2 + s[1]], v))
  }

  lemma {:induction false} LittleEndianZeros(n: nat)
    ensures FromLittleEndian(Zeros(n)) == 0
  {
    if n > 0 {
      assert Zeros(n)[1..] == Zeros(n - 1);
      LittleEndianZeros(n - 1);
    }
  }

  lemma FlagDecodes(b: bool)
    ensures FromLittleEndian(Padded([if b then 1 else 0], 8)) == if b then 1 else 0
  {
    var s := Padded([if b then 1 else 0], 8);
    assert s[1..] == Zeros(7);
    LittleEndianZeros(7);
  }

  lemma NumberDecodes(u: u64)
    ensures Padded(LittleEndian(u, 8), 8) == LittleEndian(u, 8)
    ensures FromLittleEndian(LittleEndian(u, 8)) == u
  {
    LittleEndianRoundTrip(u, 8);
    assert Power256(8) == 0x1_0000_0000_0000_0000;
    hide LittleEndian, FromLittleEndian, Power256;
  }

  lemma ValueDecodes(v: Value)
    ensures DecodeValue(KindCode(v), Padded(ValueBytes(v), 8))
         == Some(if v.Str? then Str(Padded(ValueBytes(v), 8)) else v)
  {
    hide LittleEndian, FromLittleEndian, Padded;
    match v {
      case Str(_) =>
      case I64(i) => NumberDecodes(Unsigned(i));
      case U64(u) => NumberDecodes(u);
      case F64(u) => NumberDecodes(u);
      case Bool(b) =>
        FlagDecodes(b);
        assert Padded([if b then 1 else 0], 8)[0] == (if b then 1 else 0) by { FirstByte(b); }
    }
  }

  lemma FirstByte(b: bool)
    ensures Padded([if b then 1 else 0], 8)[0] == if b then 1 else 0
  {
  }

  /** A decoder recovers the truncated key, every number and flag, and eight bytes of a string. */
  lemma FieldDecodes(f: Field)
    ensures DecodeField(FieldBytes(f)) == Some(Stored(f))
  {
    hide DecodeValue, ValueBytes, KindCode;
    var s := FieldBytes(f);
    ValueDecodes(f.value);
    assert s[8..] == Padded(ValueBytes(f.value), 8);
    assert s[2..2 + s[1]] == StoredKey(f.key);
  }

  /** The eight bytes of a value: a string cut there, a number least significant byte first, a flag; zeros behind. */
  ghost predicate HoldsValue(s: seq<byte>, v: Value)
    requires |s| == 8
  {
    match v
    case Str(text) => forall i | 0 <= i < 8 :: s[i] == if i < |text| then text[i] else 0
    case I64(n) =>
      forall i: nat | i < 8 :: s[i] == (if n < 0 then n + 0x1_0000_0000_0000_0000 else n) / Power256(i) % 256
    case U64(n) => forall i: nat | i < 8 :: s[i] == n / Power256(i) % 256
    case F64(bits) => forall i: nat | i < 8 :: s[i] == bits / Power256(i) % 256
    case Bool(b) => forall i | 0 <= i < 8 :: s[i] == if i == 0 && b then 1 else 0
  }

  /** Where everything lies in a field: kind, length of the key kept, its bytes, the value from byte 8 on. */
  lemma FieldLayout(f: Field)
    ensures var s := FieldBytes(f);
            && s[0] == (if f.value.Str? then 0 else if f.value.I64? then 1 else if f.value.U64? then 2
                        else if f.value.F64? then 3 else 4)
            && s[1] == (if |f.key| < 6 then |f.key| else 6)
            && (forall i | 0 <= i < 6 :: s[2 + i] == if i < |f.key| then f.key[i] else 0)
            && HoldsValue(s[8..], f.value)
  {
    var s := FieldBytes(f);
    assert s[8..] == Padded(ValueBytes(f.value), 8);
    hide FieldBytes, LittleEndian, Power256;
    NumberBytes(f.value);
  }

  lemma NumberBytes(v: Value)
    ensures HoldsValue(Padded(ValueBytes(v), 8), v)
  {
    hide LittleEndian, Power256;
    if v.I64? || v.U64? || v.F64? {
      var n := if v.I64? then Unsigned(v.i) else if v.U64? then v.u else v.bits;
      forall i: nat | i < 8 ensures LittleEndian(n, 8)[i] == n / Power256(i) % 256 {
        LittleEndianBytes(n, 8, i);
      }
    }
  }

  // ------------------------------------------------------------------ frames

  function StoredName(event: seq<byte>): (s: seq<byte>)
    ensures |s| <= MAX_NAME_LEN
  {
    event[..Min(|event|, MAX_NAME_LEN)]
  }

  /** How many fields fit behind the header and the name. */
  function FieldRoom(event: seq<byte>): nat {
    (FRAME_BYTES - HEADER_BYTES - |StoredName(event)|) / FIELD_BYTES
  }

  function StoredFields(event: seq<byte>, fields: seq<Field>): seq<Field> {
    fields[..Min(|fields|, FieldRoom(event))]
  }

  function FieldsBytes(fields: seq<Field>): (s: seq<byte>)
    ensures |s| == FIELD_BYTES * |fields|
  {
    if fields == [] then [] else FieldsBytes(fields[..|fields| - 1]) + FieldBytes(fields[|fields| - 1])
  }

  function Header(seqno: nat, level: Level, event: seq<byte>, fields: seq<Field>): (s: seq<byte>)
    ensures |s| == HEADER_BYTES
  {
    LittleEndian(seqno, 8) + [LevelCode(level), |StoredFields(event, fields)|] + LittleEndian(|StoredName(event)|, 2)
  }

  /** The written part of a frame. */
  function Body(seqno: nat, level: Level, event: seq<byte>, fields: seq<Field>): seq<byte> {
    Header(seqno, level, event, fields) + StoredName(event) + FieldsBytes(StoredFields(event, fields))
  }

  /** Whatever is traced, header, name and fields fit in the frame. */
  lemma BodyFits(seqno: nat, level: Level, event: seq<byte>, fields: seq<Field>)
    ensures |Body(seqno, level, event, fields)|
         == HEADER_BYTES + |StoredName(event)| + FIELD_BYTES * |StoredFields(event, fields)| <= FRAME_BYTES
  {
    hide Header, FieldsBytes;
  }

  function FrameBytes(seqno: nat, level: Level, event: seq<byte>, fields: seq<Field>): (s: seq<byte>)
    ensures |s| == FRAME_BYTES
  {
    BodyFits(seqno, level, event, fields);
    Padded(Body(seqno, level, event, fields), FRAME_BYTES)
  }

  lemma HeaderLayout(seqno: nat, level: Level, event: seq<byte>, fields: seq<Field>)
    ensures var h := Header(seqno, level, event, fields);
            && (forall i: nat | i < 8 :: h[i] == seqno / Power256(i) % 256)
            && h[8] == (if level.Off? then 0 else if level.Warn? then 1 else if level.Info? then 2 else 3)
            && h[9] as int == |StoredFields(event, fields)|
            && h[10] as int + 256 * (h[11] as int) == |StoredName(event)|
  {
    var n := |StoredName(event)|;
    forall i: nat | i < 8 ensures LittleEndian(seqno, 8)[i] == seqno / Power256(i) % 256 {
      LittleEndianBytes(seqno, 8, i);
    }
    LittleEndianBytes(n, 2, 0);
    LittleEndianBytes(n, 2, 1);
    assert Power256(0) == 1 && Power256(1) == 256;
    hide LittleEndian, Power256;
  }

  lemma {:induction false} FieldPlace(fields: seq<Field>, k: nat)
    requires k < |fields|
    ensures FieldsBytes(fields)[FIELD_BYTES * k..FIELD_BYTES * k + FIELD_BYTES] == FieldBytes(fields[k])
  {
    hide FieldBytes;
    var n := |fields| - 1;
    if k < n {
      FieldPlace(fields[..n], k);
      assert FieldsBytes(fields)[FIELD_BYTES * k..FIELD_BYTES * k + FIELD_BYTES]
          == FieldsBytes(fields[..n])[FIELD_BYTES * k..FIELD_BYTES * k + FIELD_BYTES];
    }
  }

  lemma FrameParts(seqno: nat, level: Level, event: seq<byte>, fields: seq<Field>)
    ensures var (s, n) := (FrameBytes(seqno, level, event, fields), |StoredName(event)|);
            var fs := FieldsBytes(StoredFields(event, fields));
            && |s| == 256 && 12 + n + |fs| <= 256
            && s[..12] == Header(seqno, level, event, fields) && s[12..12 + n] == StoredName(event)
            && s[12 + n..12 + n + |fs|] == fs
            && (forall i | 12 + n + |fs| <= i < 256 :: s[i] == 0)
  {
    BodyFits(seqno, level, event, fields);
    hide Header, FieldsBytes, StoredName, StoredFields;
  }

  /** Where everything lies in front: number, level, how many fields there was room for, length of the name, name. */
  lemma FrameLayout(seqno: nat, level: Level, event: seq<byte>, fields: seq<Field>)
    ensures var s := FrameBytes(seqno, level, event, fields);
            var n := if |event| < 64 then |event| else 64;
            var room := (256 - 12 - n) / 16;
            && |s| == 256
            && (forall i: nat | i < 8 :: s[i] == seqno / Power256(i) % 256)
            && s[8] == (if level.Off? then 0 else if level.Warn? then 1 else if level.Info? then 2 else 3)
            && s[9] as int == (if |fields| < room then |fields| else room)
            && s[10] as int + 256 * (s[11] as int) == n
            && s[12..12 + n] == event[..n]
  {
    var s := FrameBytes(seqno, level, event, fields);
    HeaderLayout(seqno, level, event, fields);
    FrameParts(seqno, level, event, fields);
    hide Header, FrameBytes, FieldsBytes, Power256;
    forall i | 0 <= i < 12 ensures s[i] == s[..12][i] {
    }
  }

  /** Behind the name the fields kept, sixteen bytes each, in order, and zeros up to the end. */
  lemma FieldsLayout(seqno: nat, level: Level, event: seq<byte>, fields: seq<Field>, k: nat)
    ensures var s := FrameBytes(seqno, level, event, fields);
            var at := 12 + (if |event| < 64 then |event| else 64);
            && at + 16 * (s[9] as int) <= 256 && s[9] as int <= |fields|
            && (k < s[9] ==> s[at + 16 * k..at + 16 * k + 16] == FieldBytes(fields[k]))
            && (forall i | at + 16 * (s[9] as int) <= i < 256 :: s[i] == 0)
  {
    hide FrameBytes, FieldsBytes, FieldBytes, Header, Power256;
    var s, kept := FrameBytes(seqno, level, event, fields), StoredFields(event, fields);
    FrameLayout(seqno, level, event, fields);
    FrameParts(seqno, level, event, fields);
    if k < |kept| {
      FieldPlace(kept, k);
      SliceOfSlice(s, FieldsBytes(kept), 12 + |StoredName(event)|, 16 * k);
    }
  }

  lemma SliceOfSlice(s: seq<byte>, part: seq<byte>, at: nat, k: nat)
    requires at + |part| <= |s| && s[at..at + |part|] == part && k + 16 <= |part|
    ensures s[at + k..at + k + 16] == part[k..k + 16]
  {
    var a, b := s[at + k..at + k + 16], part[k..k + 16];
    forall i | 0 <= i < 16 ensures a[i] == b[i] {
      assert s[at..at + |part|][k + i] == part[k + i];
    }
  }

  // ------------------------------------------------------------------ decoding a frame

  function DecodeFields(s: seq<byte>, count: nat): (r: Option<seq<Field>>)
    requires |s| >= FIELD_BYTES * count
    ensures r.Some? ==> |r.value| == count
  {
    if count == 0 then Some([])
    else
      match DecodeFields(s, count - 1)
      case None => None
      case Some(fields) =>
        match DecodeField(s[FIELD_BYTES * (count - 1)..FIELD_BYTES * count])
        case None => None
        case Some(f) => Some(fields + [f])
  }

  function LevelOf(code: byte): Option<Level> {
    if code == 0 then Some(Off) else if code == 1 then Some(Warn)
    else if code == 2 then Some(Info) else if code == 3 then Some(Debug) else None
  }

  function DecodeFrame(s: seq<byte>): Option<Frame>
    requires |s| == FRAME_BYTES
  {
    var name, count := FromLittleEndian(s[10..12]), s[9] as nat;
    if LevelOf(s[8]).None? || HEADER_BYTES + name + FIELD_BYTES * count > FRAME_BYTES then None
    else
      match DecodeFields(s[HEADER_BYTES + name..], count)
      case None => None
      case Some(fields) =>
        Some(Frame(FromLittleEndian(s[..8]), LevelOf(s[8]).value, s[HEADER_BYTES..HEADER_BYTES + name], fields))
  }

  function StoredEach(fields: seq<Field>): (r: seq<Field>)
    ensures |r| == |fields|
  {
    if fields == [] then [] else StoredEach(fields[..|fields| - 1]) + [Stored(fields[|fields| - 1])]
  }

  lemma {:induction false} FieldsDecode(fields: seq<Field>, rest: seq<byte>)
    ensures DecodeFields(FieldsBytes(fields) + rest, |fields|) == Some(StoredEach(fields))
  {
    hide FieldBytes, DecodeField, Stored;
    if fields != [] {
      var n := |fields|;
      var init, last := fields[..n - 1], fields[n - 1];
      var s := FieldsBytes(fields) + rest;
      FieldsDecode(init, FieldBytes(last) + rest);
      assert s == FieldsBytes(init) + (FieldBytes(last) + rest);
      assert s[FIELD_BYTES * (n - 1)..FIELD_BYTES * n] == FieldBytes(last);
      FieldDecodes(last);
    }
  }

  lemma HeaderDecodes(seqno: nat, level: Level, event: seq<byte>, fields: seq<Field>)
    ensures var s := Header(seqno, level, event, fields);
            && FromLittleEndian(s[..8]) == seqno % Power256(8)
            && LevelOf(s[8]) == Some(level)
            && s[9] as nat == |StoredFields(event, fields)|
            && FromLittleEndian(s[10..12]) == |StoredName(event)|
  {
    var s := Header(seqno, level, event, fields);
    LittleEndianRoundTrip(seqno, 8);
    LittleEndianRoundTrip(|StoredName(event)|, 2);
    assert Power256(2) == 65536;
    hide LittleEndian, FromLittleEndian, Power256;
    assert s[..8] == LittleEndian(seqno, 8);
    assert s[10..12] == LittleEndian(|StoredName(event)|, 2);
  }

  /** A frame gives back its number modulo 2^64, its level, 64 bytes of the name and every field there was room for. */
  lemma FrameDecodes(seqno: nat, level: Level, event: seq<byte>, fields: seq<Field>)
    ensures DecodeFrame(FrameBytes(seqno, level, event, fields))
         == Some(Frame(seqno % Power256(8), level, StoredName(event), StoredEach(StoredFields(event, fields))))
  {
    hide LittleEndian, FromLittleEndian, Power256, LevelOf, Header, StoredFields, FieldsBytes, DecodeFields;
    var s := FrameBytes(seqno, level, event, fields);
    var h, name, kept := Header(seqno, level, event, fields), StoredName(event), StoredFields(event, fields);
    BodyFits(seqno, level, event, fields);
    var pad := Zeros(FRAME_BYTES - |Body(seqno, level, event, fields)|);
    assert s == h + name + FieldsBytes(kept) + pad;
    HeaderDecodes(seqno, level, event, fields);
    assert s[..8] == h[..8] && s[10..12] == h[10..12] && s[8] == h[8] && s[9] == h[9];
    assert s[HEADER_BYTES..HEADER_BYTES + |name|] == name;
    assert s[HEADER_BYTES + |name|..] == FieldsBytes(kept) + pad;
    FieldsDecode(kept, pad);
  }
}
