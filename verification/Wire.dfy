/** The datagram codec: fixed-layout little-endian frames for beacons and messages. */
module Wire {
  import opened Bytes
  import opened Counting

  type u16 = x: int | 0 <= x < 0x1_0000
  type u32 = x: int | 0 <= x < 0x1_0000_0000

  type Bytes16 = s: seq<byte> | |s| == 16 witness seq(16, _ => 0)
  type Bytes32 = s: seq<byte> | |s| == 32 witness seq(32, _ => 0)
  type Bytes64 = s: seq<byte> | |s| == 64 witness seq(64, _ => 0)
  type Bytes128 = s: seq<byte> | |s| == 128 witness seq(128, _ => 0)

  const TAG_BEACON: byte := 0x01
  const TAG_MESSAGE: byte := 0x02
  const FRAME_HEADER_BYTES := 5
  const BEACON_PAYLOAD_BYTES: u32 := 155
  const BEACON_SIGNED_PREFIX_BYTES := 91
  const MESSAGE_PAYLOAD_BYTES: u32 := 176
  const MAX_FRAME_BYTES := 181

  datatype HierarchicalId = HierarchicalId(swarm: u16, unit: Bytes16)

  /** Floats are their 32-bit patterns. */
  datatype Vector = Vector(x: u32, y: u32, z: u32)

  datatype StateVector = StateVector(
    id: HierarchicalId, position: Vector, velocity: Vector, health: byte,
    role: u32, state: u32, tick: u32, syncTime: u32,
    senderPubkey: Bytes32, signature: Bytes64)

  datatype Message = Message(
    sender: HierarchicalId, recipient: HierarchicalId, kind: u32, seqNo: u32, timestamp: u32, payload: Bytes128)

  // ------------------------------------------------------------------ scalars

  function PutU16(v: u16): (s: seq<byte>)
    ensures |s| == 2
  {
    [v % 256, v / 256]
  }

  function GetU16(s: seq<byte>): u16
    requires |s| == 2
  {
    s[0] as int + 0x100 * (s[1] as int)
  }

  function PutU32(v: u32): (s: seq<byte>)
    ensures |s| == 4
  {
    [v % 256, v / 0x100 % 256, v / 0x1_0000 % 256, v / 0x100_0000]
  }

  function GetU32(s: seq<byte>): u32
    requires |s| == 4
  {
    s[0] as int + 0x100 * (s[1] as int) + 0x1_0000 * (s[2] as int) + 0x100_0000 * (s[3] as int)
  }

  lemma U16RoundTrip(v: u16, s: seq<byte>)
    ensures GetU16(PutU16(v)) == v
    ensures |s| == 2 ==> PutU16(GetU16(s)) == s
  {
  }

  lemma U32RoundTrip(v: u32, s: seq<byte>)
    ensures GetU32(PutU32(v)) == v
    ensures |s| == 4 ==> PutU32(GetU32(s)) == s
  {
    U32Kept(v);
    if |s| == 4 {
      U32Restored(s);
    }
  }

  lemma U32Kept(v: u32)
    ensures GetU32(PutU32(v)) == v
  {
    assert v / 0x1_0000 == v / 0x100 / 256 && v / 0x100_0000 == v / 0x1_0000 / 256;
  }

  lemma U32Restored(s: seq<byte>)
    requires |s| == 4
    ensures PutU32(GetU32(s)) == s
  {
    var w := GetU32(s);
    assert w / 0x100 == s[1] as int + 0x100 * (s[2] as int) + 0x1_0000 * (s[3] as int);
    assert w / 0x1_0000 == s[2] as int + 0x100 * (s[3] as int);
    assert w / 0x100_0000 == s[3];
    assert PutU32(w)[0] == s[0] && PutU32(w)[1] == s[1] && PutU32(w)[2] == s[2] && PutU32(w)[3] == s[3];
  }

  function PutHid(h: HierarchicalId): (s: seq<byte>)
    ensures |s| == 18
  {
    PutU16(h.swarm) + h.unit
  }

  function GetHid(s: seq<byte>): HierarchicalId
    requires |s| == 18
  {
    HierarchicalId(GetU16(s[..2]), s[2..])
  }

  lemma HidRoundTrip(h: HierarchicalId, s: seq<byte>)
    ensures GetHid(PutHid(h)) == h
    ensures |s| == 18 ==> PutHid(GetHid(s)) == s
  {
    var p := PutHid(h);
    assert p[..2] == PutU16(h.swarm) && p[2..] == h.unit;
    U16RoundTrip(h.swarm, p[..2]);
    if |s| == 18 {
      U16RoundTrip(0, s[..2]);
      assert s[..2] + s[2..] == s;
    }
  }

  // ------------------------------------------------------------------ fields written one after the other

  function Join(fields: seq<seq<byte>>): seq<byte> {
    if fields == [] then [] else Join(fields[..|fields| - 1]) + fields[|fields| - 1]
  }

  /** Cuts a buffer of the right total length into fields of the given sizes. */
  function Split(s: seq<byte>, sizes: seq<nat>): (fields: seq<seq<byte>>)
    requires |s| == Total(sizes)
    ensures Sized(fields, sizes)
    decreases |sizes|
  {
    if sizes == [] then []
    else
      var n := |sizes| - 1;
      Split(s[..|s| - sizes[n]], sizes[..n]) + [s[|s| - sizes[n]..]]
  }

  predicate Sized(fields: seq<seq<byte>>, sizes: seq<nat>) {
    |fields| == |sizes| && forall k | 0 <= k < |fields| :: |fields[k]| == sizes[k]
  }

  lemma {:induction false} JoinLength(fields: seq<seq<byte>>, sizes: seq<nat>)
    requires Sized(fields, sizes)
    ensures |Join(fields)| == Total(sizes)
  {
    if fields != [] {
      JoinLength(fields[..|fields| - 1], sizes[..|sizes| - 1]);
    }
  }

  lemma {:induction false} SplitJoin(fields: seq<seq<byte>>, sizes: seq<nat>)
    requires Sized(fields, sizes)
    ensures |Join(fields)| == Total(sizes) && Split(Join(fields), sizes) == fields
  {
    JoinLength(fields, sizes);
    if fields != [] {
      var n := |fields| - 1;
      SplitJoin(fields[..n], sizes[..n]);
      var s := Join(fields);
      assert s[..|s| - sizes[n]] == Join(fields[..n]) && s[|s| - sizes[n]..] == fields[n];
    }
  }

  lemma JoinAppend(fields: seq<seq<byte>>, last: seq<byte>)
    ensures Join(fields + [last]) == Join(fields) + last
  {
    assert (fields + [last])[..|fields|] == fields;
  }

  lemma {:induction false} JoinSplit(s: seq<byte>, sizes: seq<nat>)
    requires |s| == Total(sizes)
    ensures Join(Split(s, sizes)) == s
    decreases |sizes|
  {
    if sizes != [] {
      var n := |sizes| - 1;
      var head, last := s[..|s| - sizes[n]], s[|s| - sizes[n]..];
      JoinSplit(head, sizes[..n]);
      assert Split(s, sizes) == Split(head, sizes[..n]) + [last];
      hide Split, Join, Total;
      JoinAppend(Split(head, sizes[..n]), last);
      assert head + last == s;
    }
  }

  // ------------------------------------------------------------------ layouts

  const SIGNED_SIZES: seq<nat> := [18, 4, 4, 4, 4, 4, 4, 1, 4, 4, 4, 4, 32]
  const BEACON_SIZES: seq<nat> := [1, 4, 18, 4, 4, 4, 4, 4, 4, 1, 4, 4, 4, 4, 32, 64]
  const MESSAGE_SIZES: seq<nat> := [1, 4, 18, 18, 4, 4, 4, 128]

  /** The fields a sender signs, in wire order. */
  function SignedFields(sv: StateVector): seq<seq<byte>> {
    [PutHid(sv.id),
     PutU32(sv.position.x), PutU32(sv.position.y), PutU32(sv.position.z),
     PutU32(sv.velocity.x), PutU32(sv.velocity.y), PutU32(sv.velocity.z),
     [sv.health], PutU32(sv.role), PutU32(sv.state), PutU32(sv.tick), PutU32(sv.syncTime),
     sv.senderPubkey]
  }

  function BeaconFields(sv: StateVector): seq<seq<byte>> {
    [[TAG_BEACON], PutU32(BEACON_PAYLOAD_BYTES)] + SignedFields(sv) + [sv.signature]
  }

  function MessageFields(m: Message): seq<seq<byte>> {
    [[TAG_MESSAGE], PutU32(MESSAGE_PAYLOAD_BYTES), PutHid(m.sender), PutHid(m.recipient),
     PutU32(m.kind), PutU32(m.seqNo), PutU32(m.timestamp), m.payload]
  }

  lemma Totals()
    ensures Total(SIGNED_SIZES) == BEACON_SIGNED_PREFIX_BYTES
    ensures Total(BEACON_SIZES) == FRAME_HEADER_BYTES + BEACON_PAYLOAD_BYTES
    ensures Total(MESSAGE_SIZES) == FRAME_HEADER_BYTES + MESSAGE_PAYLOAD_BYTES
  {
    SignedTotal();
    TotalConcat([1, 4], SIGNED_SIZES + [64]);
    TotalConcat(SIGNED_SIZES, [64]);
    TotalUnfolded([1, 4]);
    TotalUnfolded([64]);
    assert BEACON_SIZES == [1, 4] + (SIGNED_SIZES + [64]);
    MessageTotal();
  }

  lemma SignedTotal()
    ensures Total(SIGNED_SIZES) == BEACON_SIGNED_PREFIX_BYTES
  {
    var s := SIGNED_SIZES;
    TotalUnfolded(s);
    assert SumFrom(s, 13) == 0;
    assert SumFrom(s, 11) == 36;
    assert SumFrom(s, 9) == 44;
    assert SumFrom(s, 7) == 49;
    assert SumFrom(s, 5) == 57;
    assert SumFrom(s, 3) == 65;
    assert SumFrom(s, 1) == 73;
  }

  lemma MessageTotal()
    ensures Total(MESSAGE_SIZES) == FRAME_HEADER_BYTES + MESSAGE_PAYLOAD_BYTES
  {
    var s := MESSAGE_SIZES;
    TotalUnfolded(s);
    assert SumFrom(s, 8) == 0;
    assert SumFrom(s, 6) == 132;
    assert SumFrom(s, 4) == 140;
    assert SumFrom(s, 2) == 176;
  }

  lemma {:induction false} TotalConcat(a: seq<nat>, b: seq<nat>)
    ensures Total(a + b) == Total(a) + Total(b)
  {
    if b == [] {
      assert a + b == a;
    } else {
      assert (a + b)[..|a + b| - 1] == a + b[..|b| - 1];
      TotalConcat(a, b[..|b| - 1]);
    }
  }

  function SumFrom(sizes: seq<nat>, k: nat): nat
    requires k <= |sizes|
    decreases |sizes| - k
  {
    if k == |sizes| then 0 else sizes[k] + SumFrom(sizes, k + 1)
  }

  lemma {:induction false} TotalUnfolded(sizes: seq<nat>)
    ensures Total(sizes) == SumFrom(sizes, 0)
  {
    TotalPrefix(sizes, |sizes|);
    assert sizes[..|sizes|] == sizes;
  }

  lemma {:induction false} TotalPrefix(sizes: seq<nat>, k: nat)
    requires k <= |sizes|
    ensures Total(sizes[..k]) + SumFrom(sizes, k) == SumFrom(sizes, 0)
  {
    if k > 0 {
      assert sizes[..k][..k - 1] == sizes[..k - 1];
      TotalPrefix(sizes, k - 1);
    }
  }

  /** The bytes of a beacon frame. */
  function BeaconFrame(sv: StateVector): seq<byte> { Join(BeaconFields(sv)) }

  function MessageFrame(m: Message): seq<byte> { Join(MessageFields(m)) }

  function PeekTag(s: seq<byte>): byte {
    if |s| > 0 then s[0] else 0
  }

  function FieldsToBeacon(f: seq<seq<byte>>): StateVector
    requires Sized(f, BEACON_SIZES)
  {
    StateVector(GetHid(f[2]), Vector(GetU32(f[3]), GetU32(f[4]), GetU32(f[5])),
                Vector(GetU32(f[6]), GetU32(f[7]), GetU32(f[8])), f[9][0],
                GetU32(f[10]), GetU32(f[11]), GetU32(f[12]), GetU32(f[13]), f[14], f[15])
  }

  function FieldsToMessage(f: seq<seq<byte>>): Message
    requires Sized(f, MESSAGE_SIZES)
  {
    Message(GetHid(f[2]), GetHid(f[3]), GetU32(f[4]), GetU32(f[5]), GetU32(f[6]), f[7])
  }

  function DecodeBeacon(s: seq<byte>): Option<StateVector> {
    if |s| < Total(BEACON_SIZES) then None
    else if s[0] != TAG_BEACON then None
    else if GetU32(s[1..5]) != BEACON_PAYLOAD_BYTES then None
    else Some(FieldsToBeacon(Split(s[..Total(BEACON_SIZES)], BEACON_SIZES)))
  }

  function DecodeMessage(s: seq<byte>): Option<Message> {
    if |s| < Total(MESSAGE_SIZES) then None
    else if s[0] != TAG_MESSAGE then None
    else if GetU32(s[1..5]) != MESSAGE_PAYLOAD_BYTES then None
    else Some(FieldsToMessage(Split(s[..Total(MESSAGE_SIZES)], MESSAGE_SIZES)))
  }

  // ------------------------------------------------------------------ round trips

  lemma {:induction false} SplitHead(s: seq<byte>, sizes: seq<nat>)
    requires |s| == Total(sizes) && |sizes| >= 2
    ensures |s| >= sizes[0] + sizes[1]
    ensures Split(s, sizes)[0] == s[..sizes[0]] && Split(s, sizes)[1] == s[sizes[0]..sizes[0] + sizes[1]]
    decreases |sizes|
  {
    var n := |sizes| - 1;
    var head := s[..|s| - sizes[n]];
    assert Total(sizes) == Total(sizes[..n]) + sizes[n];
    assert Split(s, sizes) == Split(head, sizes[..n]) + [s[|s| - sizes[n]..]];
    if |sizes| > 2 {
      SplitHead(head, sizes[..n]);
      assert sizes[..n][0] == sizes[0] && sizes[..n][1] == sizes[1];
      assert head[..sizes[0]] == s[..sizes[0]];
      assert head[sizes[0]..sizes[0] + sizes[1]] == s[sizes[0]..sizes[0] + sizes[1]];
    } else {
      SplitOne(head, sizes[..1]);
      assert |head| == sizes[0] && |s| == sizes[0] + sizes[1];
      assert s[sizes[0]..] == s[sizes[0]..sizes[0] + sizes[1]];
    }
  }

  lemma SplitOne(s: seq<byte>, sizes: seq<nat>)
    requires |sizes| == 1 && |s| == Total(sizes)
    ensures |s| == sizes[0] && Split(s, sizes) == [s]
  {
    assert sizes[..0] == [] && Total(sizes[..0]) == 0;
    assert s[..|s| - sizes[0]] == [] && s[|s| - sizes[0]..] == s;
    assert Split([], sizes[..0]) == [];
  }

  lemma BeaconFieldsSized(sv: StateVector)
    ensures Sized(BeaconFields(sv), BEACON_SIZES)
  {
  }

  /** A received beacon frame decodes to the state vector it encodes, whatever follows it. */
  lemma BeaconRoundTrip(sv: StateVector, rest: seq<byte>)
    ensures |BeaconFrame(sv)| == 160 && PeekTag(BeaconFrame(sv) + rest) == TAG_BEACON
    ensures DecodeBeacon(BeaconFrame(sv) + rest) == Some(sv)
  {
    Totals();
    BeaconFieldsSized(sv);
    var f, frame := BeaconFields(sv), BeaconFrame(sv);
    SplitJoin(f, BEACON_SIZES);
    SplitHead(frame, BEACON_SIZES);
    assert (frame + rest)[..160] == frame && (frame + rest)[1..5] == frame[1..5];
    U32RoundTrip(BEACON_PAYLOAD_BYTES, []);
    BeaconFieldsInverse(sv);
  }

  lemma BeaconFieldsInverse(sv: StateVector)
    ensures Sized(BeaconFields(sv), BEACON_SIZES) && FieldsToBeacon(BeaconFields(sv)) == sv
  {
    HidRoundTrip(sv.id, []);
    VectorRoundTrip(sv.position);
    VectorRoundTrip(sv.velocity);
    U32RoundTrip(sv.role, []);
    U32RoundTrip(sv.state, []);
    U32RoundTrip(sv.tick, []);
    U32RoundTrip(sv.syncTime, []);
  }

  lemma VectorRoundTrip(v: Vector)
    ensures Vector(GetU32(PutU32(v.x)), GetU32(PutU32(v.y)), GetU32(PutU32(v.z))) == v
  {
    U32RoundTrip(v.x, []);
    U32RoundTrip(v.y, []);
    U32RoundTrip(v.z, []);
  }

  /** Only frames decode: what decodes is, byte for byte, the frame of the result and a tail. */
  lemma BeaconDecodeExact(s: seq<byte>)
    requires DecodeBeacon(s).Some?
    ensures |s| >= 160 && s[..160] == BeaconFrame(DecodeBeacon(s).value)
  {
    Totals();
    var f := Split(s[..160], BEACON_SIZES);
    SplitHead(s[..160], BEACON_SIZES);
    JoinSplit(s[..160], BEACON_SIZES);
    assert s[..160][1..5] == s[1..5];
    U32RoundTrip(0, f[1]);
    FieldsOfDecoded(f);
  }

  lemma FieldsOfDecoded(f: seq<seq<byte>>)
    requires Sized(f, BEACON_SIZES) && f[0] == [TAG_BEACON] && f[1] == PutU32(BEACON_PAYLOAD_BYTES)
    ensures BeaconFields(FieldsToBeacon(f)) == f
  {
    HidRoundTrip(HierarchicalId(0, seq(16, _ => 0)), f[2]);
    forall k | 3 <= k < 14 && k != 9 ensures PutU32(GetU32(f[k])) == f[k] {
      U32RoundTrip(0, f[k]);
    }
    var g := BeaconFields(FieldsToBeacon(f));
    assert |g| == |f| == 16;
    forall k | 0 <= k < 16 ensures g[k] == f[k] {
    }
  }

  lemma MessageFieldsInverse(m: Message)
    ensures Sized(MessageFields(m), MESSAGE_SIZES) && FieldsToMessage(MessageFields(m)) == m
  {
    HidRoundTrip(m.sender, []);
    HidRoundTrip(m.recipient, []);
    U32RoundTrip(m.kind, []);
    U32RoundTrip(m.seqNo, []);
    U32RoundTrip(m.timestamp, []);
    hide GetU32, PutU32, GetHid, PutHid;
  }

  lemma MessageRoundTrip(m: Message, rest: seq<byte>)
    ensures |MessageFrame(m)| == 181 && PeekTag(MessageFrame(m) + rest) == TAG_MESSAGE
    ensures DecodeMessage(MessageFrame(m) + rest) == Some(m)
  {
    Totals();
    MessageFieldsInverse(m);
    var f, frame := MessageFields(m), MessageFrame(m);
    SplitJoin(f, MESSAGE_SIZES);
    SplitHead(frame, MESSAGE_SIZES);
    assert (frame + rest)[..181] == frame && (frame + rest)[1..5] == frame[1..5];
    U32RoundTrip(MESSAGE_PAYLOAD_BYTES, []);
    assert f[0] == [TAG_MESSAGE] && f[1] == PutU32(MESSAGE_PAYLOAD_BYTES);
    hide Total, Split, Join, FieldsToMessage, MessageFields, GetU32, PutU32;
  }

  lemma MessageDecodeExact(s: seq<byte>)
    requires DecodeMessage(s).Some?
    ensures |s| >= 181 && s[..181] == MessageFrame(DecodeMessage(s).value)
  {
    Totals();
    var f := Split(s[..181], MESSAGE_SIZES);
    SplitHead(s[..181], MESSAGE_SIZES);
    JoinSplit(s[..181], MESSAGE_SIZES);
    assert s[..181][1..5] == s[1..5];
    U32RoundTrip(0, f[1]);
    FieldsOfDecodedMessage(f);
  }

  lemma FieldsOfDecodedMessage(f: seq<seq<byte>>)
    requires Sized(f, MESSAGE_SIZES) && f[0] == [TAG_MESSAGE] && f[1] == PutU32(MESSAGE_PAYLOAD_BYTES)
    ensures MessageFields(FieldsToMessage(f)) == f
  {
    HidRoundTrip(HierarchicalId(0, seq(16, _ => 0)), f[2]);
    HidRoundTrip(HierarchicalId(0, seq(16, _ => 0)), f[3]);
    forall k | 4 <= k < 7 ensures PutU32(GetU32(f[k])) == f[k] {
      U32RoundTrip(0, f[k]);
    }
    var g := MessageFields(FieldsToMessage(f));
    assert |g| == |f| == 8;
    forall k | 0 <= k < 8 ensures g[k] == f[k] {
    }
  }

  // ------------------------------------------------------------------ where every field lies

  /** Four bytes from at on hold v, least significant first. */
  predicate Holds32(s: seq<byte>, at: nat, v: int) {
    && at + 4 <= |s|
    && s[at] == v % 256 && s[at + 1] == v / 0x100 % 256
    && s[at + 2] == v / 0x1_0000 % 256 && s[at + 3] == v / 0x100_0000 % 256
  }

  /** A swarm id, least significant byte first, and the unit's sixteen bytes. */
  predicate HoldsId(s: seq<byte>, at: nat, h: HierarchicalId) {
    && at + 18 <= |s|
    && s[at] == h.swarm % 256 && s[at + 1] == h.swarm / 256
    && s[at + 2..at + 18] == h.unit
  }

  lemma {:induction false} FieldPlace(fields: seq<seq<byte>>, sizes: seq<nat>, k: nat)
    requires Sized(fields, sizes) && k < |fields|
    ensures var at := Total(sizes[..k]);
            at + sizes[k] <= |Join(fields)| && Join(fields)[at..at + sizes[k]] == fields[k]
  {
    var n := |fields| - 1;
    JoinLength(fields, sizes);
    JoinLength(fields[..n], sizes[..n]);
    if k < n {
      FieldPlace(fields[..n], sizes[..n], k);
      assert sizes[..n][..k] == sizes[..k];
      var at := Total(sizes[..k]);
      assert Join(fields)[..|Join(fields[..n])|] == Join(fields[..n]);
      assert Join(fields)[at..at + sizes[k]] == Join(fields[..n])[at..at + sizes[k]];
    }
  }

  const BEACON_OFFSETS: seq<nat> := [0, 1, 5, 23, 27, 31, 35, 39, 43, 47, 48, 52, 56, 60, 64, 96]
  const MESSAGE_OFFSETS: seq<nat> := [0, 1, 5, 23, 41, 45, 49, 53]

  lemma {:induction false} BeaconOffset(k: nat)
    requires k < 16
    ensures Total(BEACON_SIZES[..k]) == BEACON_OFFSETS[k]
  {
    if k > 0 {
      BeaconOffset(k - 1);
      assert BEACON_SIZES[..k][..k - 1] == BEACON_SIZES[..k - 1];
      assert BEACON_OFFSETS[k] == BEACON_OFFSETS[k - 1] + BEACON_SIZES[k - 1];
    }
  }

  lemma {:induction false} MessageOffset(k: nat)
    requires k < 8
    ensures Total(MESSAGE_SIZES[..k]) == MESSAGE_OFFSETS[k]
  {
    if k > 0 {
      MessageOffset(k - 1);
      assert MESSAGE_SIZES[..k][..k - 1] == MESSAGE_SIZES[..k - 1];
      assert MESSAGE_OFFSETS[k] == MESSAGE_OFFSETS[k - 1] + MESSAGE_SIZES[k - 1];
    }
  }

  lemma BeaconPlace(sv: StateVector, k: nat)
    requires k < 16
    ensures var (at, n) := (BEACON_OFFSETS[k], BEACON_SIZES[k]);
            |BeaconFrame(sv)| == 160 && at + n <= 160 && BeaconFrame(sv)[at..at + n] == BeaconFields(sv)[k]
  {
    Totals();
    BeaconFieldsSized(sv);
    JoinLength(BeaconFields(sv), BEACON_SIZES);
    hide Total, Join;
    FieldPlace(BeaconFields(sv), BEACON_SIZES, k);
    BeaconOffset(k);
  }

  lemma MessagePlace(m: Message, k: nat)
    requires k < 8
    ensures var (at, n) := (MESSAGE_OFFSETS[k], MESSAGE_SIZES[k]);
            |MessageFrame(m)| == 181 && at + n <= 181 && MessageFrame(m)[at..at + n] == MessageFields(m)[k]
  {
    Totals();
    MessageFieldsInverse(m);
    JoinLength(MessageFields(m), MESSAGE_SIZES);
    hide Total, Join, GetU32, GetHid;
    FieldPlace(MessageFields(m), MESSAGE_SIZES, k);
    MessageOffset(k);
  }

  lemma Put32Holds(s: seq<byte>, at: nat, v: u32)
    requires at + 4 <= |s| && s[at..at + 4] == PutU32(v)
    ensures Holds32(s, at, v)
  {
    var f := s[at..at + 4];
    assert f[0] == s[at] && f[1] == s[at + 1] && f[2] == s[at + 2] && f[3] == s[at + 3];
  }

  lemma PutIdHolds(s: seq<byte>, at: nat, h: HierarchicalId)
    requires at + 18 <= |s| && s[at..at + 18] == PutHid(h)
    ensures HoldsId(s, at, h)
  {
    var f := s[at..at + 18];
    assert f[0] == s[at] && f[1] == s[at + 1] && s[at + 2..at + 18] == f[2..];
    assert PutHid(h)[2..] == h.unit;
  }

  lemma Beacon32(sv: StateVector, k: nat, v: u32)
    requires k < 16 && BEACON_SIZES[k] == 4 && BeaconFields(sv)[k] == PutU32(v)
    ensures Holds32(BeaconFrame(sv), BEACON_OFFSETS[k], v)
  {
    BeaconPlace(sv, k);
    hide BeaconFrame, BeaconFields, PutU32;
    Put32Holds(BeaconFrame(sv), BEACON_OFFSETS[k], v);
  }

  lemma BeaconByte(sv: StateVector, k: nat)
    requires k < 16 && BEACON_SIZES[k] == 1
    ensures var (f, at) := (BeaconFrame(sv), BEACON_OFFSETS[k]);
            |f| == 160 && at < 160 && [f[at]] == BeaconFields(sv)[k]
  {
    BeaconPlace(sv, k);
    hide BeaconFrame, BeaconFields;
    var at := BEACON_OFFSETS[k];
    assert BeaconFrame(sv)[at..at + 1] == [BeaconFrame(sv)[at]];
  }

  lemma Message32(m: Message, k: nat, v: u32)
    requires k < 8 && MESSAGE_SIZES[k] == 4 && MessageFields(m)[k] == PutU32(v)
    ensures Holds32(MessageFrame(m), MESSAGE_OFFSETS[k], v)
  {
    MessagePlace(m, k);
    hide MessageFrame, MessageFields, PutU32;
    Put32Holds(MessageFrame(m), MESSAGE_OFFSETS[k], v);
  }

  lemma BeaconVectors(sv: StateVector)
    ensures var f := BeaconFrame(sv);
            && Holds32(f, 23, sv.position.x) && Holds32(f, 27, sv.position.y) && Holds32(f, 31, sv.position.z)
            && Holds32(f, 35, sv.velocity.x) && Holds32(f, 39, sv.velocity.y) && Holds32(f, 43, sv.velocity.z)
  {
    hide BeaconFrame, PutU32, PutHid, Holds32;
    Beacon32(sv, 3, sv.position.x);
    Beacon32(sv, 4, sv.position.y);
    Beacon32(sv, 5, sv.position.z);
    Beacon32(sv, 6, sv.velocity.x);
    Beacon32(sv, 7, sv.velocity.y);
    Beacon32(sv, 8, sv.velocity.z);
  }

  lemma BeaconNumbers(sv: StateVector)
    ensures var f := BeaconFrame(sv);
            && Holds32(f, 1, 155) && Holds32(f, 48, sv.role) && Holds32(f, 52, sv.state)
            && Holds32(f, 56, sv.tick) && Holds32(f, 60, sv.syncTime)
  {
    hide BeaconFrame, PutU32, PutHid, Holds32;
    Beacon32(sv, 1, BEACON_PAYLOAD_BYTES);
    Beacon32(sv, 10, sv.role);
    Beacon32(sv, 11, sv.state);
    Beacon32(sv, 12, sv.tick);
    Beacon32(sv, 13, sv.syncTime);
  }

  /** Every field of a beacon frame, by its offset. */
  lemma BeaconLayout(sv: StateVector)
    ensures var f := BeaconFrame(sv);
            && |f| == 160 && f[0] == 1 && Holds32(f, 1, 155) && HoldsId(f, 5, sv.id)
            && Holds32(f, 23, sv.position.x) && Holds32(f, 27, sv.position.y) && Holds32(f, 31, sv.position.z)
            && Holds32(f, 35, sv.velocity.x) && Holds32(f, 39, sv.velocity.y) && Holds32(f, 43, sv.velocity.z)
            && f[47] == sv.health && Holds32(f, 48, sv.role) && Holds32(f, 52, sv.state)
            && Holds32(f, 56, sv.tick) && Holds32(f, 60, sv.syncTime)
            && f[64..96] == sv.senderPubkey && f[96..160] == sv.signature
  {
    BeaconVectors(sv);
    BeaconNumbers(sv);
    hide BeaconFrame, PutU32, PutHid, Holds32, HoldsId;
    BeaconByte(sv, 0);
    BeaconPlace(sv, 2);
    PutIdHolds(BeaconFrame(sv), 5, sv.id);
    BeaconByte(sv, 9);
    BeaconPlace(sv, 14);
    BeaconPlace(sv, 15);
  }

  /** Every field of a message frame, by its offset. */
  lemma MessageLayout(m: Message)
    ensures var f := MessageFrame(m);
            && |f| == 181 && f[0] == 2 && Holds32(f, 1, 176) && HoldsId(f, 5, m.sender) && HoldsId(f, 23, m.recipient)
            && Holds32(f, 41, m.kind) && Holds32(f, 45, m.seqNo) && Holds32(f, 49, m.timestamp)
            && f[53..181] == m.payload
  {
    hide MessageFrame, PutU32, PutHid, Holds32, HoldsId;
    MessagePlace(m, 0);
    assert MessageFrame(m)[0..1][0] == MessageFrame(m)[0];
    MessagePlace(m, 2);
    PutIdHolds(MessageFrame(m), 5, m.sender);
    MessagePlace(m, 3);
    PutIdHolds(MessageFrame(m), 23, m.recipient);
    MessagePlace(m, 7);
    Message32(m, 1, MESSAGE_PAYLOAD_BYTES);
    Message32(m, 4, m.kind);
    Message32(m, 5, m.seqNo);
    Message32(m, 6, m.timestamp);
  }

  // ------------------------------------------------------------------ encoding into a buffer

  /** Copies one field behind the bytes written so far. */
  method Append(out: array<byte>, start: nat, p: nat, field: seq<byte>) returns (end: nat)
    requires start <= p && p + |field| <= out.Length
    modifies out
    ensures end == p + |field|
    ensures out[start..end] == old(out[start..p]) + field
    ensures out[..start] == old(out[..start]) && out[end..] == old(out[end..])
  {
    for k := 0 to |field|
      invariant out[start..p + k] == old(out[start..p]) + field[..k]
      invariant out[..start] == old(out[..start]) && out[p + k..] == old(out[p + k..])
    {
      out[p + k] := field[k];
    }
    assert field[..|field|] == field;
    end := p + |field|;
  }

  /** Writes the fields one behind the other from start on. */
  method WriteFields(out: array<byte>, start: nat, fields: seq<seq<byte>>)
    requires start + |Join(fields)| <= out.Length
    modifies out
    ensures out[start..start + |Join(fields)|] == Join(fields)
    ensures out[..start] == old(out[..start])
    ensures out[start + |Join(fields)|..] == old(out[start + |Join(fields)|..])
  {
    var p := start;
    for k := 0 to |fields|
      invariant p == start + |Join(fields[..k])|
      invariant start <= p <= out.Length
      invariant out[start..p] == Join(fields[..k])
      invariant out[..start] == old(out[..start]) && out[p..] == old(out[p..])
    {
      assert fields[..k + 1][..k] == fields[..k];
      JoinPrefix(fields, k + 1);
      p := Append(out, start, p, fields[k]);
    }
    assert fields[..|fields|] == fields;
  }

  lemma {:induction false} JoinPrefix(fields: seq<seq<byte>>, k: nat)
    requires k <= |fields|
    ensures |Join(fields[..k])| <= |Join(fields)|
    decreases |fields| - k
  {
    if k < |fields| {
      JoinPrefix(fields, k + 1);
      assert fields[..k + 1][..k] == fields[..k];
    } else {
      assert fields[..k] == fields;
    }
  }

  /** The bytes covered by the signature: all fields up to the public key, 91 bytes. */
  method SerialiseBeaconSignedPayload(sv: StateVector, out: array<byte>, start: nat, cap: nat) returns (n: nat)
    requires start + cap <= out.Length
    modifies out
    ensures cap < 91 ==> n == 0 && out[..] == old(out[..])
    ensures cap >= 91 ==> n == 91 && out[start..start + 91] == Join(SignedFields(sv))
    ensures cap >= 91 ==> out[..start] == old(out[..start]) && out[start + 91..] == old(out[start + 91..])
  {
    if cap < BEACON_SIGNED_PREFIX_BYTES {
      return 0;
    }
    Totals();
    JoinLength(SignedFields(sv), SIGNED_SIZES);
    WriteFields(out, start, SignedFields(sv));
    n := BEACON_SIGNED_PREFIX_BYTES;
  }

  /** The frame is header, signed fields, signature. */
  lemma BeaconFrameParts(sv: StateVector)
    ensures |Join(SignedFields(sv))| == 91
    ensures BeaconFrame(sv) == [TAG_BEACON] + PutU32(BEACON_PAYLOAD_BYTES) + Join(SignedFields(sv)) + sv.signature
  {
    Totals();
    JoinLength(SignedFields(sv), SIGNED_SIZES);
    var head := [[TAG_BEACON], PutU32(BEACON_PAYLOAD_BYTES)];
    JoinConcat(head, SignedFields(sv));
    var f := BeaconFields(sv);
    assert f[..|f| - 1] == head + SignedFields(sv);
    assert head[..1] == [[TAG_BEACON]];
    assert Join([]) == [];
    assert Join(head[..1]) == [TAG_BEACON];
    assert Join(head) == [TAG_BEACON] + PutU32(BEACON_PAYLOAD_BYTES);
  }

  lemma {:induction false} JoinConcat(a: seq<seq<byte>>, b: seq<seq<byte>>)
    ensures Join(a + b) == Join(a) + Join(b)
  {
    if b == [] {
      assert a + b == a;
    } else {
      var n := |b| - 1;
      assert (a + b)[..|a + b| - 1] == a + b[..n];
      JoinConcat(a, b[..n]);
    }
  }

  /** What is signed is the frame from the id to the public key. */
  lemma SignedPart(sv: StateVector)
    ensures |BeaconFrame(sv)| == 160 && Join(SignedFields(sv)) == BeaconFrame(sv)[5..96]
  {
    BeaconFrameParts(sv);
    hide Join, SignedFields;
    var head, signed := [TAG_BEACON] + PutU32(BEACON_PAYLOAD_BYTES), Join(SignedFields(sv));
    assert (head + signed + sv.signature)[5..96] == signed;
  }

  method EncodeBeacon(sv: StateVector, out: array<byte>) returns (n: nat)
    modifies out
    ensures out.Length < 160 ==> n == 0 && out[..] == old(out[..])
    ensures out.Length >= 160 ==> n == 160 && out[..] == BeaconFrame(sv) + old(out[160..])
  {
    if out.Length < FRAME_HEADER_BYTES + BEACON_PAYLOAD_BYTES {
      return 0;
    }
    BeaconFrameParts(sv);
    var p := Append(out, 0, 0, [TAG_BEACON]);
    p := Append(out, 0, p, PutU32(BEACON_PAYLOAD_BYTES));
    ghost var header := out[..5];
    assert header == [TAG_BEACON] + PutU32(BEACON_PAYLOAD_BYTES) by {
      assert header == out[0..5] && [] + [TAG_BEACON] == [TAG_BEACON];
    }
    assert out[96..] == old(out[96..]) by {
      assert out[96..] == out[5..][91..] && old(out[96..]) == old(out[1..][4..])[91..];
      assert old(out[1..][4..]) == out[5..];
    }
    var m := SerialiseBeaconSignedPayload(sv, out, FRAME_HEADER_BYTES, BEACON_SIGNED_PREFIX_BYTES);
    assert out[0..96] == header + Join(SignedFields(sv));
    assert out[96..] == old(out[96..]);
    p := Append(out, 0, FRAME_HEADER_BYTES + BEACON_SIGNED_PREFIX_BYTES, sv.signature);
    n := FRAME_HEADER_BYTES + BEACON_PAYLOAD_BYTES;
    assert out[0..160] == BeaconFrame(sv);
    assert out[160..] == old(out[96..])[64..] == old(out[160..]);
    assert out[..] == out[0..160] + out[160..];
  }

  method EncodeMessage(m: Message, out: array<byte>) returns (n: nat)
    modifies out
    ensures out.Length < 181 ==> n == 0 && out[..] == old(out[..])
    ensures out.Length >= 181 ==> n == 181 && out[..] == MessageFrame(m) + old(out[181..])
  {
    if out.Length < FRAME_HEADER_BYTES + MESSAGE_PAYLOAD_BYTES {
      return 0;
    }
    Totals();
    JoinLength(MessageFields(m), MESSAGE_SIZES);
    WriteFields(out, 0, MessageFields(m));
    n := FRAME_HEADER_BYTES + MESSAGE_PAYLOAD_BYTES;
    assert out[..] == out[0..181] + out[181..];
  }
}
