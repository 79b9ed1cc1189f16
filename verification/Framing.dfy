/** Byte-stream framing for serial links: two sync bytes, a little-endian length, the payload. */
module Framing {
  import opened Bytes

  const SYNC_BYTE_1: byte := 0xA5
  const SYNC_BYTE_2: byte := 0x5A
  const FRAME_HEADER_BYTES := 4
  const MAX_PAYLOAD_BYTES := 1500

  function Framed(payload: seq<byte>): seq<byte>
    requires |payload| < 0x1_0000
  {
    [SYNC_BYTE_1, SYNC_BYTE_2, |payload| % 0x100, |payload| / 0x100] + payload
  }

  lemma HeaderThenPayload(payload: seq<byte>, s: seq<byte>)
    requires |payload| < 0x1_0000 && |s| == 4 + |payload|
    requires s[0] == SYNC_BYTE_1 && s[1] == SYNC_BYTE_2
    requires s[2] == |payload| % 0x100 && s[3] == |payload| / 0x100 % 0x100
    requires forall i | 0 <= i < |payload| :: s[4 + i] == payload[i]
    ensures s == Framed(payload)
  {
    assert s[4..] == payload;
    assert s == [s[0], s[1], s[2], s[3]] + s[4..];
  }

  /** The two sync bytes, the length with its least significant byte first, the payload. */
  lemma FramedLayout(payload: seq<byte>)
    requires |payload| < 0x1_0000
    ensures var f := Framed(payload);
            && |f| == 4 + |payload| && f[0] == 0xA5 && f[1] == 0x5A
            && f[2] as int + 0x100 * (f[3] as int) == |payload| && f[4..] == payload
  {
    assert Framed(payload)[4..] == payload;
  }

  /** Writes the framed payload, or nothing when it is too long or does not fit. */
  method Encode(payload: seq<byte>, out: array<byte>) returns (n: nat)
    modifies out
    ensures |payload| > 1500 || out.Length < 4 + |payload| ==> n == 0 && out[..] == old(out[..])
    ensures |payload| <= 1500 && 4 + |payload| <= out.Length ==>
              n == 4 + |payload| && out[..] == Framed(payload) + old(out[4 + |payload|..])
  {
    if |payload| > MAX_PAYLOAD_BYTES {
      return 0;
    }
    var total := FRAME_HEADER_BYTES + |payload|;
    if out.Length < total {
      return 0;
    }
    out[0] := SYNC_BYTE_1;
    out[1] := SYNC_BYTE_2;
    out[2] := |payload| % 0x100;
    out[3] := |payload| / 0x100 % 0x100;
    for k := 0 to |payload|
      invariant out[0] == SYNC_BYTE_1 && out[1] == SYNC_BYTE_2
      invariant out[2] == |payload| % 0x100 && out[3] == |payload| / 0x100 % 0x100
      invariant forall i | 0 <= i < k :: out[4 + i] == payload[i]
      invariant forall i | 4 + k <= i < out.Length :: out[i] == old(out[i])
    {
      out[4 + k] := payload[k];
    }
    HeaderThenPayload(payload, out[..total]);
    assert out[..] == out[..total] + out[total..] && out[total..] == old(out[total..]);
    n := total;
  }

  // ------------------------------------------------------------------ the decoder as a function of the stream

  datatype State =
    | WaitSync1
    | WaitSync2
    | WaitLenLo
    | WaitLenHi(lo: byte)
    | ReadPayload(length: nat, got: seq<byte>)

  /** What feeding bytes produces: the new state, the frames emitted in order, the bytes discarded. */
  datatype Fed = Fed(state: State, frames: seq<seq<byte>>, dropped: nat)

  /** One byte in a decoder whose buffer holds cap bytes. */
  function Step(cap: nat, s: State, b: byte): Fed {
    match s
    case WaitSync1 => if b == SYNC_BYTE_1 then Fed(WaitSync2, [], 0) else Fed(WaitSync1, [], 1)
    case WaitSync2 =>
      if b == SYNC_BYTE_2 then Fed(WaitLenLo, [], 0)
      else if b == SYNC_BYTE_1 then Fed(WaitSync2, [], 1)
      else Fed(WaitSync1, [], 2)
    case WaitLenLo => Fed(WaitLenHi(b), [], 0)
    case WaitLenHi(lo) =>
      var length := lo as int + 0x100 * (b as int);
      if length > cap then Fed(WaitSync1, [], FRAME_HEADER_BYTES)
      else if length == 0 then Fed(WaitSync1, [[]], 0)
      else Fed(ReadPayload(length, []), [], 0)
    case ReadPayload(length, got) =>
      if |got| + 1 == length then Fed(WaitSync1, [got + [b]], 0)
      else Fed(ReadPayload(length, got + [b]), [], 0)
  }

  function FeedAll(cap: nat, s: State, bs: seq<byte>): Fed {
    if bs == [] then Fed(s, [], 0)
    else
      var before := FeedAll(cap, s, bs[..|bs| - 1]);
      var last := Step(cap, before.state, bs[|bs| - 1]);
      Fed(last.state, before.frames + last.frames, before.dropped + last.dropped)
  }

  ghost predicate Fits(cap: nat, s: State) {
    s.ReadPayload? ==> 0 < s.length <= cap && |s.got| < s.length && s.length < 0x1_0000
  }

  /** Cutting the stream into reads changes nothing. */
  lemma {:induction false} FeedAppend(cap: nat, s: State, a: seq<byte>, b: seq<byte>)
    ensures var fa := FeedAll(cap, s, a);
            var fb := FeedAll(cap, fa.state, b);
            FeedAll(cap, s, a + b) == Fed(fb.state, fa.frames + fb.frames, fa.dropped + fb.dropped)
  {
    hide FeedAll, Step;
    var fa := FeedAll(cap, s, a);
    if b == [] {
      assert a + b == a;
      FeedNext(cap, fa.state, [], 0);
    } else {
      var n := |b| - 1;
      FeedAppend(cap, s, a, b[..n]);
      FeedNext(cap, s, a + b[..n], b[n]);
      FeedNext(cap, fa.state, b[..n], b[n]);
      assert b[..n] + [b[n]] == b && (a + b[..n]) + [b[n]] == a + b;
    }
  }

  lemma {:induction false} FeedFits(cap: nat, s: State, bs: seq<byte>)
    requires Fits(cap, s)
    ensures Fits(cap, FeedAll(cap, s, bs).state)
  {
    if bs != [] {
      FeedFits(cap, s, bs[..|bs| - 1]);
    }
  }

  /** Bytes held back in a state: a header or a frame under way. */
  function Pending(s: State): nat {
    match s
    case WaitSync1 => 0
    case WaitSync2 => 1
    case WaitLenLo => 2
    case WaitLenHi(_) => 3
    case ReadPayload(_, got) => 4 + |got|
  }

  function FrameBytes(frames: seq<seq<byte>>): nat {
    if frames == [] then 0 else FrameBytes(frames[..|frames| - 1]) + FRAME_HEADER_BYTES + |frames[|frames| - 1]|
  }

  lemma {:induction false} FrameBytesAppend(a: seq<seq<byte>>, b: seq<seq<byte>>)
    ensures FrameBytes(a + b) == FrameBytes(a) + FrameBytes(b)
  {
    if b == [] {
      assert a + b == a;
    } else {
      var n := |b| - 1;
      assert (a + b)[..|a + b| - 1] == a + b[..n];
      FrameBytesAppend(a, b[..n]);
    }
  }

  lemma StepConserved(cap: nat, s: State, b: byte)
    requires Fits(cap, s)
    ensures var f := Step(cap, s, b);
            Pending(s) + 1 == f.dropped + FrameBytes(f.frames) + Pending(f.state)
  {
    var f := Step(cap, s, b);
    if f.frames != [] {
      assert f.frames[..0] == [];
      assert FrameBytes(f.frames) == FRAME_HEADER_BYTES + |f.frames[0]|;
    }
  }

  /** Every byte consumed is dropped, delivered in a frame with its header, or still pending. */
  lemma {:induction false} BytesConserved(cap: nat, s: State, bs: seq<byte>)
    requires Fits(cap, s)
    ensures var f := FeedAll(cap, s, bs);
            Pending(s) + |bs| == f.dropped + FrameBytes(f.frames) + Pending(f.state)
  {
    if bs != [] {
      var r, b := bs[..|bs| - 1], bs[|bs| - 1];
      BytesConserved(cap, s, r);
      FeedFits(cap, s, r);
      var before := FeedAll(cap, s, r);
      StepConserved(cap, before.state, b);
      FrameBytesAppend(before.frames, Step(cap, before.state, b).frames);
    }
  }

  // ------------------------------------------------------------------ frames decode, noise is dropped

  lemma FeedNext(cap: nat, s: State, bs: seq<byte>, b: byte)
    ensures var before := FeedAll(cap, s, bs);
            var last := Step(cap, before.state, b);
            FeedAll(cap, s, bs + [b]) == Fed(last.state, before.frames + last.frames, before.dropped + last.dropped)
    ensures FeedAll(cap, s, []) == Fed(s, [], 0)
  {
    assert (bs + [b])[..|bs|] == bs;
  }

  lemma {:induction false} FeedPayload(cap: nat, length: nat, payload: seq<byte>)
    requires |payload| < length
    ensures FeedAll(cap, ReadPayload(length, []), payload) == Fed(ReadPayload(length, payload), [], 0)
  {
    hide FeedAll;
    if payload == [] {
      FeedNext(cap, ReadPayload(length, []), [], 0);
    } else {
      var n := |payload| - 1;
      FeedPayload(cap, length, payload[..n]);
      FeedNext(cap, ReadPayload(length, []), payload[..n], payload[n]);
      assert payload[..n] + [payload[n]] == payload;
    }
  }

  lemma FeedHeader(cap: nat, s: State, lo: byte, hi: byte)
    requires s == WaitSync1 || s == WaitSync2
    ensures FeedAll(cap, s, [SYNC_BYTE_1, SYNC_BYTE_2, lo]) == Fed(WaitLenHi(lo), [], Pending(s))
    ensures FeedAll(cap, s, [SYNC_BYTE_1, SYNC_BYTE_2, lo, hi]) ==
            var f := Step(cap, WaitLenHi(lo), hi); Fed(f.state, f.frames, Pending(s) + f.dropped)
  {
    hide FeedAll;
    FeedNext(cap, s, [], SYNC_BYTE_1);
    FeedNext(cap, s, [SYNC_BYTE_1], SYNC_BYTE_2);
    FeedNext(cap, s, [SYNC_BYTE_1, SYNC_BYTE_2], lo);
    FeedNext(cap, s, [SYNC_BYTE_1, SYNC_BYTE_2, lo], hi);
    assert [] + [SYNC_BYTE_1] == [SYNC_BYTE_1];
    assert [SYNC_BYTE_1] + [SYNC_BYTE_2] == [SYNC_BYTE_1, SYNC_BYTE_2];
    assert [SYNC_BYTE_1, SYNC_BYTE_2] + [lo] == [SYNC_BYTE_1, SYNC_BYTE_2, lo];
    assert [SYNC_BYTE_1, SYNC_BYTE_2, lo] + [hi] == [SYNC_BYTE_1, SYNC_BYTE_2, lo, hi];
  }

  /** A frame fed after any number of stray sync bytes comes out whole and leaves the decoder synchronised. */
  lemma FeedFramed(cap: nat, s: State, payload: seq<byte>)
    requires |payload| <= cap && |payload| < 0x1_0000
    requires s == WaitSync1 || s == WaitSync2
    ensures FeedAll(cap, s, Framed(payload)) == Fed(WaitSync1, [payload], Pending(s))
  {
    hide FeedAll;
    var lo, hi := |payload| % 0x100, |payload| / 0x100;
    var header := [SYNC_BYTE_1, SYNC_BYTE_2, lo, hi];
    FeedHeader(cap, s, lo, hi);
    FeedAppend(cap, s, header, payload);
    assert lo as int + 0x100 * (hi as int) == |payload|;
    assert Framed(payload) == header + payload;
    if payload == [] {
      FeedNext(cap, WaitSync1, [], 0);
    } else {
      var n := |payload| - 1;
      FeedPayload(cap, |payload|, payload[..n]);
      FeedNext(cap, ReadPayload(|payload|, []), payload[..n], payload[n]);
      assert payload[..n] + [payload[n]] == payload;
    }
  }

  /** Nothing comes out, and at the end no header or frame is under way. */
  ghost predicate Quiet(cap: nat, s: State, bs: seq<byte>) {
    var f := FeedAll(cap, s, bs);
    f.frames == [] && (f.state == WaitSync1 || f.state == WaitSync2)
  }

  /** Noise that emits nothing and leaves the decoder looking for a frame. */
  ghost predicate Clean(cap: nat, noise: seq<byte>) {
    Quiet(cap, WaitSync1, noise)
  }

  /** Clean noise is dropped, all but a sync byte it may end in. */
  lemma CleanDropped(cap: nat, noise: seq<byte>)
    requires Clean(cap, noise)
    ensures var f := FeedAll(cap, WaitSync1, noise); f.dropped + Pending(f.state) == |noise|
  {
    BytesConserved(cap, WaitSync1, noise);
  }

  /**
   Noise read from the left: bytes that begin no sync pair are passed over, and behind every pair reached
   so comes a complete header with a length above the cap.
   */
  predicate Harmless(cap: nat, noise: seq<byte>)
    decreases |noise|
  {
    if |noise| < 2 then true
    else if noise[0] == SYNC_BYTE_1 && noise[1] == SYNC_BYTE_2 then
      |noise| >= 4 && noise[2] as int + 0x100 * (noise[3] as int) > cap && Harmless(cap, noise[4..])
    else Harmless(cap, noise[1..])
  }

  lemma QuietNext(cap: nat, s: State, bs: seq<byte>)
    requires bs != []
    ensures var f := Step(cap, s, bs[0]);
            Quiet(cap, s, bs) <==> f.frames == [] && Quiet(cap, f.state, bs[1..])
  {
    hide Step;
    FeedNext(cap, s, [], bs[0]);
    FeedAppend(cap, s, [bs[0]], bs[1..]);
    hide FeedAll;
    assert [] + [bs[0]] == [bs[0]] && [bs[0]] + bs[1..] == bs;
  }

  /** A frame under way comes out or stays under way. */
  lemma {:induction false} NeverQuiet(cap: nat, s: State, bs: seq<byte>)
    requires s.ReadPayload?
    ensures !Quiet(cap, s, bs)
    decreases |bs|
  {
    if bs == [] {
      FeedNext(cap, s, [], 0);
    } else {
      QuietNext(cap, s, bs);
      var f := Step(cap, s, bs[0]);
      if f.frames == [] {
        NeverQuiet(cap, f.state, bs[1..]);
      }
    }
  }

  /** Behind a sync pair, quiet means a complete header that claims too much. */
  lemma QuietHeader(cap: nat, bs: seq<byte>)
    ensures Quiet(cap, WaitLenLo, bs) <==>
            |bs| >= 2 && bs[0] as int + 0x100 * (bs[1] as int) > cap && Quiet(cap, WaitSync1, bs[2..])
  {
    FeedNext(cap, WaitLenLo, [], 0);
    if bs != [] {
      QuietNext(cap, WaitLenLo, bs);
      FeedNext(cap, WaitLenHi(bs[0]), [], 0);
      if |bs| >= 2 {
        QuietNext(cap, WaitLenHi(bs[0]), bs[1..]);
        assert bs[1..][1..] == bs[2..];
        var f := Step(cap, WaitLenHi(bs[0]), bs[1]);
        if f.state.ReadPayload? {
          NeverQuiet(cap, f.state, bs[2..]);
        }
      }
    }
  }

  /** Clean noise, told from its bytes alone. */
  lemma {:induction false} CleanIffHarmless(cap: nat, noise: seq<byte>)
    ensures Clean(cap, noise) <==> Harmless(cap, noise)
    decreases |noise|
  {
    FeedNext(cap, WaitSync1, [], 0);
    if noise != [] {
      QuietNext(cap, WaitSync1, noise);
      if |noise| == 1 {
        FeedNext(cap, WaitSync2, [], 0);
      } else if noise[0] != SYNC_BYTE_1 {
        CleanIffHarmless(cap, noise[1..]);
      } else {
        QuietNext(cap, WaitSync2, noise[1..]);
        assert noise[1..][1..] == noise[2..];
        if noise[1] == SYNC_BYTE_2 {
          QuietHeader(cap, noise[2..]);
          if |noise| >= 4 {
            assert noise[2..][2..] == noise[4..];
            CleanIffHarmless(cap, noise[4..]);
          }
        } else {
          QuietNext(cap, WaitSync1, noise[1..]);
          CleanIffHarmless(cap, noise[1..]);
        }
      }
    }
  }

  /** Line noise that contains no adjacent pair of sync bytes. */
  ghost predicate NoSyncPair(noise: seq<byte>) {
    forall k | 0 <= k < |noise| - 1 :: !(noise[k] == SYNC_BYTE_1 && noise[k + 1] == SYNC_BYTE_2)
  }

  /** Noise without an adjacent sync pair is clean, whether or not it ends in a sync byte. */
  lemma {:induction false} FeedNoise(cap: nat, noise: seq<byte>)
    requires NoSyncPair(noise)
    ensures Clean(cap, noise)
    ensures FeedAll(cap, WaitSync1, noise).state
         == if noise != [] && noise[|noise| - 1] == SYNC_BYTE_1 then WaitSync2 else WaitSync1
  {
    if noise != [] {
      var n := |noise| - 1;
      FeedNoise(cap, noise[..n]);
      assert n > 0 ==> !(noise[n - 1] == SYNC_BYTE_1 && noise[n] == SYNC_BYTE_2);
    }
  }

  /** The frame behind the noise comes out alone and unchanged, and exactly the noise is dropped. */
  ghost predicate Survives(cap: nat, noise: seq<byte>, payload: seq<byte>)
    requires |payload| < 0x1_0000
  {
    FeedAll(cap, WaitSync1, noise + Framed(payload)) == Fed(WaitSync1, [payload], |noise|)
  }

  lemma CleanSurvives(cap: nat, noise: seq<byte>, payload: seq<byte>)
    requires Clean(cap, noise) && |payload| <= cap && |payload| < 0x1_0000
    ensures Survives(cap, noise, payload)
  {
    CleanDropped(cap, noise);
    var s := FeedAll(cap, WaitSync1, noise).state;
    FeedFramed(cap, s, payload);
    FeedAppend(cap, WaitSync1, noise, Framed(payload));
  }

  /** Where a decoder can come from, and when it emits an empty frame. */
  lemma StepReaches(cap: nat, s: State, b: byte)
    ensures var f := Step(cap, s, b);
            && (f.state == WaitSync2 ==> s == WaitSync1 || s == WaitSync2)
            && (f.state == WaitLenLo ==> s == WaitSync2 && b == SYNC_BYTE_2)
            && (f.state.WaitLenHi? ==> s == WaitLenLo && f.state.lo == b)
            && (HasEmpty(f.frames) ==> s == WaitLenHi(0) && b == 0)
  {
  }

  /** In the middle of a frame, the bytes of an empty frame never come out as an empty payload. */
  lemma SwallowsEmpty(cap: nat, s: State)
    requires Fits(cap, s) && s != WaitSync1 && s != WaitSync2
    ensures FeedAll(cap, s, Framed([])).frames != [[]]
  {
    var a := Step(cap, s, SYNC_BYTE_1);
    var b := Step(cap, a.state, SYNC_BYTE_2);
    var c := Step(cap, b.state, 0);
    var d := Step(cap, c.state, 0);
    FourSteps(cap, s, SYNC_BYTE_1, SYNC_BYTE_2, 0, 0);
    assert Framed([]) == [SYNC_BYTE_1, SYNC_BYTE_2, 0, 0];
    StepReaches(cap, s, SYNC_BYTE_1);
    StepReaches(cap, a.state, SYNC_BYTE_2);
    StepReaches(cap, b.state, 0);
    StepReaches(cap, c.state, 0);
    hide FeedAll, Step, HasEmpty;
    NoneEmpty(a.frames, b.frames);
    NoneEmpty(a.frames + b.frames, c.frames);
    NoneEmpty(a.frames + b.frames + c.frames, d.frames);
    EmptyIsEmpty(a.frames + b.frames + c.frames + d.frames);
  }

  ghost predicate HasEmpty(frames: seq<seq<byte>>) {
    exists k :: 0 <= k < |frames| && frames[k] == []
  }

  lemma NoneEmpty(a: seq<seq<byte>>, b: seq<seq<byte>>)
    requires !HasEmpty(a) && !HasEmpty(b)
    ensures !HasEmpty(a + b)
  {
  }

  lemma EmptyIsEmpty(frames: seq<seq<byte>>)
    requires !HasEmpty(frames)
    ensures frames != [[]]
  {
    var empty: seq<seq<byte>> := [[]];
    assert empty[0] == [] && HasEmpty(empty);
  }

  lemma FourSteps(cap: nat, s: State, w: byte, x: byte, y: byte, z: byte)
    ensures var a := Step(cap, s, w);
            var b := Step(cap, a.state, x);
            var c := Step(cap, b.state, y);
            var d := Step(cap, c.state, z);
            FeedAll(cap, s, [w, x, y, z]).frames == a.frames + b.frames + c.frames + d.frames
  {
    hide FeedAll, Step;
    FeedNext(cap, s, [], w);
    FeedNext(cap, s, [w], x);
    FeedNext(cap, s, [w, x], y);
    FeedNext(cap, s, [w, x, y], z);
    assert [] + [w] == [w] && [w] + [x] == [w, x] && [w, x] + [y] == [w, x, y] && [w, x, y] + [z] == [w, x, y, z];
  }

  lemma FirstOf(a: seq<seq<byte>>, b: seq<seq<byte>>, x: seq<byte>)
    requires a + b == [x]
    ensures a == [] || a == [x]
  {
    if a != [] {
      assert a[0] == (a + b)[0];
    }
  }

  /** Noise after which every short frame survives is clean. */
  lemma SurvivorsMeanClean(cap: nat, noise: seq<byte>)
    requires Survives(cap, noise, []) && Survives(cap, noise, [0])
    ensures Clean(cap, noise)
  {
    var f := FeedAll(cap, WaitSync1, noise);
    FeedAppend(cap, WaitSync1, noise, Framed([]));
    FeedAppend(cap, WaitSync1, noise, Framed([0]));
    FeedFits(cap, WaitSync1, noise);
    hide FeedAll;
    var g, h := FeedAll(cap, f.state, Framed([])).frames, FeedAll(cap, f.state, Framed([0])).frames;
    assert f.frames + g == [[]] && f.frames + h == [[0]];
    FirstOf(f.frames, g, []);
    FirstOf(f.frames, h, [0]);
    assert f.frames == [] ==> f.frames + g == g;
    if f.state != WaitSync1 && f.state != WaitSync2 {
      SwallowsEmpty(cap, f.state);
    }
  }

  /** Whether noise can cost a frame: every frame behind it survives if and only if the noise is clean. */
  lemma FramesSurviveIffClean(cap: nat, noise: seq<byte>)
    requires 1 <= cap < 0x1_0000
    ensures (forall payload | |payload| <= cap :: Survives(cap, noise, payload)) <==> Clean(cap, noise)
    ensures (forall payload | |payload| <= cap :: Survives(cap, noise, payload)) <==> Harmless(cap, noise)
  {
    CleanIffHarmless(cap, noise);
    if Clean(cap, noise) {
      forall payload: seq<byte> | |payload| <= cap ensures Survives(cap, noise, payload) {
        CleanSurvives(cap, noise, payload);
      }
    }
    if forall payload | |payload| <= cap :: Survives(cap, noise, payload) {
      SurvivorsMeanClean(cap, noise);
    }
  }

  /** A payload preceded by noise on the line. */
  datatype Burst = Burst(noise: seq<byte>, payload: seq<byte>)

  ghost predicate Decodable(cap: nat, bursts: seq<Burst>) {
    forall k | 0 <= k < |bursts| ::
      Clean(cap, bursts[k].noise) && |bursts[k].payload| <= cap && |bursts[k].payload| < 0x1_0000
  }

  ghost function Stream(cap: nat, bursts: seq<Burst>): seq<byte>
    requires Decodable(cap, bursts)
  {
    if bursts == [] then []
    else
      var last := bursts[|bursts| - 1];
      Stream(cap, bursts[..|bursts| - 1]) + (last.noise + Framed(last.payload))
  }

  ghost function Payloads(bursts: seq<Burst>): seq<seq<byte>> {
    if bursts == [] then [] else Payloads(bursts[..|bursts| - 1]) + [bursts[|bursts| - 1].payload]
  }

  ghost function NoiseBytes(bursts: seq<Burst>): nat {
    if bursts == [] then 0 else NoiseBytes(bursts[..|bursts| - 1]) + |bursts[|bursts| - 1].noise|
  }

  /**
   Resynchronisation: frames separated by any clean noise, even noise ending in a sync byte, all decode
   unchanged and in order, and exactly the noise is dropped.
   */
  lemma {:induction false} StreamDecodes(cap: nat, bursts: seq<Burst>)
    requires Decodable(cap, bursts)
    ensures FeedAll(cap, WaitSync1, Stream(cap, bursts)) == Fed(WaitSync1, Payloads(bursts), NoiseBytes(bursts))
  {
    if bursts != [] {
      var n := |bursts| - 1;
      var last := bursts[n];
      StreamDecodes(cap, bursts[..n]);
      CleanSurvives(cap, last.noise, last.payload);
      FeedAppend(cap, WaitSync1, Stream(cap, bursts[..n]), last.noise + Framed(last.payload));
    }
  }

  /** A sync pair alone costs nothing: this noise contains one and is clean, its header claiming too long a frame. */
  lemma HarmlessSyncPair()
    ensures var noise := [SYNC_BYTE_1, SYNC_BYTE_2, 0xFF, 0xFF];
            !NoSyncPair(noise) && Clean(MAX_PAYLOAD_BYTES, noise)
  {
    var noise := [SYNC_BYTE_1, SYNC_BYTE_2, 0xFF, 0xFF];
    assert noise[0] == SYNC_BYTE_1 && noise[0 + 1] == SYNC_BYTE_2;
    FeedHeader(MAX_PAYLOAD_BYTES, WaitSync1, 0xFF, 0xFF);
  }

  /** Noise with a sync pair can swallow the frame behind it: here its header claims the frame's own bytes. */
  lemma SyncPairSwallowsFrame(payload: seq<byte>)
    requires |payload| == 1
    ensures var noise := [SYNC_BYTE_1, SYNC_BYTE_2, 5, 0];
            && !NoSyncPair(noise)
            && FeedAll(MAX_PAYLOAD_BYTES, WaitSync1, noise + Framed(payload)).frames == [Framed(payload)]
  {
    var noise := [SYNC_BYTE_1, SYNC_BYTE_2, 5, 0];
    assert noise[0] == SYNC_BYTE_1 && noise[0 + 1] == SYNC_BYTE_2;
    assert noise + Framed(payload) == Framed(Framed(payload));
    FeedFramed(MAX_PAYLOAD_BYTES, WaitSync1, Framed(payload));
  }

  // ------------------------------------------------------------------ the decoder

  datatype Phase = Sync1 | Sync2 | LenLo | LenHi | Payload

  class Parser {
    var phase: Phase
    var expectedLength: nat
    var filled: nat
    const buffer: array<byte>
    var framesDecoded: nat
    var bytesDropped: nat

    ghost predicate Valid()
      reads this, buffer
    {
      && expectedLength < 0x1_0000
      && (phase == LenHi ==> expectedLength < 0x100)
      && (phase == Payload ==> filled < expectedLength <= buffer.Length)
    }

    /** The point in the stream the decoder is at. */
    ghost function Abstract(): (s: State)
      requires Valid()
      reads this, buffer
      ensures Fits(buffer.Length, s)
    {
      match phase
      case Sync1 => WaitSync1
      case Sync2 => WaitSync2
      case LenLo => WaitLenLo
      case LenHi => WaitLenHi(expectedLength)
      case Payload => ReadPayload(expectedLength, buffer[..filled])
    }

    constructor (maxPayload: nat)
      ensures Valid() && Abstract() == WaitSync1 && fresh(buffer) && buffer.Length == maxPayload
      ensures framesDecoded == bytesDropped == 0
    {
      phase, expectedLength, filled := Sync1, 0, 0;
      buffer := new byte[maxPayload](_ => 0);
      framesDecoded, bytesDropped := 0, 0;
    }

    method Reset()
      modifies this`phase, this`expectedLength, this`filled
      ensures Valid() && Abstract() == WaitSync1
    {
      phase, expectedLength, filled := Sync1, 0, 0;
    }

    /** Consumes bytes and returns the frames passed to the callback, in order. */
    method Feed(bytes: seq<byte>) returns (frames: seq<seq<byte>>)
      requires Valid()
      modifies this, buffer
      ensures Valid()
      ensures var f := FeedAll(buffer.Length, old(Abstract()), bytes);
              && Abstract() == f.state && frames == f.frames
              && bytesDropped == old(bytesDropped) + f.dropped
              && framesDecoded == old(framesDecoded) + |f.frames|
    {
      frames := [];
      for i := 0 to |bytes|
        invariant Valid()
        invariant var f := FeedAll(buffer.Length, old(Abstract()), bytes[..i]);
                  && Abstract() == f.state && frames == f.frames
                  && bytesDropped == old(bytesDropped) + f.dropped
                  && framesDecoded == old(framesDecoded) + |f.frames|
      {
        var emitted := Consume(bytes[i]);
        frames := frames + emitted;
        assert bytes[..i + 1][..i] == bytes[..i];
      }
      assert bytes[..|bytes|] == bytes;
    }

    /** The body of the loop: one byte, at most one frame. */
    method Consume(b: byte) returns (emitted: seq<seq<byte>>)
      requires Valid()
      modifies this, buffer
      ensures Valid()
      ensures var f := Step(buffer.Length, old(Abstract()), b);
              && Abstract() == f.state && emitted == f.frames
              && bytesDropped == old(bytesDropped) + f.dropped
              && framesDecoded == old(framesDecoded) + |f.frames|
    {
      emitted := [];
      match phase {
        case Sync1 =>
          if b == SYNC_BYTE_1 { phase := Sync2; } else { bytesDropped := bytesDropped + 1; }
        case Sync2 =>
          if b == SYNC_BYTE_2 {
            phase := LenLo;
          } else if b == SYNC_BYTE_1 {
            bytesDropped := bytesDropped + 1;
          } else {
            phase := Sync1;
            bytesDropped := bytesDropped + 2;
          }
        case LenLo =>
          expectedLength := b;
          phase := LenHi;
        case LenHi =>
          expectedLength := expectedLength + 0x100 * (b as int);
          if expectedLength > buffer.Length {
            bytesDropped := bytesDropped + FRAME_HEADER_BYTES;
            Reset();
          } else if expectedLength == 0 {
            emitted := [buffer[..0]];
            framesDecoded := framesDecoded + 1;
            Reset();
          } else {
            filled := 0;
            phase := Payload;
          }
        case Payload =>
          buffer[filled] := b;
          filled := filled + 1;
          assert buffer[..filled] == old(buffer[..filled]) + [b];
          if filled == expectedLength {
            emitted := [buffer[..filled]];
            framesDecoded := framesDecoded + 1;
            Reset();
          }
      }
    }
  }
}
