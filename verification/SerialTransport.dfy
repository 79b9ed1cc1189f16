/** The serial transport: datagram frames inside stream frames, routed by tag into two inboxes. */
module SerialTransport {
  import opened Bytes
  import opened Wire
  import opened Framing

  datatype Inbox = Inbox(beacons: seq<StateVector>, messages: seq<Message>, errors: nat)

  /** Routes one decoded frame by its tag. */
  function Route(inbox: Inbox, frame: seq<byte>): Inbox {
    if PeekTag(frame) == TAG_BEACON then
      match DecodeBeacon(frame)
      case Some(sv) => inbox.(beacons := inbox.beacons + [sv])
      case None => inbox.(errors := inbox.errors + 1)
    else if PeekTag(frame) == TAG_MESSAGE then
      match DecodeMessage(frame)
      case Some(m) => inbox.(messages := inbox.messages + [m])
      case None => inbox.(errors := inbox.errors + 1)
    else inbox.(errors := inbox.errors + 1)
  }

  function RouteAll(inbox: Inbox, frames: seq<seq<byte>>): Inbox {
    if frames == [] then inbox else Route(RouteAll(inbox, frames[..|frames| - 1]), frames[|frames| - 1])
  }

  lemma {:induction false} RouteAppend(inbox: Inbox, a: seq<seq<byte>>, b: seq<seq<byte>>)
    ensures RouteAll(inbox, a + b) == RouteAll(RouteAll(inbox, a), b)
  {
    if b == [] {
      assert a + b == a;
    } else {
      assert (a + b)[..|a + b| - 1] == a + b[..|b| - 1];
      RouteAppend(inbox, a, b[..|b| - 1]);
    }
  }

  /**
   What routing means: a frame that begins with the bytes of a beacon is that beacon, one that begins with
   those of a message that message, and any other is a parse error.
   */
  lemma RouteMeaning(inbox: Inbox, frame: seq<byte>)
    ensures forall sv | BeaconFrame(sv) <= frame :: Route(inbox, frame) == inbox.(beacons := inbox.beacons + [sv])
    ensures forall m | MessageFrame(m) <= frame :: Route(inbox, frame) == inbox.(messages := inbox.messages + [m])
    ensures (forall sv :: !(BeaconFrame(sv) <= frame)) && (forall m :: !(MessageFrame(m) <= frame)) ==>
              Route(inbox, frame) == inbox.(errors := inbox.errors + 1)
  {
    hide DecodeBeacon, DecodeMessage, BeaconFrame, MessageFrame;
    forall sv | BeaconFrame(sv) <= frame
      ensures PeekTag(frame) == TAG_BEACON && DecodeBeacon(frame) == Some(sv)
    {
      BeaconRoundTrip(sv, frame[|BeaconFrame(sv)|..]);
      assert BeaconFrame(sv) + frame[|BeaconFrame(sv)|..] == frame;
    }
    forall m | MessageFrame(m) <= frame
      ensures PeekTag(frame) == TAG_MESSAGE && DecodeMessage(frame) == Some(m)
    {
      MessageRoundTrip(m, frame[|MessageFrame(m)|..]);
      assert MessageFrame(m) + frame[|MessageFrame(m)|..] == frame;
    }
    if DecodeBeacon(frame).Some? {
      BeaconDecodeExact(frame);
      assert BeaconFrame(DecodeBeacon(frame).value) <= frame;
    }
    if DecodeMessage(frame).Some? {
      MessageDecodeExact(frame);
      assert MessageFrame(DecodeMessage(frame).value) <= frame;
    }
  }

  /** Every frame ends up in exactly one place. */
  lemma {:induction false} RouteCounts(inbox: Inbox, frames: seq<seq<byte>>)
    ensures var r := RouteAll(inbox, frames);
            |r.beacons| + |r.messages| + r.errors == |inbox.beacons| + |inbox.messages| + inbox.errors + |frames|
  {
    hide DecodeBeacon, DecodeMessage, PeekTag;
    if frames != [] {
      RouteCounts(inbox, frames[..|frames| - 1]);
    }
  }

  /** One more chunk read, decoded and routed. */
  lemma ReadStep(cap: nat, s: State, inbox: Inbox, data: seq<byte>, chunk: seq<byte>)
    ensures var f := FeedAll(cap, s, data);
            var g := FeedAll(cap, f.state, chunk);
            && FeedAll(cap, s, data + chunk).state == g.state
            && RouteAll(inbox, FeedAll(cap, s, data + chunk).frames) == RouteAll(RouteAll(inbox, f.frames), g.frames)
  {
    hide FeedAll, RouteAll;
    FeedAppend(cap, s, data, chunk);
    var f := FeedAll(cap, s, data);
    RouteAppend(inbox, f.frames, FeedAll(cap, f.state, chunk).frames);
  }

  datatype WriteResult = WouldBlock | Failed | Wrote(count: nat)

  /** What the writes before the first failure took, all told. */
  function Accepted(results: seq<WriteResult>): nat {
    if results == [] || results[0].Failed? then 0
    else (if results[0].Wrote? then results[0].count else 0) + Accepted(results[1..])
  }

  lemma {:induction false} AcceptedSoFar(results: seq<WriteResult>, k: nat)
    requires k <= |results| && Failed !in results[..k]
    ensures Accepted(results) == Accepted(results[..k]) + Accepted(results[k..])
  {
    if k > 0 {
      assert results[0] == results[..k][0] && results[..k][1..] == results[1..][..k - 1];
      assert results[1..][k - 1..] == results[k..];
      AcceptedSoFar(results[1..], k - 1);
    } else {
      assert results[..0] == [] && results[0..] == results;
    }
  }

  lemma AcceptedNext(results: seq<WriteResult>, k: nat)
    requires k < |results| && Failed !in results[..k]
    ensures var r := results[k];
            Accepted(results[..k + 1]) == Accepted(results[..k]) + if r.Wrote? then r.count else 0
    ensures results[k].Failed? ==> Accepted(results) == Accepted(results[..k])
    ensures Accepted(results) >= Accepted(results[..k + 1])
  {
    var prefix := results[..k + 1];
    assert prefix[..k] == results[..k] && prefix[k..] == [results[k]];
    AcceptedSoFar(prefix, k);
    assert [results[k]][1..] == [];
    AcceptedSoFar(results, k);
    assert results[k..][0] == results[k] && results[k..][1..] == results[k + 1..];
  }

  /** How a send stands after some writes: finished, refused before any, failed, or still in its loop. */
  datatype Outcome = Done | Refused | Broken | Writing

  class SerialTransport {
    const parser: Parser
    var healthy: bool
    var bytesSent: nat
    var bytesReceived: nat
    var parseErrors: nat
    var inboxBeacons: seq<StateVector>
    var inboxMessages: seq<Message>

    ghost predicate Valid()
      reads this, parser, parser.buffer
    {
      parser.Valid()
    }

    ghost function Received(): Inbox
      reads this
    {
      Inbox(inboxBeacons, inboxMessages, parseErrors)
    }

    constructor ()
      ensures Valid() && fresh(parser) && fresh(parser.buffer) && parser.buffer.Length == MAX_PAYLOAD_BYTES
      ensures parser.Abstract() == WaitSync1 && Received() == Inbox([], [], 0) && healthy
    {
      parser := new Parser(MAX_PAYLOAD_BYTES);
      healthy, bytesSent, bytesReceived, parseErrors, inboxBeacons, inboxMessages := true, 0, 0, 0, [], [];
    }

    /** Reads until the descriptor has nothing more: the chunks are what the successive reads return. */
    method DrainFd(chunks: seq<seq<byte>>)
      requires Valid()
      modifies this, parser, parser.buffer
      ensures Valid() && healthy == old(healthy)
      ensures var f := FeedAll(parser.buffer.Length, old(parser.Abstract()), Join(chunks));
              && parser.Abstract() == f.state
              && Received() == RouteAll(old(Received()), f.frames)
              && bytesReceived == old(bytesReceived) + |Join(chunks)|
    {
      for k := 0 to |chunks|
        invariant Valid() && healthy == old(healthy)
        invariant var f := FeedAll(parser.buffer.Length, old(parser.Abstract()), Join(chunks[..k]));
                  && parser.Abstract() == f.state
                  && Received() == RouteAll(old(Received()), f.frames)
                  && bytesReceived == old(bytesReceived) + |Join(chunks[..k])|
      {
        ReadStep(parser.buffer.Length, old(parser.Abstract()), old(Received()), Join(chunks[..k]), chunks[k]);
        DrainChunk(chunks[k]);
        assert chunks[..k + 1][..k] == chunks[..k];
      }
      assert chunks[..|chunks|] == chunks;
    }

    method DrainChunk(chunk: seq<byte>)
      requires Valid()
      modifies this, parser, parser.buffer
      ensures Valid() && healthy == old(healthy)
      ensures var f := FeedAll(parser.buffer.Length, old(parser.Abstract()), chunk);
              && parser.Abstract() == f.state
              && Received() == RouteAll(old(Received()), f.frames)
              && bytesReceived == old(bytesReceived) + |chunk|
    {
      hide FeedAll, RouteAll;
      bytesReceived := bytesReceived + |chunk|;
      var frames := parser.Feed(chunk);
      RouteFrames(frames);
    }

    method RouteFrames(frames: seq<seq<byte>>)
      modifies this`parseErrors, this`inboxBeacons, this`inboxMessages
      ensures Received() == RouteAll(old(Received()), frames)
    {
      for k := 0 to |frames|
        invariant Received() == RouteAll(old(Received()), frames[..k])
      {
        var frame := frames[k];
        if PeekTag(frame) == TAG_BEACON {
          match DecodeBeacon(frame)
          case Some(sv) => inboxBeacons := inboxBeacons + [sv];
          case None => parseErrors := parseErrors + 1;
        } else if PeekTag(frame) == TAG_MESSAGE {
          match DecodeMessage(frame)
          case Some(m) => inboxMessages := inboxMessages + [m];
          case None => parseErrors := parseErrors + 1;
        } else {
          parseErrors := parseErrors + 1;
        }
        assert frames[..k + 1][..k] == frames[..k];
      }
      assert frames[..|frames|] == frames;
    }

    method PollBeacons(chunks: seq<seq<byte>>) returns (out: seq<StateVector>)
      requires Valid()
      modifies this, parser, parser.buffer
      ensures Valid()
      ensures var t := Poll(parser.buffer.Length, Link(old(parser.Abstract()), old(Received()), [], []),
                            Beacons(chunks));
              && out == t.outBeacons && parser.Abstract() == t.state && Received() == t.inbox
    {
      DrainFd(chunks);
      out := inboxBeacons;
      inboxBeacons := [];
    }

    method PollMessages(chunks: seq<seq<byte>>) returns (out: seq<Message>)
      requires Valid()
      modifies this, parser, parser.buffer
      ensures Valid()
      ensures var t := Poll(parser.buffer.Length, Link(old(parser.Abstract()), old(Received()), [], []),
                            Messages(chunks));
              && out == t.outMessages && parser.Abstract() == t.state && Received() == t.inbox
    {
      DrainFd(chunks);
      out := inboxMessages;
      inboxMessages := [];
    }

    /**
     The write loop against any sequence of write results. What has gone out is as much of the frame as the
     writes took, all of it exactly when the send is done and counted; a payload longer than a datagram frame
     is refused; a write that fails outright ends the send and leaves the transport unhealthy; until then the
     loop goes on.
     */
    method WriteFramed(payload: seq<byte>, results: seq<WriteResult>) returns (outcome: Outcome, sent: seq<byte>)
      modifies this`healthy, this`bytesSent
      ensures outcome == Refused <==> |payload| > 181
      ensures outcome == Refused ==> sent == []
      ensures outcome != Refused ==> sent <= Framed(payload)
      ensures outcome != Refused ==>
                |sent| == if Accepted(results) < 4 + |payload| then Accepted(results) else 4 + |payload|
      ensures outcome != Refused ==>
                outcome == if |sent| == 4 + |payload| then Done else if Failed in results then Broken else Writing
      ensures healthy == (old(healthy) && outcome != Broken)
      ensures bytesSent == old(bytesSent) + if outcome == Done then |sent| else 0
    {
      var buffer := new byte[Framing.FRAME_HEADER_BYTES + MAX_FRAME_BYTES](i => 0);
      var length := Encode(payload, buffer);
      if length == 0 {
        return Refused, [];
      }
      var frame := buffer[..length];
      assert frame == Framed(payload);
      var written, k := 0, 0;
      while written < |frame| && k < |results|
        invariant 0 <= written <= |frame| && 0 <= k <= |results|
        invariant healthy == old(healthy) && bytesSent == old(bytesSent)
        invariant Failed !in results[..k]
        invariant written == if Accepted(results[..k]) < |frame| then Accepted(results[..k]) else |frame|
        invariant written == |frame| ==> Accepted(results) >= |frame|
        decreases |results| - k
      {
        AcceptedNext(results, k);
        match results[k] {
          case WouldBlock =>
          case Failed =>
            healthy := false;
            return Broken, frame[..written];
          case Wrote(count) =>
            // write returns at most what it was given
            written := if count <= |frame| - written then written + count else |frame|;
        }
        k := k + 1;
      }
      sent := frame[..written];
      if written < |frame| {
        assert results[..k] == results;
        return Writing, sent;
      }
      bytesSent := bytesSent + |frame|;
      outcome := Done;
    }

    method SendBeacon(sv: StateVector, results: seq<WriteResult>) returns (outcome: Outcome, sent: seq<byte>)
      modifies this`healthy, this`bytesSent
      ensures sent <= Framed(Datagram(Beacon(sv)))
      ensures |sent| == if Accepted(results) < 164 then Accepted(results) else 164
      ensures outcome == if |sent| == 164 then Done else if Failed in results then Broken else Writing
      ensures healthy == (old(healthy) && outcome != Broken)
      ensures bytesSent == old(bytesSent) + if outcome == Done then 164 else 0
    {
      var inner := new byte[MAX_FRAME_BYTES](i => 0);
      var n := EncodeBeacon(sv, inner);
      LengthsOfFrames(Beacon(sv));
      hide BeaconFrame;
      assert inner[..n] == BeaconFrame(sv);
      outcome, sent := WriteFramed(inner[..n], results);
    }

    method SendMessage(m: Message, results: seq<WriteResult>) returns (outcome: Outcome, sent: seq<byte>)
      modifies this`healthy, this`bytesSent
      ensures sent <= Framed(Datagram(Text(m)))
      ensures |sent| == if Accepted(results) < 185 then Accepted(results) else 185
      ensures outcome == if |sent| == 185 then Done else if Failed in results then Broken else Writing
      ensures healthy == (old(healthy) && outcome != Broken)
      ensures bytesSent == old(bytesSent) + if outcome == Done then 185 else 0
    {
      var inner := new byte[MAX_FRAME_BYTES](i => 0);
      var n := EncodeMessage(m, inner);
      LengthsOfFrames(Text(m));
      hide MessageFrame;
      assert inner[..n] == MessageFrame(m);
      outcome, sent := WriteFramed(inner[..n], results);
    }
  }

  // ------------------------------------------------------------------ end to end

  datatype Item = Beacon(sv: StateVector) | Text(m: Message)

  function Datagram(item: Item): (p: seq<byte>)
    ensures |p| <= MAX_FRAME_BYTES
  {
    LengthsOfFrames(item);
    match item
    case Beacon(sv) => BeaconFrame(sv)
    case Text(m) => MessageFrame(m)
  }

  lemma LengthsOfFrames(item: Item)
    ensures item.Beacon? ==> |BeaconFrame(item.sv)| == 160
    ensures item.Text? ==> |MessageFrame(item.m)| == 181
  {
    match item
    case Beacon(sv) => BeaconRoundTrip(sv, []);
    case Text(m) => MessageRoundTrip(m, []);
  }

  /** What a sender of these items puts on the line. */
  function Line(items: seq<Item>): seq<byte> {
    if items == [] then [] else Line(items[..|items| - 1]) + Framed(Datagram(items[|items| - 1]))
  }

  function BeaconsOf(items: seq<Item>): seq<StateVector> {
    if items == [] then []
    else
      var last := items[|items| - 1];
      BeaconsOf(items[..|items| - 1]) + (if last.Beacon? then [last.sv] else [])
  }

  function MessagesOf(items: seq<Item>): seq<Message> {
    if items == [] then []
    else
      var last := items[|items| - 1];
      MessagesOf(items[..|items| - 1]) + (if last.Text? then [last.m] else [])
  }

  function Datagrams(items: seq<Item>): seq<seq<byte>> {
    if items == [] then [] else Datagrams(items[..|items| - 1]) + [Datagram(items[|items| - 1])]
  }

  lemma {:induction false} LineDecodes(items: seq<Item>)
    ensures FeedAll(MAX_PAYLOAD_BYTES, WaitSync1, Line(items)) == Fed(WaitSync1, Datagrams(items), 0)
  {
    if items != [] {
      var n := |items| - 1;
      LineDecodes(items[..n]);
      FeedFramed(MAX_PAYLOAD_BYTES, WaitSync1, Datagram(items[n]));
      FeedAppend(MAX_PAYLOAD_BYTES, WaitSync1, Line(items[..n]), Framed(Datagram(items[n])));
    }
  }

  lemma RouteDatagram(item: Item, inbox: Inbox)
    ensures Route(inbox, Datagram(item)) ==
            match item
            case Beacon(sv) => inbox.(beacons := inbox.beacons + [sv])
            case Text(m) => inbox.(messages := inbox.messages + [m])
  {
    hide DecodeBeacon, DecodeMessage, BeaconFrame, MessageFrame;
    var p := Datagram(item);
    assert p + [] == p;
    match item
    case Beacon(sv) => BeaconRoundTrip(sv, []);
    case Text(m) => MessageRoundTrip(m, []);
  }

  lemma {:induction false} RouteDatagrams(items: seq<Item>, inbox: Inbox)
    ensures RouteAll(inbox, Datagrams(items)) ==
            Inbox(inbox.beacons + BeaconsOf(items), inbox.messages + MessagesOf(items), inbox.errors)
  {
    hide Route, Datagram;
    if items != [] {
      var n := |items| - 1;
      RouteDatagrams(items[..n], inbox);
      RouteDatagram(items[n], RouteAll(inbox, Datagrams(items[..n])));
    }
  }

  /** A poll of either channel, with the chunks its reads return. */
  datatype PollCall = Beacons(chunks: seq<seq<byte>>) | Messages(chunks: seq<seq<byte>>)

  /** The receiving end and everything its polls have returned so far. */
  datatype Link = Link(state: State, inbox: Inbox, outBeacons: seq<StateVector>, outMessages: seq<Message>)

  function Poll(cap: nat, link: Link, call: PollCall): Link {
    var f := FeedAll(cap, link.state, Join(call.chunks));
    var inbox := RouteAll(link.inbox, f.frames);
    match call
    case Beacons(_) => Link(f.state, inbox.(beacons := []), link.outBeacons + inbox.beacons, link.outMessages)
    case Messages(_) => Link(f.state, inbox.(messages := []), link.outBeacons, link.outMessages + inbox.messages)
  }

  function PollAll(cap: nat, link: Link, calls: seq<PollCall>): Link {
    if calls == [] then link else Poll(cap, PollAll(cap, link, calls[..|calls| - 1]), calls[|calls| - 1])
  }

  function ReadBy(calls: seq<PollCall>): seq<byte> {
    if calls == [] then [] else ReadBy(calls[..|calls| - 1]) + Join(calls[|calls| - 1].chunks)
  }

  lemma {:induction false} RouteSplits(inbox: Inbox, frames: seq<seq<byte>>)
    ensures var r := RouteAll(Inbox([], [], 0), frames);
            RouteAll(inbox, frames) ==
            Inbox(inbox.beacons + r.beacons, inbox.messages + r.messages, inbox.errors + r.errors)
  {
    if frames != [] {
      RouteSplits(inbox, frames[..|frames| - 1]);
    }
  }

  ghost const START := Link(WaitSync1, Inbox([], [], 0), [], [])

  /** The link returned or holds exactly what decoding the data read so far gives. */
  ghost predicate Consistent(cap: nat, link: Link, data: seq<byte>) {
    var f := FeedAll(cap, WaitSync1, data);
    var all := RouteAll(Inbox([], [], 0), f.frames);
    && link.state == f.state
    && link.outBeacons + link.inbox.beacons == all.beacons
    && link.outMessages + link.inbox.messages == all.messages
    && link.inbox.errors == all.errors
  }

  lemma PollStep(cap: nat, link: Link, data: seq<byte>, call: PollCall)
    requires Consistent(cap, link, data)
    ensures Consistent(cap, Poll(cap, link, call), data + Join(call.chunks))
  {
    hide FeedAll, RouteAll, Join;
    var chunk := Join(call.chunks);
    ReadStep(cap, WaitSync1, Inbox([], [], 0), data, chunk);
    var f := FeedAll(cap, WaitSync1, data);
    var frames := FeedAll(cap, f.state, chunk).frames;
    RouteSplits(link.inbox, frames);
    RouteSplits(RouteAll(Inbox([], [], 0), f.frames), frames);
  }

  /** Polling in any order and with any cuts loses, repeats and reorders nothing on either channel. */
  lemma {:induction false} PollsAccumulate(cap: nat, calls: seq<PollCall>)
    ensures Consistent(cap, PollAll(cap, START, calls), ReadBy(calls))
  {
    if calls != [] {
      var n := |calls| - 1;
      PollsAccumulate(cap, calls[..n]);
      PollStep(cap, PollAll(cap, START, calls[..n]), ReadBy(calls[..n]), calls[n]);
    }
  }

  /**
   The serial stack end to end. Once the polls have read everything a sender wrote, in whatever chunks and
   in whatever interleaving, what they returned plus what still waits in the inboxes is exactly the
   beacons and the messages sent, each in order, without a parse error.
   */
  lemma EndToEnd(items: seq<Item>, calls: seq<PollCall>)
    requires ReadBy(calls) == Line(items)
    ensures var link := PollAll(MAX_PAYLOAD_BYTES, START, calls);
            && link.state == WaitSync1
            && link.outBeacons + link.inbox.beacons == BeaconsOf(items)
            && link.outMessages + link.inbox.messages == MessagesOf(items)
            && link.inbox.errors == 0
  {
    PollsAccumulate(MAX_PAYLOAD_BYTES, calls);
    LineDecodes(items);
    RouteDatagrams(items, Inbox([], [], 0));
  }

  /** Before everything has arrived, the polls have returned a prefix of what was sent. */
  lemma EndToEndPartial(items: seq<Item>, calls: seq<PollCall>, unread: seq<byte>)
    requires ReadBy(calls) + unread == Line(items)
    ensures var link := PollAll(MAX_PAYLOAD_BYTES, START, calls);
            && link.outBeacons + link.inbox.beacons <= BeaconsOf(items)
            && link.outMessages + link.inbox.messages <= MessagesOf(items)
            && link.inbox.errors == 0
  {
    PollsAccumulate(MAX_PAYLOAD_BYTES, calls);
    LineDecodes(items);
    RouteDatagrams(items, Inbox([], [], 0));
    hide FeedAll, RouteAll, Line, Datagrams, BeaconsOf, MessagesOf, PollAll, ReadBy;
    var f := FeedAll(MAX_PAYLOAD_BYTES, WaitSync1, ReadBy(calls));
    ReadStep(MAX_PAYLOAD_BYTES, WaitSync1, Inbox([], [], 0), ReadBy(calls), unread);
    var all := RouteAll(Inbox([], [], 0), f.frames);
    var frames := FeedAll(MAX_PAYLOAD_BYTES, f.state, unread).frames;
    RouteSplits(all, frames);
    assert RouteAll(all, frames) == Inbox(BeaconsOf(items), MessagesOf(items), 0);
  }
}
