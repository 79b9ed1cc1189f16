/** First-use pinning of peer keys, over signed beacons. */
module Pinning {
  import opened Bytes
  import opened Wire

  type Secret = seq<byte>

  /** A signature scheme. */
  datatype Crypto = Crypto(
    pub: Secret -> Bytes32,
    sign: (Secret, seq<byte>) -> Bytes64,
    verify: (Bytes32, seq<byte>, Bytes64) -> bool)
  {
    ghost predicate SignsFor(k: Secret, m: seq<byte>) {
      verify(pub(k), m, sign(k, m))
    }

    /** The one thing assumed of it: what a key signs verifies under its public half. */
    ghost predicate Correct() {
      forall k: Secret, m: seq<byte> :: SignsFor(k, m)
    }
  }

  /** An all-zero key marks an unsigned beacon. */
  const NO_KEY: Bytes32 :=
    [0, 0, 0, 0, 0, 0, 0, 0, 0, 0, 0, 0, 0, 0, 0, 0, 0, 0, 0, 0, 0, 0, 0, 0, 0, 0, 0, 0, 0, 0, 0, 0]

  function SignedPayload(b: StateVector): seq<byte> {
    Join(SignedFields(b))
  }

  predicate Verifies(c: Crypto, b: StateVector) {
    c.verify(b.senderPubkey, SignedPayload(b), b.signature)
  }

  // ------------------------------------------------------------------ the registry

  type Pins = map<HierarchicalId, Bytes32>

  /** The pins once a key is offered for an id: the first one stays. */
  function Pinned(pins: Pins, id: HierarchicalId, key: Bytes32): Pins {
    if id in pins then pins else pins[id := key]
  }

  class PeerKeyRegistry {
    var keys: Pins

    constructor ()
      ensures keys == map[]
    {
      keys := map[];
    }

    /** Accepts a key exactly if it is now the one pinned for the id. */
    method TryPin(id: HierarchicalId, key: Bytes32) returns (accepted: bool)
      modifies this
      ensures keys == Pinned(old(keys), id, key)
      ensures keys == if id in old(keys) then old(keys) else old(keys)[id := key]
      ensures accepted <==> (id in old(keys) ==> old(keys)[id] == key)
    {
      if id !in keys {
        keys := keys[id := key];
        return true;
      }
      accepted := keys[id] == key;
    }

    /** Tells which keys TryPin would accept for an id: exactly the one returned, or any if none is. */
    method Find(id: HierarchicalId) returns (key: Option<Bytes32>)
      ensures key == Lookup(keys, id)
      ensures forall k :: (key == None || key == Some(k)) <==> Pinned(keys, id, k)[id] == k
    {
      if id !in keys {
        return None;
      }
      key := Some(keys[id]);
    }

    /** Forgets every pin. */
    method Clear()
      modifies this
      ensures forall id :: Lookup(keys, id) == None
    {
      keys := map[];
    }
  }

  function Lookup(pins: Pins, id: HierarchicalId): Option<Bytes32> {
    if id in pins then Some(pins[id]) else None
  }

  // ------------------------------------------------------------------ receiving

  /** What receiving changes: the pins, the rejections and the beacons handed to the neighbour table. */
  datatype Receiver = Receiver(pins: Pins, rejected: nat, upserted: seq<StateVector>)

  const EMPTY := Receiver(map[], 0, [])

  datatype Verdict = Echo | Rejected | Accepted

  function Judge(c: Crypto, pins: Pins, self: HierarchicalId, b: StateVector): Verdict {
    if b.id == self then Echo
    else if b.senderPubkey == NO_KEY then Accepted
    else if !Verifies(c, b) || (b.id in pins && pins[b.id] != b.senderPubkey) then Rejected
    else Accepted
  }

  function Receive(c: Crypto, r: Receiver, self: HierarchicalId, b: StateVector): Receiver {
    match Judge(c, r.pins, self, b)
    case Echo => r
    case Rejected => r.(rejected := r.rejected + 1)
    case Accepted =>
      Receiver(if b.senderPubkey == NO_KEY then r.pins else Pinned(r.pins, b.id, b.senderPubkey),
               r.rejected, r.upserted + [b])
  }

  function ReceiveAll(c: Crypto, r: Receiver, self: HierarchicalId, beacons: seq<StateVector>): Receiver {
    if beacons == [] then r
    else Receive(c, ReceiveAll(c, r, self, beacons[..|beacons| - 1]), self, beacons[|beacons| - 1])
  }

  /** A key of nothing but zeros. */
  lemma NoKeyMeaning(key: Bytes32)
    ensures key == NO_KEY <==> forall k | 0 <= k < 32 :: key[k] == 0
  {
  }

  /**
   What becomes of a beacon. One with the receiver's own id is skipped. One without a key is taken. One with a key
   is taken, and its key pinned if the id has none, when the signature over the bytes from the id to the key verifies
   and no other key is pinned; otherwise it is counted as rejected, and nothing else changes.
   */
  lemma ReceiveMeaning(c: Crypto, r: Receiver, self: HierarchicalId, b: StateVector)
    ensures |BeaconFrame(b)| == 160
    ensures var unsigned := forall k | 0 <= k < 32 :: b.senderPubkey[k] == 0;
            var verified := c.verify(b.senderPubkey, BeaconFrame(b)[5..96], b.signature);
            var pinned := b.id in r.pins;
            Receive(c, r, self, b) ==
            if b.id == self then r
            else if unsigned then Receiver(r.pins, r.rejected, r.upserted + [b])
            else if verified && !pinned then
              Receiver(r.pins[b.id := b.senderPubkey], r.rejected, r.upserted + [b])
            else if verified && r.pins[b.id] == b.senderPubkey then
              Receiver(r.pins, r.rejected, r.upserted + [b])
            else Receiver(r.pins, r.rejected + 1, r.upserted)
  {
    NoKeyMeaning(b.senderPubkey);
    SignedPart(b);
    hide NO_KEY, BeaconFrame, SignedFields;
  }

  /** Beacons are received in the order in which they were polled. */
  lemma {:induction false} ReceiveInOrder(
    c: Crypto, r: Receiver, self: HierarchicalId, a: seq<StateVector>, b: seq<StateVector>)
    ensures ReceiveAll(c, r, self, a + b) == ReceiveAll(c, ReceiveAll(c, r, self, a), self, b)
    ensures forall x :: ReceiveAll(c, r, self, [x]) == Receive(c, r, self, x)
  {
    hide Receive;
    forall x ensures ReceiveAll(c, r, self, [x]) == Receive(c, r, self, x) {
      assert [x][..0] == [] && ReceiveAll(c, r, self, []) == r;
    }
    if b == [] {
      assert a + b == a;
    } else {
      var n := |b| - 1;
      assert (a + b)[..|a + b| - 1] == a + b[..n];
      ReceiveInOrder(c, r, self, a, b[..n]);
    }
  }

  /** Whether a key is not all zeros. */
  method KeyPresent(key: Bytes32) returns (present: bool)
    ensures present <==> key != NO_KEY
    ensures present <==> exists k :: 0 <= k < 32 && key[k] != 0
  {
    for k := 0 to 32
      invariant forall j | 0 <= j < k :: key[j] == 0
    {
      if key[k] != 0 {
        assert key[k] != NO_KEY[k];
        return true;
      }
    }
    assert key == NO_KEY;
    present := false;
  }

  class BeaconReceiver {
    const registry: PeerKeyRegistry
    var rejectedBeacons: nat
    var upserted: seq<StateVector>

    ghost function View(): Receiver
      reads this, registry
    {
      Receiver(registry.keys, rejectedBeacons, upserted)
    }

    constructor ()
      ensures View() == EMPTY && fresh(registry)
    {
      registry := new PeerKeyRegistry();
      rejectedBeacons, upserted := 0, [];
    }

    /** The inbound half of a tick: every polled beacon judged in order. */
    method Drain(c: Crypto, self: HierarchicalId, beacons: seq<StateVector>)
      modifies this, registry
      ensures View() == ReceiveAll(c, old(View()), self, beacons)
    {
      assert beacons[..|beacons|] == beacons;
      for k := 0 to |beacons|
        invariant View() == ReceiveAll(c, old(View()), self, beacons[..k])
      {
        var b := beacons[k];
        assert beacons[..k + 1][..k] == beacons[..k];
        DrainOne(c, self, b);
      }
    }

    method DrainOne(c: Crypto, self: HierarchicalId, b: StateVector)
      modifies this, registry
      ensures View() == Receive(c, old(View()), self, b)
    {
      hide Verifies, NO_KEY;
      if b.id == self {
        return;
      }
      var present := KeyPresent(b.senderPubkey);
      if present {
        if !Verifies(c, b) {
          rejectedBeacons := rejectedBeacons + 1;
          return;
        }
        var pinned := registry.TryPin(b.id, b.senderPubkey);
        if !pinned {
          rejectedBeacons := rejectedBeacons + 1;
          return;
        }
      }
      upserted := upserted + [b];
    }
  }

  // ------------------------------------------------------------------ what pinning guarantees

  /** A receiver hears a beacon while it goes by some id of its own, or its pins are cleared. */
  datatype Event = Heard(self: HierarchicalId, beacon: StateVector) | Cleared

  function React(c: Crypto, r: Receiver, e: Event): Receiver {
    match e
    case Heard(self, beacon) => Receive(c, r, self, beacon)
    case Cleared => r.(pins := map[])
  }

  function Hear(c: Crypto, r: Receiver, run: seq<Event>): Receiver {
    if run == [] then r else React(c, Hear(c, r, run[..|run| - 1]), run[|run| - 1])
  }

  /** A sighting that may pin: someone else's, signed, and verified. */
  predicate Vouches(c: Crypto, e: Event, id: HierarchicalId) {
    e.Heard? && e.beacon.id == id && e.self != id && e.beacon.senderPubkey != NO_KEY && Verifies(c, e.beacon)
  }

  /** The key of the first verified sighting of an id, since the pins were last cleared. */
  function FirstKey(c: Crypto, run: seq<Event>, id: HierarchicalId): Option<Bytes32> {
    if run == [] || run[|run| - 1].Cleared? then None
    else
      match FirstKey(c, run[..|run| - 1], id)
      case Some(key) => Some(key)
      case None => if Vouches(c, run[|run| - 1], id) then Some(run[|run| - 1].beacon.senderPubkey) else None
  }

  /** In every run the pin of an id is the key of its first verified sighting, and nothing else. */
  lemma {:induction false} PinIsFirstKey(c: Crypto, run: seq<Event>, id: HierarchicalId)
    ensures Lookup(Hear(c, EMPTY, run).pins, id) == FirstKey(c, run, id)
  {
    if run != [] {
      hide Verifies, NO_KEY;
      PinIsFirstKey(c, run[..|run| - 1], id);
    }
  }

  /** Only clearing ever changes a pin. */
  lemma {:induction false} PinsNeverChange(c: Crypto, r: Receiver, run: seq<Event>, id: HierarchicalId)
    requires id in r.pins
    ensures Cleared !in run ==> Lookup(Hear(c, r, run).pins, id) == Some(r.pins[id])
  {
    if run != [] {
      hide Verifies, NO_KEY;
      PinsNeverChange(c, r, run[..|run| - 1], id);
    }
  }

  /** A signed beacon of another id is rejected exactly if it does not verify or its id first vouched otherwise. */
  lemma RejectedExactly(c: Crypto, run: seq<Event>, h: Event)
    requires h.Heard? && h.beacon.id != h.self && h.beacon.senderPubkey != NO_KEY
    ensures Judge(c, Hear(c, EMPTY, run).pins, h.self, h.beacon) == Rejected
       <==> !Verifies(c, h.beacon)
            || (FirstKey(c, run, h.beacon.id).Some? && FirstKey(c, run, h.beacon.id).value != h.beacon.senderPubkey)
  {
    PinIsFirstKey(c, run, h.beacon.id);
  }

  // ------------------------------------------------------------------ a swarm of honest robots

  datatype Robot = Robot(id: HierarchicalId, secret: Secret, receiver: Receiver)

  /** All robots, every beacon ever sent, and the key each id ever used was born with. */
  datatype Swarm = Swarm(robots: seq<Robot>, sent: seq<StateVector>, born: Pins)

  datatype Step =
    | Send(robot: nat, body: StateVector)
    | Rotate(robot: nat, id: HierarchicalId, secret: Secret)
    | Deliver(robot: nat, beacon: nat)
    | ClearPins(robot: nat)

  /** The beacon a robot sends: its own id and key, signed. */
  function Signed(c: Crypto, r: Robot, body: StateVector): StateVector {
    var plain := body.(id := r.id, senderPubkey := c.pub(r.secret));
    plain.(signature := c.sign(r.secret, SignedPayload(plain)))
  }

  /** A sent beacon: the body with the sender's id and key, signed over the bytes from the id to the key. */
  lemma SignedMeaning(c: Crypto, r: Robot, body: StateVector)
    ensures var b := Signed(c, r, body);
            && b.id == r.id && b.senderPubkey == c.pub(r.secret) && |BeaconFrame(b)| == 160
            && b.signature == c.sign(r.secret, BeaconFrame(b)[5..96])
            && b == body.(id := b.id, senderPubkey := b.senderPubkey, signature := b.signature)
  {
    var plain := body.(id := r.id, senderPubkey := c.pub(r.secret));
    var b := Signed(c, r, body);
    assert SignedFields(b) == SignedFields(plain);
    SignedPart(b);
    hide BeaconFrame, SignedFields;
  }

  lemma SignedVerifies(c: Crypto, r: Robot, body: StateVector)
    requires c.Correct()
    ensures Verifies(c, Signed(c, r, body))
  {
    var plain := body.(id := r.id, senderPubkey := c.pub(r.secret));
    assert c.SignsFor(r.secret, SignedPayload(plain));
    assert SignedFields(Signed(c, r, body)) == SignedFields(plain);
  }

  /** Ids and keys are fresh: a new id was never used, and no public key is all zeros. */
  predicate Enabled(c: Crypto, s: Swarm, step: Step) {
    match step
    case Send(i, _) => i < |s.robots|
    case Rotate(i, id, secret) => i < |s.robots| && id !in s.born && c.pub(secret) != NO_KEY
    case Deliver(i, k) => i < |s.robots| && k < |s.sent|
    case ClearPins(i) => i < |s.robots|
  }

  function Apply(c: Crypto, s: Swarm, step: Step): Swarm
    requires Enabled(c, s, step)
  {
    match step
    case Send(i, body) => s.(sent := s.sent + [Signed(c, s.robots[i], body)])
    case Rotate(i, id, secret) =>
      s.(robots := s.robots[i := s.robots[i].(id := id, secret := secret)], born := s.born[id := c.pub(secret)])
    case Deliver(i, k) =>
      var r := s.robots[i];
      s.(robots := s.robots[i := r.(receiver := Receive(c, r.receiver, r.id, s.sent[k]))])
    case ClearPins(i) =>
      s.(robots := s.robots[i := s.robots[i].(receiver := s.robots[i].receiver.(pins := map[]))])
  }

  ghost predicate Legal(c: Crypto, s: Swarm, steps: seq<Step>)
    decreases |steps|, 0
  {
    steps == [] || (Legal(c, s, steps[..|steps| - 1])
                    && Enabled(c, After(c, s, steps[..|steps| - 1]), steps[|steps| - 1]))
  }

  ghost function After(c: Crypto, s: Swarm, steps: seq<Step>): Swarm
    requires Legal(c, s, steps)
    decreases |steps|, 1
  {
    if steps == [] then s else Apply(c, After(c, s, steps[..|steps| - 1]), steps[|steps| - 1])
  }

  ghost predicate Owns(c: Crypto, s: Swarm, r: Robot) {
    r.id in s.born && s.born[r.id] == c.pub(r.secret) != NO_KEY
  }

  ghost predicate Genuine(c: Crypto, s: Swarm, b: StateVector) {
    b.id in s.born && s.born[b.id] == b.senderPubkey != NO_KEY && Verifies(c, b)
  }

  ghost predicate Trusting(s: Swarm, r: Receiver) {
    r.rejected == 0 && forall id | id in r.pins :: id in s.born && r.pins[id] == s.born[id]
  }

  /** Every id has one key for ever, every beacon carries the key of its id, and pins agree. */
  ghost predicate Honest(c: Crypto, s: Swarm) {
    && (forall i | 0 <= i < |s.robots| :: Owns(c, s, s.robots[i]) && Trusting(s, s.robots[i].receiver))
    && (forall k | 0 <= k < |s.sent| :: Genuine(c, s, s.sent[k]))
  }

  /** Robots that have just generated different ids, and heard nothing yet. */
  ghost predicate Start(c: Crypto, s: Swarm) {
    && s.sent == []
    && forall i | 0 <= i < |s.robots| :: Owns(c, s, s.robots[i]) && s.robots[i].receiver == EMPTY
  }

  lemma DeliveryHonest(c: Crypto, s: Swarm, r: Receiver, self: HierarchicalId, b: StateVector)
    requires Trusting(s, r) && Genuine(c, s, b)
    ensures Trusting(s, Receive(c, r, self, b))
    ensures Judge(c, r.pins, self, b) == if b.id == self then Echo else Accepted
  {
    hide Verifies, NO_KEY;
  }

  lemma SendHonest(c: Crypto, s: Swarm, i: nat, body: StateVector)
    requires c.Correct() && Honest(c, s) && i < |s.robots|
    ensures Honest(c, Apply(c, s, Send(i, body)))
  {
    SignedVerifies(c, s.robots[i], body);
    hide Verifies, NO_KEY;
    assert Owns(c, s, s.robots[i]);
  }

  lemma RotateHonest(c: Crypto, s: Swarm, i: nat, id: HierarchicalId, secret: Secret)
    requires Honest(c, s) && Enabled(c, s, Rotate(i, id, secret))
    ensures Honest(c, Apply(c, s, Rotate(i, id, secret)))
  {
    hide Verifies, NO_KEY;
    var t := Apply(c, s, Rotate(i, id, secret));
    forall j | 0 <= j < |t.robots|
      ensures Owns(c, t, t.robots[j]) && Trusting(t, t.robots[j].receiver)
    {
      assert Owns(c, s, s.robots[j]) && Trusting(s, s.robots[j].receiver);
    }
    forall k | 0 <= k < |t.sent|
      ensures Genuine(c, t, t.sent[k])
    {
      assert Genuine(c, s, s.sent[k]);
    }
  }

  /** Replacing one receiver by another that trusts the swarm keeps it honest. */
  lemma ReceiverHonest(c: Crypto, s: Swarm, i: nat, r: Receiver)
    requires Honest(c, s) && i < |s.robots| && Trusting(s, r)
    ensures Honest(c, s.(robots := s.robots[i := s.robots[i].(receiver := r)]))
  {
    hide Verifies, NO_KEY;
    var t := s.(robots := s.robots[i := s.robots[i].(receiver := r)]);
    forall j | 0 <= j < |t.robots|
      ensures Owns(c, t, t.robots[j]) && Trusting(t, t.robots[j].receiver)
    {
      assert Owns(c, s, s.robots[j]) && Trusting(s, s.robots[j].receiver);
    }
    forall j | 0 <= j < |t.sent|
      ensures Genuine(c, t, t.sent[j])
    {
      assert Genuine(c, s, s.sent[j]);
    }
  }

  lemma StepHonest(c: Crypto, s: Swarm, step: Step)
    requires c.Correct() && Honest(c, s) && Enabled(c, s, step)
    ensures Honest(c, Apply(c, s, step))
  {
    match step {
      case Send(i, body) => SendHonest(c, s, i, body);
      case Rotate(i, id, secret) => RotateHonest(c, s, i, id, secret);
      case Deliver(i, k) =>
        var r := s.robots[i];
        assert Trusting(s, r.receiver) && Genuine(c, s, s.sent[k]);
        DeliveryHonest(c, s, r.receiver, r.id, s.sent[k]);
        ReceiverHonest(c, s, i, Receive(c, r.receiver, r.id, s.sent[k]));
      case ClearPins(i) =>
        assert Trusting(s, s.robots[i].receiver);
        ReceiverHonest(c, s, i, s.robots[i].receiver.(pins := map[]));
    }
  }

  lemma {:induction false} RunHonest(c: Crypto, s: Swarm, steps: seq<Step>)
    requires c.Correct() && Start(c, s) && Legal(c, s, steps)
    ensures Honest(c, After(c, s, steps))
    decreases |steps|
  {
    if steps != [] {
      RunHonest(c, s, steps[..|steps| - 1]);
      StepHonest(c, After(c, s, steps[..|steps| - 1]), steps[|steps| - 1]);
    }
  }

  /**
   * Whatever the robots send, however often they rotate or clear their pins, and however beacons are delayed,
   * reordered or repeated: no receiver ever rejects one, and the next delivery is taken unless the receiver goes
   * by its id.
   */
  lemma NoHonestRejection(c: Crypto, s: Swarm, steps: seq<Step>, i: nat, k: nat)
    requires c.Correct() && Start(c, s) && Legal(c, s, steps)
    requires Enabled(c, After(c, s, steps), Deliver(i, k))
    ensures var t := After(c, s, steps);
            var r, r' := t.robots[i], Apply(c, t, Deliver(i, k)).robots[i];
            && r.receiver.rejected == 0 == r'.receiver.rejected
            && r'.receiver.upserted == r.receiver.upserted + if t.sent[k].id == r.id then [] else [t.sent[k]]
  {
    RunHonest(c, s, steps);
    var t := After(c, s, steps);
    var r := t.robots[i].receiver;
    assert Trusting(t, r) && Genuine(c, t, t.sent[k]);
    DeliveryHonest(c, t, r, t.robots[i].id, t.sent[k]);
    hide Verifies, NO_KEY, Legal, After;
  }

  /** The echo test knows only the current id: a beacon from before a rotation comes back as a neighbour's. */
  lemma EchoOutlivesRotation(c: Crypto, s: Swarm, i: nat, body: StateVector, id: HierarchicalId, secret: Secret)
    requires c.Correct() && Honest(c, s) && Enabled(c, s, Send(i, body)) && Enabled(c, s, Rotate(i, id, secret))
    ensures var own := Signed(c, s.robots[i], body);
            var t := Apply(c, Apply(c, s, Send(i, body)), Rotate(i, id, secret));
            var r := t.robots[i];
            Receive(c, r.receiver, r.id, own).upserted == s.robots[i].receiver.upserted + [own]
  {
    var own := Signed(c, s.robots[i], body);
    var sending := Apply(c, s, Send(i, body));
    var t := Apply(c, sending, Rotate(i, id, secret));
    SendHonest(c, s, i, body);
    RotateHonest(c, sending, i, id, secret);
    assert Owns(c, s, s.robots[i]);
    assert t.sent[|s.sent|] == own && Genuine(c, t, t.sent[|s.sent|]);
    assert Trusting(t, t.robots[i].receiver);
    DeliveryHonest(c, t, t.robots[i].receiver, id, own);
    hide Verifies, NO_KEY;
  }
}
