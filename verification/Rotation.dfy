/** Identity rotation in the world: fresh ids and keys, and certificates that chain them. */
module Rotation {
  import opened Bytes
  import opened Counting
  import opened Pinning
  import opened Wire

  const CERT_PAYLOAD_BYTES := 68

  datatype Certificate = Certificate(
    prevId: HierarchicalId, newId: HierarchicalId, newKey: Bytes32, signature: Bytes64, issuedAt: real)

  /** The bytes the previous key signs: both ids and the new key, not the time of issue. */
  function CertFields(prevId: HierarchicalId, newId: HierarchicalId, newKey: Bytes32): seq<seq<byte>> {
    [PutU16(prevId.swarm), prevId.unit, PutU16(newId.swarm), newId.unit, newKey]
  }

  function CertPayload(prevId: HierarchicalId, newId: HierarchicalId, newKey: Bytes32): seq<byte> {
    Join(CertFields(prevId, newId, newKey))
  }

  const CERT_SIZES: seq<nat> := [2, 16, 2, 16, 32]

  lemma CertTotal()
    ensures Total(CERT_SIZES) == CERT_PAYLOAD_BYTES
  {
    var s := CERT_SIZES;
    assert Total(s[..4]) == 36 by {
      assert s[..4][..3] == s[..3] && s[..3][..2] == s[..2] && s[..2][..1] == s[..1] && s[..1][..0] == [];
      assert Total(s[..1]) == 2 && Total(s[..2]) == 18 && Total(s[..3]) == 20;
    }
  }

  /** A signed payload stands for one pair of ids and one key. */
  lemma CertPayloadUnique(p: HierarchicalId, n: HierarchicalId, k: Bytes32, p': HierarchicalId, n': HierarchicalId,
                          k': Bytes32)
    requires CertPayload(p, n, k) == CertPayload(p', n', k')
    ensures p == p' && n == n' && k == k'
  {
    var f, f' := CertFields(p, n, k), CertFields(p', n', k');
    SplitJoin(f, CERT_SIZES);
    SplitJoin(f', CERT_SIZES);
    assert f[0] == f'[0] && f[1] == f'[1] && f[2] == f'[2] && f[3] == f'[3] && f[4] == f'[4];
    U16RoundTrip(p.swarm, []);
    U16RoundTrip(p'.swarm, []);
    U16RoundTrip(n.swarm, []);
    U16RoundTrip(n'.swarm, []);
  }

  /** Swarm and unit of the old id, swarm and unit of the new one, the new key. */
  lemma CertLayout(p: HierarchicalId, n: HierarchicalId, key: Bytes32)
    ensures var s := CertPayload(p, n, key);
            |s| == 68 && HoldsId(s, 0, p) && HoldsId(s, 18, n) && s[36..] == key
  {
    var f := CertFields(p, n, key);
    CertTotal();
    JoinLength(f, CERT_SIZES);
    assert f == [PutU16(p.swarm), p.unit] + [PutU16(n.swarm), n.unit] + [key];
    JoinConcat([PutU16(p.swarm), p.unit], [PutU16(n.swarm), n.unit]);
    JoinConcat([PutU16(p.swarm), p.unit] + [PutU16(n.swarm), n.unit], [key]);
    JoinId(p);
    JoinId(n);
    JoinOne(key);
    var s := CertPayload(p, n, key);
    assert s == PutHid(p) + PutHid(n) + key;
    hide Join;
    PutIdHolds(s, 0, p);
    PutIdHolds(s, 18, n);
  }

  lemma JoinOne(f: seq<byte>)
    ensures Join([f]) == f
  {
    assert [f][..0] == [] && [] + f == f;
  }

  lemma JoinId(h: HierarchicalId)
    ensures Join([PutU16(h.swarm), h.unit]) == PutHid(h)
  {
    JoinOne(PutU16(h.swarm));
    assert [PutU16(h.swarm), h.unit][..1] == [PutU16(h.swarm)];
  }

  method SerialiseCertPayload(prevId: HierarchicalId, newId: HierarchicalId, newKey: Bytes32, out: array<byte>)
    requires out.Length == CERT_PAYLOAD_BYTES
    modifies out
    ensures out[..] == CertPayload(prevId, newId, newKey)
  {
    CertTotal();
    JoinLength(CertFields(prevId, newId, newKey), CERT_SIZES);
    WriteFields(out, 0, CertFields(prevId, newId, newKey));
    assert out[0..CERT_PAYLOAD_BYTES] == out[..];
  }

  // ------------------------------------------------------------------ the verifier of a chain

  datatype Identity = Identity(id: HierarchicalId, key: Bytes32)

  predicate Certifies(c: Crypto, from: Identity, cert: Certificate) {
    cert.prevId == from.id
    && c.verify(from.key, CertPayload(cert.prevId, cert.newId, cert.newKey), cert.signature)
  }

  /** Follows certificates from a known identity, each checked under the key before it. */
  function FollowChain(c: Crypto, from: Identity, certs: seq<Certificate>): Option<Identity> {
    if certs == [] then Some(from)
    else
      match FollowChain(c, from, certs[..|certs| - 1])
      case None => None
      case Some(last) =>
        var cert := certs[|certs| - 1];
        if Certifies(c, last, cert) then Some(Identity(cert.newId, cert.newKey)) else None
  }

  /** Certificate k has its place in a chain: the id before it, and a signature the key before it verifies. */
  ghost predicate Links(c: Crypto, from: Identity, certs: seq<Certificate>, k: nat)
    requires k < |certs|
  {
    var id := if k == 0 then from.id else certs[k - 1].newId;
    var key := if k == 0 then from.key else certs[k - 1].newKey;
    certs[k].prevId == id
    && c.verify(key, CertPayload(id, certs[k].newId, certs[k].newKey), certs[k].signature)
  }

  /** A chain leads somewhere exactly if every certificate links, and then to the last id and key. */
  lemma {:induction false} ChainMeaning(c: Crypto, from: Identity, certs: seq<Certificate>)
    ensures FollowChain(c, from, certs).Some? <==> forall k: nat | k < |certs| :: Links(c, from, certs, k)
    ensures FollowChain(c, from, certs).Some? ==>
              FollowChain(c, from, certs).value ==
              if certs == [] then from else Identity(certs[|certs| - 1].newId, certs[|certs| - 1].newKey)
  {
    hide CertPayload;
    if certs != [] {
      var n := |certs| - 1;
      ChainMeaning(c, from, certs[..n]);
      forall k: nat | k < n ensures Links(c, from, certs[..n], k) <==> Links(c, from, certs, k) {
      }
      var prefix := FollowChain(c, from, certs[..n]);
      if prefix.Some? {
        assert certs[..n] == [] <==> n == 0;
        assert Links(c, from, certs, n) <==> Certifies(c, prefix.value, certs[n]);
      }
      hide Links;
    }
  }

  lemma ChainGrows(c: Crypto, from: Identity, certs: seq<Certificate>, cert: Certificate)
    requires FollowChain(c, from, certs).Some? && Certifies(c, FollowChain(c, from, certs).value, cert)
    ensures FollowChain(c, from, certs + [cert]) == Some(Identity(cert.newId, cert.newKey))
  {
    assert (certs + [cert])[..|certs|] == certs;
  }

  // ------------------------------------------------------------------ the world

  datatype RotationPolicy = Permanent | PerMission | Periodic | EventDriven

  /** What is left of a merge window after a tick. */
  function Decayed(window: real, dt: real): real {
    if window <= 0.0 then window else if window > dt then window - dt else 0.0
  }

  class World {
    const crypto: Crypto
    const policy: RotationPolicy
    const rotationPeriod: real
    const tickPeriod: real
    var elapsed: real
    var tickCount: nat
    var mergeWindow: real
    var identity: HierarchicalId
    var secret: Secret
    var lastCert: Option<Certificate>
    var lastRotation: real
    var rotationCount: nat
    ghost var birth: Identity
    ghost var issued: seq<Certificate>
    ghost var periodic: nat

    ghost function Current(): Identity
      reads this
    {
      Identity(identity, crypto.pub(secret))
    }

    /** Followed from the first identity, the certificates issued so far lead to the current one. */
    ghost predicate Valid()
      reads this
    {
      && crypto.Correct() && tickPeriod > 0.0
      && FollowChain(crypto, birth, issued) == Some(Current())
      && lastCert == (if issued == [] then None else Some(issued[|issued| - 1]))
      && rotationCount == |issued|
      && 0.0 <= lastRotation <= elapsed
      && periodic <= rotationCount
      && (rotationPeriod > 0.0 ==> periodic as real * rotationPeriod <= lastRotation)
    }

    /** Signed mode: the first identity comes with a key pair. */
    constructor (crypto: Crypto, policy: RotationPolicy, rotationPeriod: real, tickPeriod: real,
                 id: HierarchicalId, secret: Secret)
      requires crypto.Correct() && tickPeriod > 0.0
      ensures Valid() && Current() == birth == Identity(id, crypto.pub(secret)) && rotationCount == 0 && periodic == 0
      ensures this.crypto == crypto && this.policy == policy
      ensures this.rotationPeriod == rotationPeriod && this.tickPeriod == tickPeriod && elapsed == 0.0 == lastRotation
    {
      this.crypto, this.policy, this.rotationPeriod, this.tickPeriod := crypto, policy, rotationPeriod, tickPeriod;
      elapsed, tickCount, mergeWindow := 0.0, 0, 0.0;
      identity, this.secret, lastCert, lastRotation, rotationCount := id, secret, None, 0.0, 0;
      birth, issued, periodic := Identity(id, crypto.pub(secret)), [], 0;
    }

    /** The current identity vouches for the next one. */
    method Certify(newId: HierarchicalId, newKey: Bytes32) returns (cert: Certificate)
      requires crypto.Correct()
      ensures Certifies(crypto, Current(), cert)
      ensures cert.newId == newId && cert.newKey == newKey && cert.issuedAt == elapsed
    {
      var payload := new byte[CERT_PAYLOAD_BYTES];
      SerialiseCertPayload(identity, newId, newKey, payload);
      assert crypto.SignsFor(secret, payload[..]);
      cert := Certificate(identity, newId, newKey, crypto.sign(secret, payload[..]), elapsed);
    }

    /** Takes a new id and key, certified by the key it replaces. */
    method RotateIdentity(newId: HierarchicalId, next: Secret)
      requires Valid()
      modifies this`identity, this`secret, this`lastCert, this`lastRotation, this`rotationCount, this`issued
      ensures Valid() && Current() == Identity(newId, crypto.pub(next)) && rotationCount == old(rotationCount) + 1
      ensures |issued| == |old(issued)| + 1 && issued[..|old(issued)|] == old(issued)
      ensures lastCert.Some? && Certifies(crypto, old(Current()), lastCert.value)
      ensures lastCert.value.newId == newId && lastCert.value.newKey == crypto.pub(next)
      ensures lastCert.value.prevId == old(identity)
      ensures crypto.verify(crypto.pub(old(secret)), CertPayload(old(identity), newId, crypto.pub(next)),
                            lastCert.value.signature)
      ensures lastRotation == elapsed == lastCert.value.issuedAt
    {
      hide FollowChain, CertPayload, Crypto.Correct;
      var newKey := crypto.pub(next);
      var cert := Certify(newId, newKey);
      ChainGrows(crypto, birth, issued, cert);
      issued := issued + [cert];
      lastCert := Some(cert);
      secret := next;
      identity := newId;
      lastRotation := elapsed;
      rotationCount := rotationCount + 1;
    }

    /** The start of a tick: the clock, and the merge window decaying to zero. */
    method BeginTick()
      requires Valid()
      modifies this`elapsed, this`tickCount, this`mergeWindow
      ensures Valid() && tickCount == old(tickCount) + 1 && elapsed == old(elapsed) + tickPeriod
      ensures mergeWindow == Decayed(old(mergeWindow), tickPeriod)
      ensures mergeWindow == if old(mergeWindow) > tickPeriod then old(mergeWindow) - tickPeriod
                             else if old(mergeWindow) > 0.0 then 0.0 else old(mergeWindow)
    {
      hide FollowChain, Crypto.Correct;
      elapsed := elapsed + tickPeriod;
      tickCount := tickCount + 1;
      if mergeWindow > 0.0 {
        mergeWindow := mergeWindow - tickPeriod;
        if mergeWindow < 0.0 {
          mergeWindow := 0.0;
        }
      }
    }

    method SetMergeWindow(s: real)
      requires Valid()
      modifies this`mergeWindow
      ensures Valid() && mergeWindow == s
    {
      mergeWindow := s;
    }

    predicate IsMerging()
      reads this
    {
      mergeWindow > 0.0
    }

    /** The end of a tick: a periodic rotation if, and only if, the last rotation is a period ago. */
    method EndTick(newId: HierarchicalId, next: Secret)
      requires Valid()
      modifies this`identity, this`secret, this`lastCert, this`lastRotation, this`rotationCount, this`issued
      modifies this`periodic
      ensures Valid()
      ensures policy == Periodic && rotationPeriod > 0.0 ==> elapsed - lastRotation < rotationPeriod
      ensures (periodic == old(periodic) + 1 && rotationCount == old(rotationCount) + 1 && lastRotation == elapsed)
           || (Current() == old(Current()) && rotationCount == old(rotationCount) && periodic == old(periodic)
               && lastRotation == old(lastRotation))
      ensures periodic > old(periodic) ==> Current() == Identity(newId, crypto.pub(next))
      ensures periodic > old(periodic) <==>
                policy == Periodic && rotationPeriod > 0.0 && elapsed - old(lastRotation) >= rotationPeriod
    {
      if policy == Periodic && rotationPeriod > 0.0 && elapsed - lastRotation >= rotationPeriod {
        RotateIdentity(newId, next);
        periodic := periodic + 1;
      }
    }

    /** Periodic rotations are at least a period apart. */
    lemma PeriodicBound()
      requires Valid() && rotationPeriod > 0.0
      ensures periodic as real * rotationPeriod <= elapsed
    {
    }
  }
}
