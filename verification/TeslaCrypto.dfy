/** tesla_crypto.c: the P-256 key of the card and its challenge response. */
module Crypto {
  import opened Bytes
  import opened IdentityRecord

  type PublicKey = s: bytes | |s| == 65 witness Zeros(65)
  type Block16 = s: bytes | |s| == 16 witness Zeros(16)
  type Salt = s: bytes | |s| == 4 witness Zeros(4)
  type Digest = s: bytes | |s| == 20 witness Zeros(20)

  const UNCOMPRESSED: byte := 0x04

  datatype Point = Infinity | Affine(x: Bytes32, y: Bytes32)

  predicate Prime(n: nat) {
    n > 1 && forall d: nat :: 1 < d < n ==> n % d != 0
  }

  /** The curve as the commutative group of its points: of prime order, with cofactor 1 as P-256 has
      (SEC 2 v2.0 section 2.4.2); base is the generator, and order bounds private keys. */
  datatype Group = Group(add: (Point, Point) -> Point, onCurve: Point -> bool, base: Point, order: nat)
  {
    ghost predicate Closed(p: Point, q: Point) {
      onCurve(p) && onCurve(q) ==> onCurve(add(p, q))
    }

    ghost predicate Commutes(p: Point, q: Point) {
      onCurve(p) && onCurve(q) ==> add(p, q) == add(q, p)
    }

    ghost predicate Associates(p: Point, q: Point, r: Point) {
      onCurve(p) && onCurve(q) && onCurve(r) ==> add(add(p, q), r) == add(p, add(q, r))
    }

    ghost predicate Annihilated(p: Point) {
      onCurve(p) ==> Mul(this, order, p) == Infinity
    }

    ghost predicate Lawful() {
      && onCurve(Infinity) && onCurve(base) && base.Affine? && Prime(order)
      && (forall p: Point :: Annihilated(p))
      && (forall p: Point :: add(p, Infinity) == p)
      && (forall p: Point, q: Point :: Closed(p, q))
      && (forall p: Point, q: Point :: Commutes(p, q))
      && (forall p: Point, q: Point, r: Point :: Associates(p, q, r))
    }

    predicate ValidScalar(k: nat) {
      1 <= k < order
    }
  }

  /** A base point of order two. */
  const SMALLEST_BASE := Affine(Zeros(32), Zeros(32))

  type Curve = g: Group | g.Lawful()
    ghost witness
      Group((p: Point, q: Point) => if p == Infinity then q else if q == Infinity then p else Infinity,
            (p: Point) => p == Infinity || p == SMALLEST_BASE, SMALLEST_BASE, 2)

  /** AES-128 on one block, and SHA-1. */
  datatype AuthPrimitives = AuthPrimitives(
    encrypt: (Block16, Block16) -> Block16, decrypt: (Block16, Block16) -> Block16, sha1: bytes -> Digest)
  {
    ghost predicate Lawful() {
      forall k: Block16, b: Block16 :: decrypt(k, encrypt(k, b)) == b
    }
  }

  type AuthSuite = p: AuthPrimitives | p.Lawful()
    ghost witness AuthPrimitives((k: Block16, b: Block16) => b, (k: Block16, b: Block16) => b, (m: bytes) => Zeros(20))

  /** Scalar multiplication as repeated addition. */
  function Mul(c: Group, k: nat, p: Point): Point {
    if k == 0 then Infinity else c.add(p, Mul(c, k - 1, p))
  }

  lemma {:induction false} MulOnCurve(c: Curve, k: nat, p: Point)
    requires c.onCurve(p)
    ensures c.onCurve(Mul(c, k, p))
  {
    if k > 0 {
      MulOnCurve(c, k - 1, p);
      assert c.Closed(p, Mul(c, k - 1, p));
    }
  }

  lemma Interchange(c: Curve, p: Point, q: Point, r: Point, s: Point)
    requires c.onCurve(p) && c.onCurve(q) && c.onCurve(r) && c.onCurve(s)
    ensures c.add(c.add(p, q), c.add(r, s)) == c.add(c.add(p, r), c.add(q, s))
  {
    assert c.Closed(r, s) && c.Closed(q, s);
    assert c.Associates(p, q, c.add(r, s)) && c.Associates(p, r, c.add(q, s));
    assert c.Associates(q, r, s) && c.Commutes(q, r) && c.Associates(r, q, s);
  }

  lemma {:induction false} MulDistributes(c: Curve, k: nat, p: Point, q: Point)
    requires c.onCurve(p) && c.onCurve(q)
    ensures Mul(c, k, c.add(p, q)) == c.add(Mul(c, k, p), Mul(c, k, q))
  {
    if k > 0 {
      MulOnCurve(c, k - 1, p);
      MulOnCurve(c, k - 1, q);
      MulDistributes(c, k - 1, p, q);
      Interchange(c, p, q, Mul(c, k - 1, p), Mul(c, k - 1, q));
    }
  }

  /** Both parties reach the same point (SEC 1 v2.0 section 3.3.1). */
  lemma {:induction false} MulCommutes(c: Curve, a: nat, b: nat, p: Point)
    requires c.onCurve(p)
    ensures Mul(c, a, Mul(c, b, p)) == Mul(c, b, Mul(c, a, p))
  {
    if b == 0 {
      MulInfinity(c, a);
    } else {
      MulOnCurve(c, b - 1, p);
      MulDistributes(c, a, p, Mul(c, b - 1, p));
      MulCommutes(c, a, b - 1, p);
    }
  }

  lemma {:induction false} MulInfinity(c: Curve, k: nat)
    ensures Mul(c, k, Infinity) == Infinity
  {
    if k > 0 {
      MulInfinity(c, k - 1);
    }
  }

  lemma {:induction false} MulAdds(c: Curve, a: nat, b: nat, p: Point)
    requires c.onCurve(p)
    ensures Mul(c, a + b, p) == c.add(Mul(c, a, p), Mul(c, b, p))
  {
    MulOnCurve(c, b, p);
    if a == 0 {
      assert c.Commutes(Infinity, Mul(c, b, p));
    } else {
      MulOnCurve(c, a - 1, p);
      MulAdds(c, a - 1, b, p);
      assert c.Associates(p, Mul(c, a - 1, p), Mul(c, b, p));
    }
  }

  lemma {:induction false} MulWraps(c: Curve, times: nat, a: nat, rest: nat, p: Point)
    requires c.onCurve(p) && Mul(c, a, p) == Infinity
    ensures Mul(c, times * a + rest, p) == Mul(c, rest, p)
  {
    if times > 0 {
      MulWraps(c, times - 1, a, rest, p);
      assert times * a + rest == a + ((times - 1) * a + rest);
      MulAdds(c, a, (times - 1) * a + rest, p);
      MulOnCurve(c, rest, p);
      assert c.Commutes(Infinity, Mul(c, rest, p));
    }
  }

  /** In a group of prime order no valid scalar takes a finite point to infinity: else a smaller one would. */
  lemma {:induction false} MulIsFinite(c: Curve, a: nat, p: Point)
    requires c.ValidScalar(a) && c.onCurve(p) && p.Affine?
    ensures Mul(c, a, p).Affine?
    decreases a
  {
    if a == 1 {
      assert Mul(c, 1, p) == c.add(p, Mul(c, 0, p)) == p;
    } else if Mul(c, a, p) == Infinity {
      var times, rest := c.order / a, c.order % a;
      MulWraps(c, times, a, rest, p);
      assert times * a + rest == c.order && c.Annihilated(p);
      MulIsFinite(c, rest, p);
      assert false;
    }
  }

  /** MBEDTLS_ECP_PF_UNCOMPRESSED; the point at infinity takes a single byte. */
  function EncodePoint(p: Point): (b: bytes)
    ensures |b| == 65 <==> p.Affine?
  {
    match p
    case Infinity => [0]
    case Affine(x, y) => [UNCOMPRESSED] + x + y
  }

  /** The public key that goes with a private scalar. */
  function PublicKeyOf(c: Curve, k: nat): (key: PublicKey)
    requires c.ValidScalar(k)
    ensures var p := Mul(c, k, c.base);
            && p.Affine? && c.onCurve(p) && key == [0x04] + p.x + p.y
            && DecodePoint(key) == Some(p) && Affine(key[1..33], key[33..65]) == p
  {
    MulIsFinite(c, k, c.base);
    MulOnCurve(c, k, c.base);
    DecodeInvertsEncode(Mul(c, k, c.base));
    EncodePoint(Mul(c, k, c.base))
  }

  function DecodePoint(b: PublicKey): Option<Point> {
    if b[0] == UNCOMPRESSED then Some(Affine(b[1..33], b[33..65])) else None
  }

  lemma DecodeInvertsEncode(p: Point)
    requires p.Affine?
    ensures DecodePoint(EncodePoint(p)) == Some(p)
  {
    var b := EncodePoint(p);
    assert b[1..33] == p.x && b[33..65] == p.y;
  }

  function Power256(n: nat): nat {
    if n == 0 then 1 else 256 * Power256(n - 1)
  }

  lemma Regroup(a: nat, weight: nat, b: nat)
    ensures 256 * (a * weight + b) == a * (256 * weight) + 256 * b
  {
  }

  /** The bytes in front weigh more, by one power of 256 for each byte behind them. */
  lemma {:induction false} BigEndianWeighs(front: bytes, back: bytes)
    ensures BigEndian(front + back) == BigEndian(front) * Power256(|back|) + BigEndian(back)
    ensures |back| == 1 ==> BigEndian(back) == back[0] as nat
    ensures BigEndian(back) < Power256(|back|)
  {
    if back == [] {
      assert front + back == front;
    } else {
      var init, last := back[..|back| - 1], back[|back| - 1] as nat;
      BigEndianWeighs(front, init);
      assert (front + back)[..|front + back| - 1] == front + init;
      assert BigEndian(front + back) == 256 * BigEndian(front + init) + last;
      Regroup(BigEndian(front), Power256(|init|), BigEndian(init));
    }
  }

  function BigEndian(b: bytes): nat {
    if b == [] then 0 else 256 * BigEndian(b[..|b| - 1]) + b[|b| - 1] as nat
  }

  /** Whether a stored private key can be installed. */
  predicate UsableKey(c: Curve, id: Identity) {
    c.ValidScalar(BigEndian(id.privateKey))
  }

  /** Every curve accepts the scalar 1. */
  lemma {:induction false} OneIsUsable(c: Curve, uid: Uid) returns (id: Identity)
    ensures UsableKey(c, id) && id.uid == uid
  {
    id := Identity(uid, Zeros(31) + [1]);
    BigEndianZeros(31);
    assert id.privateKey[..31] == Zeros(31);
  }

  lemma {:induction false} BigEndianZeros(n: nat)
    ensures BigEndian(Zeros(n)) == 0
  {
    if n > 0 {
      assert Zeros(n)[..n - 1] == Zeros(n - 1);
      BigEndianZeros(n - 1);
    }
  }

  /** The point shared by a private scalar and an encoded peer key, when the peer is acceptable. */
  function SharedPoint(c: Curve, k: nat, peer: PublicKey): Point {
    match DecodePoint(peer)
    case None => Infinity
    case Some(q) => if c.onCurve(q) then Mul(c, k, q) else Infinity
  }

  /** The card's answer to a challenge, None when the peer key is not acceptable. */
  function ChallengeResponse(c: Curve, suite: AuthSuite, k: nat, peer: PublicKey, challenge: Block16, salt: Salt)
    : Option<Block16>
  {
    var shared := SharedPoint(c, k, peer);
    if shared.Affine? then Some(suite.encrypt(suite.sha1(shared.x)[..16], salt + challenge[4..])) else None
  }

  /** The peer keys that are answered are exactly the uncompressed encodings of points of the curve, each
      under the key derived from its own shared point. */
  lemma AnsweredIffOnCurve(c: Curve, suite: AuthSuite, k: nat, peer: PublicKey, challenge: Block16, salt: Salt)
    requires c.ValidScalar(k)
    ensures var answer := ChallengeResponse(c, suite, k, peer, challenge, salt);
            var p := Affine(peer[1..33], peer[33..65]);
            var q := Mul(c, k, p);
            && (answer.Some? <==> peer[0] == 0x04 && c.onCurve(p))
            && (answer.Some? ==>
                  q.Affine? && answer == Some(suite.encrypt(suite.sha1(q.x)[..16], salt + challenge[4..])))
  {
    if peer[0] == UNCOMPRESSED && c.onCurve(Affine(peer[1..33], peer[33..65])) {
      MulIsFinite(c, k, Affine(peer[1..33], peer[33..65]));
    }
  }

  /** Every vehicle with a valid scalar gets an answer. The shared point it computes from its own scalar and
      the card's point is finite, and under the first half of the SHA-1 of its x coordinate the answer
      opens to the salt and the rest of the challenge. */
  lemma KeyAgreement(c: Curve, suite: AuthSuite, card: nat, vehicle: nat, salt: Salt, challenge: Block16)
    requires c.ValidScalar(card) && c.ValidScalar(vehicle)
    ensures var answer := ChallengeResponse(c, suite, card, PublicKeyOf(c, vehicle), challenge, salt);
            var q := Mul(c, vehicle, Mul(c, card, c.base));
            && answer.Some? && q.Affine?
            && suite.decrypt(suite.sha1(q.x)[..16], answer.value) == salt + challenge[4..]
  {
    MulIsFinite(c, vehicle, c.base);
    MulOnCurve(c, vehicle, c.base);
    MulIsFinite(c, card, Mul(c, vehicle, c.base));
    MulCommutes(c, card, vehicle, c.base);
  }

  /** struct TeslaCrypto. Every mbedTLS call may fail; faults counts the failures that are not refusals of the input. */
  class TeslaCrypto {
    const curve: Curve
    const suite: AuthSuite
    var groupReady: bool
    var keyReady: bool
    var privateKey: nat
    var publicKey: PublicKey
    var live: bool
    ghost var faults: nat

    /** A ready key is a valid scalar together with its own public point. */
    ghost predicate Valid()
      reads `groupReady, `keyReady, `privateKey, `publicKey
    {
      keyReady ==>
        && groupReady
        && curve.ValidScalar(privateKey)
        && publicKey == PublicKeyOf(curve, privateKey)
    }

    constructor (curve: Curve, suite: AuthSuite)
      ensures Valid() && live && groupReady && !keyReady && faults == 0
      ensures this.curve == curve && this.suite == suite
    {
      this.curve, this.suite := curve, suite;
      groupReady, keyReady, privateKey, publicKey := true, false, 0, Zeros(65);
      live, faults := true, 0;
    }

    method Free()
      modifies this
      ensures Valid() && !live && !keyReady && !groupReady
    {
      groupReady, keyReady, privateKey, publicKey := false, false, 0, Zeros(65);
      live := false;
    }

    method SomeCall() returns (ok: bool)
      modifies `faults
      ensures faults == old(faults) + if ok then 0 else 1
    {
      ok := *;
      faults := faults + if ok then 0 else 1;
    }

    method SetPrivateKey(key: Bytes32) returns (ok: bool)
      requires Valid()
      modifies this
      ensures Valid() && live == old(live) && groupReady == old(groupReady) && faults >= old(faults)
      ensures ok ==> keyReady && privateKey == BigEndian(key)
      ensures !ok && groupReady ==> !keyReady
      ensures faults == old(faults) ==>
                (ok <==> groupReady && curve.ValidScalar(BigEndian(key)))
    {
      if !groupReady {
        return false;
      }
      keyReady, publicKey := false, Zeros(65);
      privateKey := 0;
      ok := SomeCall();
      if ok {
        privateKey := BigEndian(key);
        ok := curve.ValidScalar(privateKey);
      }
      if ok {
        ok := SomeCall();
      }
      if ok {
        ok := SomeCall();
        MulIsFinite(curve, privateKey, curve.base);
        var encoded := EncodePoint(Mul(curve, privateKey, curve.base));
        if |encoded| != 65 {
          ok := false;
        } else {
          publicKey := encoded;
        }
      }
      if !ok {
        return false;
      }
      keyReady := true;
    }

    /** Draws a scalar and installs it; on failure the caller's buffer is wiped. */
    method GeneratePrivateKey(identity: IdentityBuffer) returns (ok: bool)
      requires Valid()
      modifies this, identity`privateKey
      ensures Valid() && live == old(live) && groupReady == old(groupReady) && faults >= old(faults)
      ensures ok ==> keyReady && privateKey == BigEndian(identity.privateKey)
      ensures !ok ==> identity.privateKey == Zeros(32)
      ensures groupReady && faults == old(faults) ==> ok
      ensures !ok ==> !keyReady || (old(keyReady) && privateKey == old(privateKey))
    {
      var drawn: Bytes32 := *;
      ok := *;
      identity.privateKey := drawn;
      if !ok || !curve.ValidScalar(BigEndian(drawn)) {
        faults := faults + 1;
        identity.privateKey := Zeros(32);
        return false;
      }
      ok := SetPrivateKey(identity.privateKey);
      if !ok {
        identity.privateKey := Zeros(32);
      }
    }

    /** The answer a fault-free authentication gives, None when the request is refused. */
    ghost function Expected(peer: PublicKey, challenge: Block16, salt: Salt): Option<Block16>
      reads `keyReady, `privateKey
    {
      if keyReady then ChallengeResponse(curve, suite, privateKey, peer, challenge, salt) else None
    }

    method AuthenticateWithSalt(peer: PublicKey, challenge: Block16, salt: Salt, response: array<byte>)
      returns (success: bool)
      requires Valid() && response.Length == 16
      modifies `faults, response
      ensures Valid() && faults >= old(faults)
      ensures success ==> Expected(peer, challenge, salt) == Some(response[..])
      ensures !success ==> response[..] == Zeros(16)
      ensures faults == old(faults) ==> (success <==> Expected(peer, challenge, salt).Some?)
      // The same in terms of the peer's point.
      ensures var p := Affine(peer[1..33], peer[33..65]);
              var q := Mul(curve, privateKey, p);
              && (success ==>
                    && keyReady && peer[0] == 0x04 && curve.onCurve(p) && q.Affine?
                    && response[..] == suite.encrypt(suite.sha1(q.x)[..16], salt + challenge[4..]))
              && (faults == old(faults) ==> (success <==> keyReady && peer[0] == 0x04 && curve.onCurve(p)))
    {
      if keyReady {
        AnsweredIffOnCurve(curve, suite, privateKey, peer, challenge, salt);
      }
      success := TryAuthenticate(peer, challenge, salt, response);
      if !success {
        forall i | 0 <= i < 16 {
          response[i] := 0;
        }
      }
    }

    /** The body up to its cleanup label: a failure may leave anything in the response. */
    method TryAuthenticate(peer: PublicKey, challenge: Block16, salt: Salt, response: array<byte>)
      returns (success: bool)
      requires Valid() && response.Length == 16
      modifies `faults, response
      ensures Valid() && faults >= old(faults)
      ensures success ==> Expected(peer, challenge, salt) == Some(response[..])
      ensures faults == old(faults) ==> (success <==> Expected(peer, challenge, salt).Some?)
    {
      if !keyReady || peer[0] != UNCOMPRESSED {
        return false;
      }
      var peerPoint := Affine(peer[1..33], peer[33..65]);
      var ok := SomeCall();
      if !ok || !curve.onCurve(peerPoint) {
        return false;
      }
      ok := SomeCall();
      if !ok {
        return false;
      }
      var encoded := EncodePoint(Mul(curve, privateKey, peerPoint));
      ok := SomeCall();
      if !ok || |encoded| != 65 {
        return false;
      }
      var sharedX := encoded[1..33];
      assert encoded[1..33] == Mul(curve, privateKey, peerPoint).x;
      ok := SomeCall();
      if !ok {
        return false;
      }
      var digest := suite.sha1(sharedX);
      ok := SomeCall();
      if !ok {
        return false;
      }
      var block := suite.encrypt(digest[..16], salt + challenge[4..]);
      forall i | 0 <= i < 16 {
        response[i] := block[i];
      }
      assert response[..] == block;
      success := SomeCall();
    }

    method Authenticate(peer: PublicKey, challenge: Block16, response: array<byte>)
      returns (success: bool, ghost salt: Salt)
      requires Valid() && response.Length == 16
      modifies `faults, response
      ensures Valid() && faults >= old(faults)
      ensures success ==> Expected(peer, challenge, salt) == Some(response[..])
      ensures !success ==> response[..] == Zeros(16)
      ensures faults == old(faults) ==> (success <==> Expected(peer, challenge, salt).Some?)
    {
      var drawn: Salt := *;
      salt := drawn;
      success := AuthenticateWithSalt(peer, challenge, drawn, response);
    }
  }

  /** Copies source over destination when the condition is not zero, touching every byte either way. */
  method CopyIf(destination: array<byte>, source: array<byte>, condition: byte)
    requires destination != source && destination.Length == source.Length
    modifies destination
    ensures destination[..] == if condition != 0 then source[..] else old(destination[..])
  {
    var mask: byte := if condition != 0 then 0xFF else 0;
    for i := 0 to destination.Length
      invariant destination[..i] == if condition != 0 then source[..i] else old(destination[..i])
      invariant destination[i..] == old(destination[i..])
    {
      MaskedSelect(destination[i], source[i], mask);
      destination[i] := (destination[i] & (mask ^ 0xFF)) | (source[i] & mask);
    }
    assert destination[..destination.Length] == destination[..];
    assert source[..source.Length] == source[..];
  }

  lemma MaskedSelect(d: byte, s: byte, mask: byte)
    requires mask == 0 || mask == 0xFF
    ensures (d & (mask ^ 0xFF)) | (s & mask) == if mask == 0 then d else s
  {
  }
}
