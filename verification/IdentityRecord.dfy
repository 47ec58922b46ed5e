/** The on-disk identity records of tesla_identity.c: layout, sealing and decoding.
    The device-unique AES key, the HMAC and the CRC are hidden behind a Suite. */
module IdentityRecord {
  import opened Bytes

  type Uid = s: bytes | |s| == 4 witness [0, 0, 0, 0]
  type Magic = s: bytes | |s| == 8 witness [0, 0, 0, 0, 0, 0, 0, 0]
  type Reserved = s: bytes | |s| == 2 witness [0, 0]
  type Checksum = s: bytes | |s| == 4 witness [0, 0, 0, 0]
  type Iv = s: bytes | |s| == 16 witness Zeros(16)
  type Bytes32 = s: bytes | |s| == 32 witness Zeros(32)

  datatype Identity = Identity(uid: Uid, privateKey: Bytes32)

  const ZERO_IDENTITY := Identity(Zeros(4), Zeros(32))

  /** The caller's TeslaIdentity, filled in place. */
  class IdentityBuffer {
    var uid: Uid
    var privateKey: Bytes32

    constructor ()
      ensures Value() == ZERO_IDENTITY
    {
      uid, privateKey := Zeros(4), Zeros(32);
    }

    function Value(): Identity
      reads this
    {
      Identity(uid, privateKey)
    }

    method Clear()
      modifies this
      ensures Value() == ZERO_IDENTITY
    {
      uid, privateKey := Zeros(4), Zeros(32);
    }
  }

  const BODY_SIZE := 64
  const RECORD_SIZE := 96
  const LEGACY_SIZE := 68

  const VERSION: byte := 2
  const LEGACY_VERSION: byte := 1
  const UID_SIZE: byte := 4

  const MAGIC: Magic := [0x54, 0x4B, 0x43, 0x46, 0x5A, 0x30, 0x30, 0x31]

  const ZERO_IV: Iv := Zeros(16)

  /** "TeslaKeyCard-MAC-Derivation-V1" padded with two zero bytes. */
  const MAC_DERIVATION: Bytes32 := [
    0x54, 0x65, 0x73, 0x6C, 0x61, 0x4B, 0x65, 0x79, 0x43, 0x61, 0x72, 0x64, 0x2D, 0x4D, 0x41, 0x43,
    0x2D, 0x44, 0x65, 0x72, 0x69, 0x76, 0x61, 0x74, 0x69, 0x6F, 0x6E, 0x2D, 0x56, 0x31, 0x00, 0x00]

  /** One device's primitives: AES-CBC under the enclave key, HMAC-SHA256 (RFC 2104 section 2), CRC-32. */
  datatype Primitives = Primitives(
    encrypt: (Iv, Bytes32) -> Bytes32,
    decrypt: (Iv, Bytes32) -> Bytes32,
    hmac: (Bytes32, bytes) -> Bytes32,
    crc: bytes -> Checksum)
  {
    ghost predicate Lawful() {
      forall iv: Iv, k: Bytes32 :: decrypt(iv, encrypt(iv, k)) == k
    }

    function MacKey(): Bytes32 {
      encrypt(ZERO_IV, MAC_DERIVATION)
    }

    function Mac(body: bytes): Bytes32 {
      hmac(MacKey(), body)
    }
  }

  /** Decryption inverts encryption under the same key and IV; nothing else is assumed. */
  type Suite = p: Primitives | p.Lawful()
    ghost witness Primitives((iv: Iv, k: Bytes32) => k, (iv: Iv, k: Bytes32) => k,
                             (k: Bytes32, b: bytes) => k, (b: bytes) => [0, 0, 0, 0])

  /** The 64 bytes both record formats share. */
  datatype Body = Body(
    magic: Magic, version: byte, uidSize: byte, uid: Uid, reserved: Reserved,
    iv: Iv, encryptedPrivateKey: Bytes32)

  datatype Record = Record(body: Body, mac: Bytes32)

  datatype LegacyRecord = LegacyRecord(body: Body, checksum: Checksum)

  function PackBody(b: Body): (p: bytes)
    ensures |p| == BODY_SIZE
  {
    b.magic + [b.version, b.uidSize] + b.uid + b.reserved + b.iv + b.encryptedPrivateKey
  }

  function UnpackBody(p: bytes): Body
    requires |p| >= BODY_SIZE
  {
    Body(p[0..8], p[8], p[9], p[10..14], p[14..16], p[16..32], p[32..64])
  }

  function Pack(r: Record): (p: bytes)
    ensures |p| == RECORD_SIZE
  {
    PackBody(r.body) + r.mac
  }

  function Unpack(p: bytes): Record
    requires |p| == RECORD_SIZE
  {
    Record(UnpackBody(p), p[64..96])
  }

  function PackLegacy(r: LegacyRecord): (p: bytes)
    ensures |p| == LEGACY_SIZE
  {
    PackBody(r.body) + r.checksum
  }

  function UnpackLegacy(p: bytes): LegacyRecord
    requires |p| == LEGACY_SIZE
  {
    LegacyRecord(UnpackBody(p), p[64..68])
  }

  predicate HeaderIs(b: Body, version: byte) {
    b.magic == MAGIC && b.version == version && b.uidSize == UID_SIZE
  }

  function Open(s: Suite, b: Body): Identity {
    Identity(b.uid, s.decrypt(b.iv, b.encryptedPrivateKey))
  }

  /** What a v2 record denotes when every crypto call succeeds. */
  function DecodeRecord(s: Suite, r: Record): Option<Identity> {
    if HeaderIs(r.body, VERSION) && r.mac == s.Mac(PackBody(r.body)) then Some(Open(s, r.body)) else None
  }

  function DecodeLegacy(s: Suite, r: LegacyRecord): Option<Identity> {
    if HeaderIs(r.body, LEGACY_VERSION) && r.checksum == s.crc(PackBody(r.body))
    then Some(Open(s, r.body)) else None
  }

  /** What a file denotes: the size alone picks the format, so a 96-byte file never reaches the legacy reader. */
  function Decode(s: Suite, file: bytes): Option<Identity> {
    if |file| == RECORD_SIZE then DecodeRecord(s, Unpack(file))
    else if |file| == LEGACY_SIZE then DecodeLegacy(s, UnpackLegacy(file))
    else None
  }

  /** The body that save writes for an identity under a random IV. */
  function SealedBody(s: Suite, id: Identity, iv: Iv): Body {
    Body(MAGIC, VERSION, UID_SIZE, id.uid, [0, 0], iv, s.encrypt(iv, id.privateKey))
  }

  function Seal(s: Suite, id: Identity, iv: Iv): Record {
    var body := SealedBody(s, id, iv);
    Record(body, s.Mac(PackBody(body)))
  }

  function Encode(s: Suite, id: Identity, iv: Iv): (file: bytes)
    ensures |file| == RECORD_SIZE
  {
    Pack(Seal(s, id, iv))
  }

  lemma UnpackBodyInvertsPackBody(b: Body, rest: bytes)
    ensures UnpackBody(PackBody(b) + rest) == b
  {
    var p := PackBody(b) + rest;
    assert p[0..8] == b.magic;
    assert p[10..14] == b.uid;
    assert p[14..16] == b.reserved;
    assert p[16..32] == b.iv;
    assert p[32..64] == b.encryptedPrivateKey;
  }

  /** Packing and unpacking are inverse in both directions, for both formats. */
  lemma PackUnpackInverse(r: Record, p: bytes)
    ensures Unpack(Pack(r)) == r
    ensures |p| == RECORD_SIZE ==> Pack(Unpack(p)) == p
  {
    UnpackBodyInvertsPackBody(r.body, r.mac);
    assert Pack(r)[64..96] == r.mac;
  }

  lemma PackUnpackLegacyInverse(r: LegacyRecord, p: bytes)
    ensures UnpackLegacy(PackLegacy(r)) == r
    ensures |p| == LEGACY_SIZE ==> PackLegacy(UnpackLegacy(p)) == p
  {
    UnpackBodyInvertsPackBody(r.body, r.checksum);
    assert PackLegacy(r)[64..68] == r.checksum;
  }

  /** Loading what was saved gives back the same uid and private key, whatever the IV. */
  lemma RoundTrip(s: Suite, id: Identity, iv: Iv)
    ensures Decode(s, Encode(s, id, iv)) == Some(id)
  {
    PackUnpackInverse(Seal(s, id, iv), []);
  }

  /** Every proper prefix of a saved record is rejected, also the one of exactly the legacy size. */
  lemma TornWriteRejected(s: Suite, id: Identity, iv: Iv, k: nat)
    requires k < RECORD_SIZE
    ensures Decode(s, Encode(s, id, iv)[..k]) == None
  {
    if k == LEGACY_SIZE {
      var torn := Encode(s, id, iv)[..k];
      assert torn == PackBody(SealedBody(s, id, iv)) + torn[64..];
      UnpackBodyInvertsPackBody(SealedBody(s, id, iv), torn[64..]);
    }
  }

  /** A file byte by byte: the current format with its code over the first 64 bytes, or the legacy
      format with its checksum over them. */
  predicate Intact(s: Suite, f: bytes) {
    || (&& |f| == 96
        && f[0..8] == [0x54, 0x4B, 0x43, 0x46, 0x5A, 0x30, 0x30, 0x31] && f[8] == 2 && f[9] == 4
        && f[64..96] == s.hmac(s.encrypt(Zeros(16), MAC_DERIVATION), f[..64]))
    || (&& |f| == 68
        && f[0..8] == [0x54, 0x4B, 0x43, 0x46, 0x5A, 0x30, 0x30, 0x31] && f[8] == 1 && f[9] == 4
        && f[64..68] == s.crc(f[..64]))
  }

  predicate IntactFile(s: Suite, file: Option<bytes>) {
    file.Some? && Intact(s, file.value)
  }

  /** The identity such a file holds. */
  function IdentityIn(s: Suite, f: bytes): Identity
    requires |f| >= 64
  {
    Identity(f[10..14], s.decrypt(f[16..32], f[32..64]))
  }

  lemma PackInvertsUnpackBody(f: bytes)
    requires |f| >= BODY_SIZE
    ensures PackBody(UnpackBody(f)) == f[..64]
  {
  }

  /** A file is accepted exactly when its bytes say so, and then gives the identity in those bytes. */
  lemma DecodedIffIntact(s: Suite, f: bytes)
    ensures Decode(s, f) == if Intact(s, f) then Some(IdentityIn(s, f)) else None
  {
    if |f| >= 64 {
      PackInvertsUnpackBody(f);
      hide PackBody;
    }
  }

  /** The bytes that save writes. */
  lemma SavedBytes(s: Suite, id: Identity, iv: Iv)
    ensures var f := Encode(s, id, iv);
            && |f| == 96 && Intact(s, f) && IdentityIn(s, f) == id
            && f[14..16] == [0, 0] && f[16..32] == iv && f[32..64] == s.encrypt(iv, id.privateKey)
  {
    var f := Encode(s, id, iv);
    RoundTrip(s, id, iv);
    DecodedIffIntact(s, f);
    PackUnpackInverse(Seal(s, id, iv), []);
    assert UnpackBody(f) == SealedBody(s, id, iv);
  }

  /** A saved record with its code changed is always rejected; one with other bytes changed and the
      code kept is accepted exactly when the header is kept and the codes collide. */
  lemma ChangedRecordRejected(s: Suite, id: Identity, iv: Iv, f: bytes)
    requires |f| == 96 && f != Encode(s, id, iv)
    ensures var saved := Encode(s, id, iv);
            var code := (b: bytes) => s.hmac(s.encrypt(Zeros(16), MAC_DERIVATION), b);
            && (f[..64] == saved[..64] ==> Decode(s, f) == None)
            && (f[64..] == saved[64..] ==>
                  (Decode(s, f).Some? <==> f[..10] == saved[..10] && code(f[..64]) == code(saved[..64])))
  {
    var saved := Encode(s, id, iv);
    SavedBytes(s, id, iv);
    DecodedIffIntact(s, f);
    hide Encode, Decode, IdentityIn;
    assert f == f[..64] + f[64..] && saved == saved[..64] + saved[64..];
    assert f[64..96] == f[64..] && saved[64..96] == saved[64..];
    assert saved[0..8] == MAGIC && saved[8] == VERSION && saved[9] == UID_SIZE;
    assert f[..10] == f[0..8] + [f[8], f[9]] && saved[..10] == saved[0..8] + [saved[8], saved[9]];
    if f[..10] == saved[..10] {
      assert f[0..8] == f[..10][..8] && f[8] == f[..10][8] && f[9] == f[..10][9];
      assert saved[0..8] == saved[..10][..8] && saved[8] == saved[..10][8] && saved[9] == saved[..10][9];
    }
  }
}
