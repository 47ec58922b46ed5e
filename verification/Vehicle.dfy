/** The vehicle's side of the protocol: what it learns from the bytes a running card sends. */
module Vehicle {
  import opened Bytes
  import opened Crypto
  import opened Apdu
  import opened ApduSessions
  import opened Nfc
  import opened EventLedger
  import opened KeyCard

  datatype Header = Header(cla: byte, p1: byte, p2: byte)

  /** What a vehicle sends, its own point apart: a SELECT, a GET PUBLIC KEY and an AUTHENTICATE. */
  datatype Visit = Visit(
    select: bytes, keyHeader: Header, keyLe: Option<byte>,
    header: Header, lc: byte, challenge: Block16, trailing: bytes, le: Option<byte>)
  {
    /** The SELECT names the applet, both commands are proprietary and ask for the whole answer. */
    predicate WellFormed() {
      && SelectsApplet(select)
      && keyHeader.cla & 0x80 != 0 && SizeFor(keyLe, PUBLIC_KEY_SIZE) == PUBLIC_KEY_SIZE
      && header.cla & 0x80 != 0 && lc as nat == AUTHENTICATE_DATA_LEN + |trailing|
      && SizeFor(le, AUTH_RESPONSE_SIZE) == AUTH_RESPONSE_SIZE
    }

    function ReadKey(): bytes {
      EncodeGetPublicKey(keyHeader.cla, keyHeader.p1, keyHeader.p2, keyLe)
    }

    function Challenge(peer: PublicKey): bytes {
      EncodeAuthenticate(header.cla, header.p1, header.p2, lc, peer, challenge, trailing, le)
    }
  }

  /** The bytes of a reply. */
  function OnAir(reply: Reply): bytes {
    reply.data + StatusBytes(reply.statusWord)
  }

  /** One request to the listener and the bytes it sends back. */
  method Send(app: KeyCardApp, request: bytes)
    returns (answer: bytes, ghost verdict: Option<Block16>, ghost salt: Salt)
    requires app.Valid() && app.nfc != null && app.nfc.listening
    modifies app`queue, app`ledger, app.nfc`txBuffer, app.nfc`cryptoTimeMs
    modifies app.nfc.applet`selected, app.nfc.applet`calls, app.crypto`faults
    ensures app.Valid() && app.crypto.faults >= old(app.crypto.faults)
    ensures var reply := Respond(old(app.nfc.applet.selected), app.nfc.applet.publicKey, true, verdict, request);
            && answer == OnAir(reply) == app.nfc.txBuffer && app.nfc.applet.selected == reply.selected
            && EventsOf(app.ledger.posts)
               == EventsOf(old(app.ledger.posts)) + [Report(reply.command, reply.statusWord, true)]
    ensures old(app.nfc.applet.selected) && IsAuthenticate(request) ==>
              var expected := ChallengeResponse(app.curve, app.suite, BigEndian(app.identity.privateKey),
                                                PeerKey(request), ChallengeOf(request), salt);
              && verdict in {expected, None}
              && (app.crypto.faults == old(app.crypto.faults) ==> verdict == expected)
  {
    hide Respond, StatusBytes, Report, IsAuthenticate, ChallengeResponse, PublicKeyOf, BigEndian;
    hide KeyCardApp.ServingValid, KeyCardApp.CountersValid, KeyCardApp.ScreenValid, Explains;
    verdict, salt := app.ListenerSignal(ReceivedData(request, true));
    answer := app.nfc.txBuffer;
  }

  /** The kinds of the events posted. */
  function EventsOf(posts: seq<Post>): seq<NfcEvent> {
    seq(|posts|, i requires 0 <= i < |posts| => posts[i].pending.event)
  }

  /** The SELECT and the GET PUBLIC KEY of a visit, as they come back. */
  lemma OpeningOnAir(v: Visit, selected: bool, publicKey: PublicKey, first: Option<Block16>, second: Option<Block16>)
    requires v.WellFormed()
    ensures var reply := Respond(selected, publicKey, true, first, v.select);
            reply.selected && Report(reply.command, reply.statusWord, true) == AppletSelected
    ensures var reply := Respond(true, publicKey, true, second, v.ReadKey());
            && reply.selected && OnAir(reply) == publicKey + StatusBytes(SW_SUCCESS)
            && Report(reply.command, reply.statusWord, true) == PublicKeyRead
  {
    SuccessNamesItsCommand(selected, publicKey, true, first, v.select);
    PublicKeyRoundTrip(v.keyHeader.cla, v.keyHeader.p1, v.keyHeader.p2, v.keyLe, publicKey, true, second);
    assert publicKey[..PUBLIC_KEY_SIZE] == publicKey;
  }

  /** The AUTHENTICATE of a visit: an answer that opens, or a bare error when the key gave none. */
  lemma AnswerOnAir(c: Curve, suite: AuthSuite, card: nat, vehicle: nat, v: Visit, salt: Salt, answered: bool)
    requires v.WellFormed() && c.ValidScalar(card) && c.ValidScalar(vehicle)
    ensures var peer := PublicKeyOf(c, vehicle);
            var response := ChallengeResponse(c, suite, card, peer, v.challenge, salt);
            var reply := Respond(true, PublicKeyOf(c, card), true, if answered then response else None,
                                 v.Challenge(peer));
            && IsAuthenticate(v.Challenge(peer))
            && PeerKey(v.Challenge(peer)) == peer && ChallengeOf(v.Challenge(peer)) == v.challenge
            && response.Some?
            && Report(reply.command, reply.statusWord, true) == (if answered then Authenticated else ProtocolError)
            && var q := Mul(c, vehicle, Mul(c, card, c.base));
               q.Affine?
               && if answered
                  then && |OnAir(reply)| == 18 && OnAir(reply)[16..] == [0x90, 0x00]
                       && suite.decrypt(suite.sha1(q.x)[..16], OnAir(reply)[..16]) == salt + v.challenge[4..]
                  else OnAir(reply) == [0x6F, 0x00]
  {
    var peer := PublicKeyOf(c, vehicle);
    EncodedFields(v.header.cla, v.header.p1, v.header.p2, v.lc, peer, v.challenge, v.trailing, v.le);
    KeyAgreement(c, suite, card, vehicle, salt, v.challenge);
    hide PublicKeyOf, ChallengeResponse, Respond;
    hide EncodeAuthenticate, IsAuthenticate, PeerKey, ChallengeOf;
    if answered {
      VehicleReadsResponse(c, suite, card, vehicle, salt, v.header.cla, v.header.p1, v.header.p2, v.lc, v.challenge,
                           v.trailing, v.le);
      var reply := Respond(true, PublicKeyOf(c, card), true,
                           ChallengeResponse(c, suite, card, peer, v.challenge, salt), v.Challenge(peer));
      assert OnAir(reply)[..16] == reply.data && OnAir(reply)[16..] == StatusBytes(SW_SUCCESS);
    } else {
      AuthenticateRoundTrip(v.header.cla, v.header.p1, v.header.p2, v.lc, peer, v.challenge, v.trailing, v.le,
                            PublicKeyOf(c, card), None);
    }
  }

  /** A visit to a running card, whatever its session was before. The vehicle learns the public key of
      the current identity. The last answer is the error 6F00 or sixteen bytes with 9000, which open to
      the salt and the rest of the challenge under the first half of the SHA-1 of the x coordinate of the
      shared point; without faults it is the latter. What the app is told agrees. */
  method Meet(app: KeyCardApp, vehicle: nat, v: Visit)
    returns (cardKey: PublicKey, answer: bytes, read: Option<Block16>, ghost salt: Salt)
    requires app.Valid() && app.nfc != null && app.nfc.listening
    requires app.curve.ValidScalar(vehicle) && v.WellFormed()
    modifies app`queue, app`ledger, app.nfc`txBuffer, app.nfc`cryptoTimeMs
    modifies app.nfc.applet`selected, app.nfc.applet`calls, app.crypto`faults
    ensures app.Valid() && app.crypto.faults >= old(app.crypto.faults)
    ensures UsableKey(app.curve, app.identity.Value())
    ensures var p := Mul(app.curve, BigEndian(app.identity.privateKey), app.curve.base);
            p.Affine? && cardKey == [0x04] + p.x + p.y
    ensures answer == app.nfc.txBuffer
    ensures var q := Mul(app.curve, vehicle, Mul(app.curve, BigEndian(app.identity.privateKey), app.curve.base));
            && q.Affine?
            && if read.Some?
               then && |answer| == 18 && answer[16..] == [0x90, 0x00]
                    && app.suite.decrypt(app.suite.sha1(q.x)[..16], answer[..16]) == salt + v.challenge[4..]
               else answer == [0x6F, 0x00]
    ensures read in {None, Some(salt + v.challenge[4..])}
    ensures app.crypto.faults == old(app.crypto.faults) ==> read.Some?
    ensures EventsOf(app.ledger.posts)
            == EventsOf(old(app.ledger.posts))
               + [AppletSelected, PublicKeyRead, if read.Some? then Authenticated else ProtocolError]
  {
    hide Respond, StatusBytes, Report, IsAuthenticate, ChallengeResponse, PublicKeyOf, BigEndian, Mul;
    hide KeyCardApp.Valid, EventsOf, Visit.Challenge, Visit.ReadKey;
    ghost var selected := app.nfc.applet.selected;
    app.ServedKeyAgrees(vehicle, v.challenge, Zeros(4));
    ghost var first, second;
    cardKey, first, second := Greet(app, v);
    ghost var verdict;
    answer, verdict, salt := Send(app, v.Challenge(PublicKeyOf(app.curve, vehicle)));
    AnswerOnAir(app.curve, app.suite, BigEndian(app.identity.privateKey), vehicle, v, salt, verdict.Some?);
    assert cardKey == PublicKeyOf(app.curve, BigEndian(app.identity.privateKey));
    read := None;
    if |answer| == 18 {
      read := Open(app.curve, app.suite, vehicle, cardKey, answer[..16]);
    }
  }

  /** SELECT and GET PUBLIC KEY. */
  method Greet(app: KeyCardApp, v: Visit)
    returns (cardKey: PublicKey, ghost first: Option<Block16>, ghost second: Option<Block16>)
    requires app.Valid() && app.nfc != null && app.nfc.listening && v.WellFormed()
    modifies app`queue, app`ledger, app.nfc`txBuffer, app.nfc`cryptoTimeMs
    modifies app.nfc.applet`selected, app.nfc.applet`calls, app.crypto`faults
    ensures app.Valid() && app.crypto.faults >= old(app.crypto.faults)
    ensures app.nfc.applet.selected && cardKey == app.nfc.applet.publicKey
    ensures EventsOf(app.ledger.posts) == EventsOf(old(app.ledger.posts)) + [AppletSelected, PublicKeyRead]
  {
    hide Respond, StatusBytes, Report, IsAuthenticate, ChallengeResponse, PublicKeyOf, BigEndian;
    hide KeyCardApp.Valid, EventsOf, Visit.ReadKey;
    ghost var publicKey, selected := app.nfc.applet.publicKey, app.nfc.applet.selected;
    var answer;
    ghost var unused;
    answer, first, unused := Send(app, v.select);
    answer, second, unused := Send(app, v.ReadKey());
    OpeningOnAir(v, selected, publicKey, first, second);
    assert answer[..65] == publicKey;
    cardKey := answer[..65];
  }

  /** What the vehicle does with an answer: its own scalar times the point it was sent, and the key from that. */
  method Open(c: Curve, suite: AuthSuite, vehicle: nat, cardKey: PublicKey, answer: Block16)
    returns (read: Option<Block16>)
    ensures var q := Mul(c, vehicle, Affine(cardKey[1..33], cardKey[33..65]));
            read == if q.Affine? then Some(suite.decrypt(suite.sha1(q.x)[..16], answer)) else None
  {
    var q := Mul(c, vehicle, Affine(cardKey[1..33], cardKey[33..65]));
    read := if q.Affine? then Some(suite.decrypt(suite.sha1(q.x)[..16], answer)) else None;
  }
}
