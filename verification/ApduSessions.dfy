/** Whole sessions with the applet, and what every single reply satisfies. */
module ApduSessions {
  import opened Bytes
  import opened Crypto
  import opened Apdu

  /** What reaches the applet: a request, with what the authenticator would answer, or a session
      reset (field off, halt, listener start or stop). */
  datatype Event = Received(request: bytes, verdict: Option<Block16>) | Reset

  function Step(selected: bool, e: Event): bool {
    match e
    case Received(request, verdict) => Respond(selected, Zeros(65), true, verdict, request).selected
    case Reset => false
  }

  /** The selected flag after a history, from tesla_apdu_init on. */
  function SelectedAfter(events: seq<Event>): bool {
    if events == [] then false else Step(SelectedAfter(events[..|events| - 1]), events[|events| - 1])
  }

  predicate Decides(e: Event) {
    e.Reset? || IsSelectByName(e.request)
  }

  ghost predicate LastDecision(events: seq<Event>, i: nat) {
    i < |events| && Decides(events[i]) && forall j :: i < j < |events| ==> !Decides(events[j])
  }

  /** The session is open when the last event that decides about it selected the applet. */
  ghost predicate OpenByHistory(events: seq<Event>) {
    exists i: nat :: LastDecision(events, i) && events[i].Received? && SelectsApplet(events[i].request)
  }

  /** The selected flag is determined by history: nothing but SELECT by name and resets touches it. */
  lemma {:induction false} SelectedIffOpenByHistory(events: seq<Event>)
    ensures SelectedAfter(events) <==> OpenByHistory(events)
  {
    if events != [] {
      var n := |events| - 1;
      var init, e := events[..n], events[n];
      SelectedIffOpenByHistory(init);
      if Decides(e) {
        assert LastDecision(events, n);
      } else {
        forall i: nat
          ensures LastDecision(events, i) <==> LastDecision(init, i)
        {
          assert i < n ==> init[i] == events[i];
        }
      }
    }
  }

  /** Response data leaves the card only in an open session, and never for the SELECT that opens it. */
  lemma DataNeedsSelection(events: seq<Event>, publicKey: PublicKey, present: bool, verdict: Option<Block16>,
                           request: bytes)
    requires Respond(SelectedAfter(events), publicKey, present, verdict, request).data != []
    ensures OpenByHistory(events) && !IsSelectByName(request) && IsProprietary(request)
  {
    SelectedIffOpenByHistory(events);
  }

  /** The questions put to the authenticator over a history, in order. */
  function Asked(events: seq<Event>): seq<(PublicKey, Block16)> {
    if events == [] then []
    else
      var init, e := events[..|events| - 1], events[|events| - 1];
      Asked(init) +
      match e
      case Received(request, verdict) =>
        (match Respond(SelectedAfter(init), Zeros(65), true, verdict, request).asked
         case None => []
         case Some(q) => [q])
      case Reset => []
  }

  /** The well-formed AUTHENTICATE requests that met an open session, as peer key and challenge. */
  ghost function AuthenticateRequests(events: seq<Event>): seq<(PublicKey, Block16)> {
    if events == [] then []
    else
      var init, e := events[..|events| - 1], events[|events| - 1];
      AuthenticateRequests(init) +
      if e.Received? && OpenByHistory(init) && IsAuthenticate(e.request)
      then [(PeerKey(e.request), ChallengeOf(e.request))] else []
  }

  /** The authenticator is asked exactly once for each of those requests, with their own bytes. */
  lemma {:induction false} AskedExactlyForAuthenticates(events: seq<Event>)
    ensures Asked(events) == AuthenticateRequests(events)
  {
    hide SelectedAfter, OpenByHistory, ApplyLe;
    if events != [] {
      var init := events[..|events| - 1];
      AskedExactlyForAuthenticates(init);
      SelectedIffOpenByHistory(init);
    }
  }

  /** The published key does not matter for the flag and the question. */
  lemma KeyDoesNotMatter(selected: bool, first: PublicKey, second: PublicKey, verdict: Option<Block16>, request: bytes)
    ensures var r1, r2 := Respond(selected, first, true, verdict, request),
                          Respond(selected, second, true, verdict, request);
            r1.selected == r2.selected && r1.asked == r2.asked
  {
  }

  /** One more event: what it does to the flag and to the questions, for a request answered under any public key. */
  lemma OneMoreEvent(events: seq<Event>, e: Event, publicKey: PublicKey)
    ensures SelectedAfter(events + [e]) == Step(SelectedAfter(events), e)
    ensures e.Reset? ==> Asked(events + [e]) == Asked(events)
    ensures e.Received? ==>
              var reply := Respond(SelectedAfter(events), publicKey, true, e.verdict, e.request);
              && Step(SelectedAfter(events), e) == reply.selected
              && Asked(events + [e]) == Asked(events) + if reply.asked.Some? then [reply.asked.value] else []
  {
    hide Respond;
    if e.Received? {
      KeyDoesNotMatter(SelectedAfter(events), publicKey, Zeros(65), e.verdict, e.request);
    }
    assert (events + [e])[..|events|] == events;
  }

  /** Every reply in every buffer: it fits, it is empty only where not even a status word fits,
      otherwise it ends with the status word it reports, and an error carries no data. */
  lemma ReplyIsWellFormed(selected: bool, publicKey: PublicKey, present: bool, verdict: Option<Block16>,
                          request: bytes, capacity: nat)
    ensures var reply := Respond(selected, publicKey, present, verdict, request);
            var (result, written) := Deliver(reply.command, reply.statusWord, reply.data, capacity);
            && result.responseSize == |written| <= capacity
            && (result.responseSize == 0 <==> capacity < 2)
            && (capacity >= 2 ==>
                  && |written| >= 2
                  && (written[|written| - 2] as StatusWord << 8) | written[|written| - 1] as StatusWord
                     == result.statusWord)
            && (capacity >= 2 && result.statusWord != SW_SUCCESS ==> |written| == 2)
            && (capacity >= 2 && result.statusWord == SW_SUCCESS ==> written[..|written| - 2] == reply.data)
            && result.command == reply.command
            && (capacity >= |reply.data| + 2 ==> result.statusWord == reply.statusWord)
            && (2 <= capacity < |reply.data| + 2 ==> result.statusWord == 0x6700)
  {
    var reply := Respond(selected, publicKey, present, verdict, request);
    hide Respond;
    StatusBytesDecode(reply.statusWord);
    StatusBytesDecode(SW_WRONG_LENGTH);
    ErrorsCarryNoData(selected, publicKey, present, verdict, request);
  }

  lemma ErrorsCarryNoData(selected: bool, publicKey: PublicKey, present: bool, verdict: Option<Block16>, request: bytes)
    ensures var reply := Respond(selected, publicKey, present, verdict, request);
            reply.statusWord != SW_SUCCESS ==> reply.data == []
  {
  }

  lemma StatusBytesDecode(statusWord: StatusWord)
    ensures (StatusBytes(statusWord)[0] as StatusWord << 8) | StatusBytes(statusWord)[1] as StatusWord == statusWord
  {
  }

  /** The listener's buffer takes every reply whole. */
  lemma ListenerBufferSuffices(selected: bool, publicKey: PublicKey, present: bool, verdict: Option<Block16>,
                               request: bytes)
    ensures var reply := Respond(selected, publicKey, present, verdict, request);
            && |reply.data| <= PUBLIC_KEY_SIZE
            && Deliver(reply.command, reply.statusWord, reply.data, RESPONSE_MAX)
               == (Result(reply.command, reply.statusWord, |reply.data| + 2),
                   reply.data + StatusBytes(reply.statusWord))
  {
  }

  /** The first four bytes of a SELECT by DF name. */
  predicate SelectHeader(request: bytes) {
    |request| >= 4 && request[0] == 0x00 && request[1] == 0xA4 && request[2] == 0x04
  }

  /** Requests decided before the session is looked at: the short ones and every SELECT by name, which
      opens the session exactly for a complete name that starts with one of the two AIDs. */
  lemma SelectionTable(selected: bool, publicKey: PublicKey, present: bool, verdict: Option<Block16>, request: bytes)
    ensures var reply := Respond(selected, publicKey, present, verdict, request);
            && (|request| < 4 ==> reply == Reply(NoCommand, 0x6700, [], selected, None))
            && (SelectHeader(request) ==>
                  && reply.command == Select && reply.data == [] && reply.asked == None
                  && reply.statusWord == (if reply.selected then 0x9000 else 0x6A82)
                  && (reply.selected <==>
                        && |request| >= 5 && 5 + request[4] as nat <= |request|
                        && var name := request[5..5 + request[4] as nat];
                           || [0x74, 0x65, 0x73, 0x6C, 0x61, 0x4C, 0x6F, 0x67, 0x69, 0x63] <= name
                           || [0xF4, 0x65, 0x73, 0x6C, 0x61, 0x4C, 0x6F, 0x67, 0x69, 0x63] <= name))
  {
    if SelectHeader(request) && |request| >= 5 && 5 + request[4] as nat <= |request| {
      KnownAid(request[5..5 + request[4] as nat]);
    }
  }

  /** Every other request is refused in a closed session, and in an open one below class 80 or with an
      unknown instruction: no data, no use of the key, and the session stays as it is. */
  lemma RefusalTable(selected: bool, publicKey: PublicKey, present: bool, verdict: Option<Block16>, request: bytes)
    requires |request| >= 4 && !SelectHeader(request)
    ensures var reply := Respond(selected, publicKey, present, verdict, request);
            && (!selected ==> reply == Reply(Unsupported, 0x6999, [], false, None))
            && (selected && request[0] < 0x80 ==> reply == Reply(Unsupported, 0x6E00, [], true, None))
            && (selected && request[0] >= 0x80 && request[1] !in {0x04, 0x11, 0x14} ==>
                  reply == Reply(Unsupported, 0x6D00, [], true, None))
  {
    TopBit(request[0]);
  }

  lemma TopBit(b: byte)
    ensures b & 0x80 != 0 <==> b >= 0x80
  {
  }

  /** The three commands of an open session. Le counts when it is the one byte after the command, is not
      zero and asks for less than there is. */
  lemma CommandTable(publicKey: PublicKey, present: bool, verdict: Option<Block16>, request: bytes)
    requires |request| >= 4 && request[0] >= 0x80
    ensures var reply := Respond(true, publicKey, present, verdict, request);
            var le := if |request| == 5 then request[4] as nat else 0;
            && (request[1] == 0x04 ==>
                  reply == Reply(GetPublicKey, 0x9000, publicKey[..if 0 < le < 65 then le else 65], true, None))
            && (request[1] == 0x14 ==>
                  reply == Reply(GetCardInfo, 0x9000, if le == 1 then [0x00] else [0x00, 0x01], true, None))
    ensures request[1] == 0x11 ==>
              var reply := Respond(true, publicKey, present, verdict, request);
              if |request| < 5 || request[4] < 81 || |request| < 5 + request[4] as nat
              then reply == Reply(Authenticate, 0x6700, [], true, None)
              else
                var lc := request[4] as nat;
                var le := if |request| == 5 + lc + 1 then request[5 + lc] as nat else 0;
                && reply.command == Authenticate && reply.selected
                && reply.asked == (if present then Some((request[5..70], request[70..86])) else None)
                && (present && verdict.Some? ==>
                      && reply.statusWord == 0x9000
                      && reply.data == verdict.value[..if 0 < le < 16 then le else 16])
                && (!present || verdict.None? ==> reply.statusWord == 0x6F00 && reply.data == [])
  {
    TopBit(request[0]);
    assert IsProprietary(request);
    SameClass(request);
    assert CARD_INFO[..1] == [0x00] && CARD_INFO[..2] == [0x00, 0x01];
  }

  /** Encodes a SELECT by DF name, with Le absent or a byte. */
  function EncodeSelect(p2: byte, lc: byte, aid: bytes, le: Option<byte>): bytes
  {
    [0, INS_SELECT, SELECT_BY_DF_NAME, p2, lc] + aid + match le case None => [] case Some(b) => [b]
  }

  /** A SELECT opens the session if and only if the name it carries starts with one of the two AIDs. */
  lemma SelectOpensIffKnownAid(selected: bool, p2: byte, lc: byte, aid: bytes, le: Option<byte>, publicKey: PublicKey,
                               present: bool, verdict: Option<Block16>)
    requires lc as nat == |aid|
    ensures var reply := Respond(selected, publicKey, present, verdict, EncodeSelect(p2, lc, aid, le));
            && reply.command == Select && reply.asked == None && reply.data == []
            && (reply.selected <==> TESLA_AID <= aid || PHONE_KEY_AID <= aid)
            && reply.statusWord == if reply.selected then SW_SUCCESS else SW_FILE_NOT_FOUND
  {
    hide EncodeSelect, AidMatches;
    SelectFields(p2, lc, aid, le);
    KnownAid(aid);
  }

  lemma SelectFields(p2: byte, lc: byte, aid: bytes, le: Option<byte>)
    requires lc as nat == |aid|
    ensures var request := EncodeSelect(p2, lc, aid, le);
            && IsSelectByName(request) && |request| >= 5
            && Lc(request) == |aid| <= |request| - 5 && request[5..5 + Lc(request)] == aid
  {
    var request := EncodeSelect(p2, lc, aid, le);
    var tail := match le case None => [] case Some(b) => [b];
    assert request == [0, INS_SELECT, SELECT_BY_DF_NAME, p2, lc] + (aid + tail);
    assert request[4] == lc && request[5..][..|aid|] == aid;
  }

  lemma KnownAid(aid: bytes)
    ensures AidMatches(aid) <==> TESLA_AID <= aid || PHONE_KEY_AID <= aid
  {
    assert TESLA_AID <= aid <==> |aid| >= 10 && aid[..10] == TESLA_AID;
    assert PHONE_KEY_AID <= aid <==> |aid| >= 10 && aid[..10] == PHONE_KEY_AID;
  }

  /** Encodes an AUTHENTICATE command: peer key, challenge and trailing bytes, with Le absent or a byte. */
  function EncodeAuthenticate(cla: byte, p1: byte, p2: byte, lc: byte, peer: PublicKey, challenge: Block16,
                              trailing: bytes, le: Option<byte>): bytes
  {
    [cla, INS_AUTHENTICATE, p1, p2, lc]
    + peer + challenge + trailing + match le case None => [] case Some(b) => [b]
  }

  /** For any peer key, challenge, trailing data and Le the authenticator is asked with exactly
      those slices, and its answer is cut to Le. */
  lemma AuthenticateRoundTrip(cla: byte, p1: byte, p2: byte, lc: byte, peer: PublicKey, challenge: Block16,
                              trailing: bytes, le: Option<byte>, publicKey: PublicKey, verdict: Option<Block16>)
    requires cla & 0x80 != 0 && lc as nat == AUTHENTICATE_DATA_LEN + |trailing|
    ensures var reply := Respond(true, publicKey, true, verdict,
                                 EncodeAuthenticate(cla, p1, p2, lc, peer, challenge, trailing, le));
            && reply.asked == Some((peer, challenge)) && reply.selected && reply.command == Authenticate
            && (verdict.None? ==> reply.statusWord == SW_UNKNOWN && reply.data == [])
            && (verdict.Some? ==>
                  && reply.statusWord == SW_SUCCESS
                  && reply.data == verdict.value[..SizeFor(le, AUTH_RESPONSE_SIZE)])
  {
    var request := EncodeAuthenticate(cla, p1, p2, lc, peer, challenge, trailing, le);
    EncodedFields(cla, p1, p2, lc, peer, challenge, trailing, le);
    SameClass(request);
    hide EncodeAuthenticate, IsAuthenticate, IsSelectByName, IsProprietary, ApplyLe, SizeFor, PeerKey, ChallengeOf;
  }

  /** Le absent or 0 asks for everything, and so does a size the answer does not exceed. */
  function SizeFor(le: Option<byte>, size: nat): nat {
    if le.Some? && le.value != 0 && le.value as nat < size then le.value as nat else size
  }

  lemma Fields(header: bytes, peer: bytes, challenge: bytes, trailing: bytes, tail: bytes)
    requires |header| == 5 && |peer| == 65 && |challenge| == 16
    ensures var request := header + peer + challenge + trailing + tail;
            && request[..5] == header && request[5..70] == peer && request[70..86] == challenge
            && (tail != [] ==> request[86 + |trailing|] == tail[0])
  {
    var request := header + peer + challenge + trailing + tail;
    assert header + peer + challenge + trailing + tail == header + (peer + (challenge + (trailing + tail)));
    assert request[5..] == peer + (challenge + (trailing + tail));
    assert request[5..][65..] == challenge + (trailing + tail);
    assert request[70..] == request[5..][65..];
    assert request[5..70] == request[5..][..65] && request[70..86] == request[70..][..16];
  }

  lemma EncodedFields(cla: byte, p1: byte, p2: byte, lc: byte, peer: PublicKey, challenge: Block16, trailing: bytes,
                      le: Option<byte>)
    requires cla & 0x80 != 0 && lc as nat == AUTHENTICATE_DATA_LEN + |trailing|
    ensures var request := EncodeAuthenticate(cla, p1, p2, lc, peer, challenge, trailing, le);
            && |request| >= 5 && request[1] == INS_AUTHENTICATE
            && IsProprietary(request) && IsAuthenticate(request)
            && PeerKey(request) == peer && ChallengeOf(request) == challenge
            && ApplyLe(request, 5 + Lc(request), AUTH_RESPONSE_SIZE) == SizeFor(le, AUTH_RESPONSE_SIZE)
  {
    var request := EncodeAuthenticate(cla, p1, p2, lc, peer, challenge, trailing, le);
    var length := lc as nat;
    var tail := match le case None => [] case Some(b) => [b];
    assert request == [cla, INS_AUTHENTICATE, p1, p2, lc] + peer + challenge + trailing + tail;
    Fields([cla, INS_AUTHENTICATE, p1, p2, lc], peer, challenge, trailing, tail);
    assert |request| == 5 + length + |tail|;
    hide EncodeAuthenticate;
    assert request[..5][0] == cla && request[..5][1] == INS_AUTHENTICATE && request[..5][4] == lc;
    if le.Some? {
      assert request[5 + length] == le.value;
    }
  }

  /** The outcome of a well-formed AUTHENTICATE depends on nothing but peer key, challenge and the size asked for. */
  lemma AuthenticateDependsOn(first: bytes, second: bytes, publicKey: PublicKey, present: bool,
                              verdict: Option<Block16>)
    requires IsAuthenticate(first) && IsAuthenticate(second)
    requires first[5..86] == second[5..86]
    requires ApplyLe(first, 5 + Lc(first), AUTH_RESPONSE_SIZE) == ApplyLe(second, 5 + Lc(second), AUTH_RESPONSE_SIZE)
    ensures Respond(true, publicKey, present, verdict, first) == Respond(true, publicKey, present, verdict, second)
  {
    SameClass(first);
    SameClass(second);
    assert PeerKey(first) == first[5..86][..65] && ChallengeOf(first) == first[5..86][65..];
    assert PeerKey(second) == second[5..86][..65] && ChallengeOf(second) == second[5..86][65..];
  }

  lemma SameClass(request: bytes)
    requires IsProprietary(request)
    ensures !IsSelectByName(request)
  {
    assert request[0] & 0x80 != 0 ==> request[0] != 0;
  }

  /** Encodes a GET PUBLIC KEY, with Le absent or a byte. */
  function EncodeGetPublicKey(cla: byte, p1: byte, p2: byte, le: Option<byte>): bytes
  {
    [cla, INS_GET_PUBLIC_KEY, p1, p2] + match le case None => [] case Some(b) => [b]
  }

  /** In an open session it is answered with the published key, cut to Le. */
  lemma PublicKeyRoundTrip(cla: byte, p1: byte, p2: byte, le: Option<byte>, publicKey: PublicKey, present: bool,
                           verdict: Option<Block16>)
    requires cla & 0x80 != 0
    ensures Respond(true, publicKey, present, verdict, EncodeGetPublicKey(cla, p1, p2, le))
            == Reply(GetPublicKey, SW_SUCCESS, publicKey[..SizeFor(le, PUBLIC_KEY_SIZE)], true, None)
  {
    var request := EncodeGetPublicKey(cla, p1, p2, le);
    assert IsProprietary(request);
    SameClass(request);
  }

  /** End to end over the applet: the vehicle that sends its own point in an AUTHENTICATE, whatever
      data follows the challenge and for every Le that leaves the answer whole, is answered with
      success, and the data opens under the key derived from the point it computes itself. */
  lemma VehicleReadsResponse(c: Curve, suite: AuthSuite, card: nat, vehicle: nat, salt: Salt,
                             cla: byte, p1: byte, p2: byte, lc: byte, challenge: Block16, trailing: bytes,
                             le: Option<byte>)
    requires cla & 0x80 != 0 && lc as nat == AUTHENTICATE_DATA_LEN + |trailing|
    requires le.None? || le.value == 0 || le.value as nat >= 16
    requires c.ValidScalar(card) && c.ValidScalar(vehicle)
    ensures var peer := PublicKeyOf(c, vehicle);
            var request := EncodeAuthenticate(cla, p1, p2, lc, peer, challenge, trailing, le);
            var verdict := ChallengeResponse(c, suite, card, peer, challenge, salt);
            var reply := Respond(true, PublicKeyOf(c, card), true, verdict, request);
            var q := Mul(c, vehicle, Mul(c, card, c.base));
            && reply.command == Authenticate && reply.statusWord == SW_SUCCESS && reply.selected
            && |reply.data| == 16 && q.Affine?
            && suite.decrypt(suite.sha1(q.x)[..16], reply.data) == salt + challenge[4..]
  {
    hide EncodeAuthenticate, Respond, BigEndian, ChallengeResponse, PublicKeyOf;
    var peer := PublicKeyOf(c, vehicle);
    var verdict := ChallengeResponse(c, suite, card, peer, challenge, salt);
    KeyAgreement(c, suite, card, vehicle, salt, challenge);
    AuthenticateRoundTrip(cla, p1, p2, lc, peer, challenge, trailing, le, PublicKeyOf(c, card), verdict);
    assert verdict.value[..16] == verdict.value;
  }
}
