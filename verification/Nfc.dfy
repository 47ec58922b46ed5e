/** tesla_nfc.c: the listener that carries requests to the applet and reports what happened. */
module Nfc {
  import opened Bytes
  import opened IdentityRecord
  import opened Crypto
  import opened Apdu
  import opened ApduSessions

  datatype NfcEvent =
    | FieldLost | Halted | AppletSelected | PublicKeyRead | Authenticated | CardInfoRead | ProtocolError | TransmitError

  /** What the radio worker hands to the listener callback; sent tells how sending the reply went. */
  datatype Signal = ReceivedData(request: bytes, sent: bool) | FieldOff | Halt

  /** The report for a request answered with this command and status. */
  function Report(command: Command, statusWord: StatusWord, sent: bool): NfcEvent {
    if !sent then TransmitError
    else if statusWord != SW_SUCCESS then ProtocolError
    else match command
      case Select => AppletSelected
      case GetPublicKey => PublicKeyRead
      case Authenticate => Authenticated
      case GetCardInfo => CardInfoRead
      case NoCommand => ProtocolError
      case Unsupported => ProtocolError
  }

  /** The report for any signal, given what the authenticator answered. */
  function ReportFor(selected: bool, publicKey: PublicKey, verdict: Option<Block16>, signal: Signal): NfcEvent {
    match signal
    case ReceivedData(request, sent) =>
      var reply := Respond(selected, publicKey, true, verdict, request);
      Report(reply.command, reply.statusWord, sent)
    case FieldOff => FieldLost
    case Halt => Halted
  }

  /** Success is never reported for anything but the four commands, so every request is reported as what it was. */
  lemma SuccessNamesItsCommand(selected: bool, publicKey: PublicKey, present: bool, verdict: Option<Block16>,
                               request: bytes)
    ensures var reply := Respond(selected, publicKey, present, verdict, request);
            && (reply.statusWord == SW_SUCCESS ==> reply.command in {Select, GetPublicKey, Authenticate, GetCardInfo})
            && (Report(reply.command, reply.statusWord, true) == AppletSelected <==> SelectsApplet(request))
            && (Report(reply.command, reply.statusWord, true) == Authenticated <==>
                  selected && IsAuthenticate(request) && present && verdict.Some?)
  {
    if IsAuthenticate(request) {
      SameClass(request);
    }
  }

  /** What a report means, from the signal and the bytes of the answer alone: a failed sending, the field
      gone, a halt, or for an answer sent whether it ends with 90 00 and to which command. */
  predicate Truthful(signal: Signal, answer: bytes, event: NfcEvent) {
    && (event == TransmitError <==> signal.ReceivedData? && !signal.sent)
    && (event == FieldLost <==> signal == FieldOff)
    && (event == Halted <==> signal == Halt)
    && (signal.ReceivedData? && signal.sent ==>
          var request := signal.request;
          var success := |request| >= 4 && |answer| >= 2 && answer[|answer| - 2..] == [0x90, 0x00];
          && (event == ProtocolError <==> !success)
          && (event == AppletSelected <==> success && SelectHeader(request))
          && (event == PublicKeyRead <==> success && !SelectHeader(request) && request[1] == 0x04)
          && (event == Authenticated <==> success && !SelectHeader(request) && request[1] == 0x11)
          && (event == CardInfoRead <==> success && !SelectHeader(request) && request[1] == 0x14))
  }

  lemma SuccessBytes(statusWord: StatusWord)
    ensures StatusBytes(statusWord) == [0x90, 0x00] <==> statusWord == 0x9000
  {
    StatusBytesDecode(statusWord);
    StatusBytesDecode(0x9000);
  }

  /** Every report is truthful about the answer it goes with. */
  lemma ReportIsTruthful(selected: bool, publicKey: PublicKey, verdict: Option<Block16>, request: bytes, sent: bool)
    ensures var reply := Respond(selected, publicKey, true, verdict, request);
            Truthful(ReceivedData(request, sent), reply.data + StatusBytes(reply.statusWord),
                     Report(reply.command, reply.statusWord, sent))
  {
    var reply := Respond(selected, publicKey, true, verdict, request);
    SuccessBytes(reply.statusWord);
    SelectionTable(selected, publicKey, true, verdict, request);
    if |request| >= 4 && !SelectHeader(request) {
      RefusalTable(selected, publicKey, true, verdict, request);
      if selected && request[0] >= 0x80 {
        CommandTable(publicKey, true, verdict, request);
      }
    }
    hide Respond, StatusBytes;
    var answer := reply.data + StatusBytes(reply.statusWord);
    assert answer[|answer| - 2..] == StatusBytes(reply.statusWord);
  }

  /** struct TeslaNfc. */
  class TeslaNfc {
    const crypto: TeslaCrypto
    const uid: Uid
    const applet: Applet
    var listening: bool
    var txBuffer: bytes
    var cryptoTimeMs: nat // the callback leaves any measured duration here

    /** tesla_nfc_alloc; the public key is there only once the key is ready. */
    constructor (crypto: TeslaCrypto, uid: Uid)
      requires crypto.Valid() && crypto.keyReady
      ensures this.crypto == crypto && this.uid == uid && !listening
      ensures fresh(applet) && applet.authenticator == crypto && applet.publicKey == crypto.publicKey
      ensures !applet.selected
    {
      this.crypto, this.uid, listening, txBuffer, cryptoTimeMs := crypto, uid, false, [], 0;
      applet := new Applet(crypto.publicKey, crypto);
    }

    /** tesla_nfc_start; radio tells whether a listener can be allocated. */
    method Start(radio: bool) returns (ok: bool)
      modifies `listening, applet`selected
      ensures ok == listening && (ok <==> old(listening) || radio)
      ensures applet.selected == if old(listening) then old(applet.selected) else false
    {
      if listening {
        return true;
      }
      applet.ResetSession();
      listening := radio;
      ok := listening;
    }

    method Stop()
      modifies `listening, applet`selected
      ensures !listening && !applet.selected
    {
      listening := false;
      applet.ResetSession();
    }

    /** tesla_nfc_free. */
    method Free()
      modifies `listening, `txBuffer, applet`selected
      ensures !listening && !applet.selected
    {
      Stop();
      txBuffer := [];
    }

    /** The received-data case: answers into the transmit buffer and says what to report. */
    method AnswerRequest(request: bytes, sent: bool)
      returns (event: NfcEvent, ghost verdict: Option<Block16>, ghost salt: Salt)
      requires crypto.Valid() && applet.authenticator == crypto
      modifies `txBuffer, `cryptoTimeMs, applet`selected, applet`calls, crypto`faults
      ensures crypto.Valid() && crypto.faults >= old(crypto.faults)
      ensures var reply := Respond(old(applet.selected), applet.publicKey, true, verdict, request);
              && txBuffer == reply.data + StatusBytes(reply.statusWord)
              && applet.selected == reply.selected
              && applet.calls == old(applet.calls) + (if reply.asked.Some? then [reply.asked.value] else [])
              && event == Report(reply.command, reply.statusWord, sent)
      ensures Truthful(ReceivedData(request, sent), txBuffer, event)
      ensures verdict.Some? ==>
                && IsAuthenticate(request)
                && crypto.Expected(PeerKey(request), ChallengeOf(request), salt) == verdict
      ensures old(applet.selected) && IsAuthenticate(request) && crypto.faults == old(crypto.faults) ==>
                crypto.Expected(PeerKey(request), ChallengeOf(request), salt) == verdict
    {
      hide Respond, Deliver, StatusBytes, Truthful;
      var response := new byte[RESPONSE_MAX];
      ghost var wasSelected := applet.selected;
      var result;
      result, verdict, salt := applet.Process(request, response, RESPONSE_MAX);
      ghost var reply := Respond(wasSelected, applet.publicKey, true, verdict, request);
      ListenerBufferSuffices(wasSelected, applet.publicKey, true, verdict, request);
      SuccessNamesItsCommand(wasSelected, applet.publicKey, true, verdict, request);
      ReportIsTruthful(wasSelected, applet.publicKey, verdict, request, sent);
      assert response[..][..result.responseSize] == reply.data + StatusBytes(reply.statusWord);
      cryptoTimeMs := *;
      txBuffer := response[..result.responseSize];
      assert txBuffer == reply.data + StatusBytes(reply.statusWord);
      if !sent {
        event := TransmitError;
      } else if result.command == Select && result.statusWord == SW_SUCCESS {
        event := AppletSelected;
      } else if result.command == GetPublicKey && result.statusWord == SW_SUCCESS {
        event := PublicKeyRead;
      } else if result.command == Authenticate && result.statusWord == SW_SUCCESS {
        event := Authenticated;
      } else if result.command == GetCardInfo && result.statusWord == SW_SUCCESS {
        event := CardInfoRead;
      } else {
        event := ProtocolError;
      }
    }

    /** tesla_nfc_listener_callback: one reply in the buffer for a request, and exactly one report. */
    method HandleSignal(signal: Signal)
      returns (event: NfcEvent, timeMs: nat, ghost verdict: Option<Block16>, ghost salt: Salt)
      requires listening && crypto.Valid() && applet.authenticator == crypto
      modifies `txBuffer, `cryptoTimeMs, applet`selected, applet`calls, crypto`faults
      ensures crypto.Valid() && crypto.faults >= old(crypto.faults) && timeMs < 0x1_0000
      ensures event == ReportFor(old(applet.selected), applet.publicKey, verdict, signal)
      ensures Truthful(signal, txBuffer, event)
      ensures signal in {FieldOff, Halt} ==> !applet.selected && applet.calls == old(applet.calls)
      ensures signal.ReceivedData? ==>
                var reply := Respond(old(applet.selected), applet.publicKey, true, verdict, signal.request);
                && txBuffer == reply.data + StatusBytes(reply.statusWord)
                && applet.selected == reply.selected
                && applet.calls == old(applet.calls) + (if reply.asked.Some? then [reply.asked.value] else [])
      ensures verdict.Some? ==>
                && signal.ReceivedData? && IsAuthenticate(signal.request)
                && crypto.Expected(PeerKey(signal.request), ChallengeOf(signal.request), salt) == verdict
      // Without faults a well-formed AUTHENTICATE in an open session is answered exactly when it can be.
      ensures old(applet.selected) && signal.ReceivedData? && IsAuthenticate(signal.request)
              && crypto.faults == old(crypto.faults) ==>
                crypto.Expected(PeerKey(signal.request), ChallengeOf(signal.request), salt) == verdict
    {
      verdict, salt := None, Zeros(4);
      match signal {
        case ReceivedData(request, sent) =>
          event, verdict, salt := AnswerRequest(request, sent);
        case FieldOff =>
          applet.ResetSession();
          event := FieldLost;
        case Halt =>
          applet.ResetSession();
          event := Halted;
      }
      timeMs := cryptoTimeMs % 0x1_0000;
    }
  }

  /** How the applet's history records a signal. */
  predicate Records(e: Event, signal: Signal) {
    match signal
    case ReceivedData(request, _) => e.Received? && e.request == request
    case FieldOff => e == Reset
    case Halt => e == Reset
  }

  /** A running listener over any signals: its session is open exactly when history says so, and the
      key was used exactly for the well-formed AUTHENTICATE requests that met an open session. */
  method Listen(nfc: TeslaNfc, signals: seq<Signal>) returns (ghost events: seq<Event>)
    requires nfc.listening && nfc.crypto.Valid() && nfc.applet.authenticator == nfc.crypto && !nfc.applet.selected
    modifies nfc`txBuffer, nfc`cryptoTimeMs, nfc.applet`selected, nfc.applet`calls, nfc.crypto`faults
    ensures |events| == |signals| && forall i :: 0 <= i < |signals| ==> Records(events[i], signals[i])
    ensures nfc.applet.selected <==> OpenByHistory(events)
    ensures nfc.applet.calls == old(nfc.applet.calls) + AuthenticateRequests(events)
  {
    hide Respond;
    events := [];
    for n := 0 to |signals|
      invariant nfc.crypto.Valid()
      invariant |events| == n && forall i :: 0 <= i < n ==> Records(events[i], signals[i])
      invariant nfc.applet.selected == SelectedAfter(events)
      invariant nfc.applet.calls == old(nfc.applet.calls) + Asked(events)
    {
      var event, timeMs;
      ghost var verdict, salt;
      event, timeMs, verdict, salt := nfc.HandleSignal(signals[n]);
      ghost var e := if signals[n].ReceivedData? then Received(signals[n].request, verdict) else Reset;
      OneMoreEvent(events, e, nfc.applet.publicKey);
      events := events + [e];
    }
    SelectedIffOpenByHistory(events);
    AskedExactlyForAuthenticates(events);
  }
}
