/** tesla_apdu.c: the applet behind ISO/IEC 7816-4:2005 command-response pairs. */
module Apdu {
  import opened Bytes
  import opened Crypto

  const INS_SELECT: byte := 0xA4
  const SELECT_BY_DF_NAME: byte := 0x04
  const INS_GET_PUBLIC_KEY: byte := 0x04
  const INS_AUTHENTICATE: byte := 0x11
  const INS_GET_CARD_INFO: byte := 0x14

  type StatusWord = bv16

  const SW_SUCCESS: StatusWord := 0x9000
  const SW_WRONG_LENGTH: StatusWord := 0x6700
  const SW_COMMAND_NOT_ALLOWED: StatusWord := 0x6999
  const SW_FILE_NOT_FOUND: StatusWord := 0x6A82
  const SW_INS_NOT_SUPPORTED: StatusWord := 0x6D00
  const SW_CLA_NOT_SUPPORTED: StatusWord := 0x6E00
  const SW_UNKNOWN: StatusWord := 0x6F00

  const PUBLIC_KEY_SIZE := 65
  const AUTHENTICATE_DATA_LEN := 81
  const AUTH_RESPONSE_SIZE := 16
  const RESPONSE_MAX := 67

  const TESLA_AID: bytes := [0x74, 0x65, 0x73, 0x6C, 0x61, 0x4C, 0x6F, 0x67, 0x69, 0x63]
  const PHONE_KEY_AID: bytes := [0xF4, 0x65, 0x73, 0x6C, 0x61, 0x4C, 0x6F, 0x67, 0x69, 0x63]
  const CARD_INFO: bytes := [0x00, 0x01]

  datatype Command = NoCommand | Select | GetPublicKey | Authenticate | GetCardInfo | Unsupported

  datatype Result = Result(command: Command, statusWord: StatusWord, responseSize: nat)

  predicate AidMatches(aid: bytes) {
    |aid| >= 10 && (aid[..10] == TESLA_AID || aid[..10] == PHONE_KEY_AID)
  }

  /** SELECT by DF name (section 7.1.1), whatever it names. */
  predicate IsSelectByName(request: bytes) {
    |request| >= 4 && request[0] == 0 && request[1] == INS_SELECT && request[2] == SELECT_BY_DF_NAME
  }

  /** Length of the command data field. */
  function Lc(request: bytes): nat
    requires |request| >= 5
  {
    request[4] as nat
  }

  predicate SelectsApplet(request: bytes) {
    IsSelectByName(request) && |request| >= 5 && Lc(request) <= |request| - 5 && AidMatches(request[5..5 + Lc(request)])
  }

  predicate IsProprietary(request: bytes) {
    |request| >= 4 && request[0] & 0x80 != 0
  }

  /** An AUTHENTICATE that carries at least a peer key and a challenge. */
  predicate IsAuthenticate(request: bytes) {
    && IsProprietary(request) && request[1] == INS_AUTHENTICATE
    && |request| >= 5 && Lc(request) >= AUTHENTICATE_DATA_LEN && |request| >= 5 + Lc(request)
  }

  function PeerKey(request: bytes): PublicKey
    requires IsAuthenticate(request)
  {
    request[5..70]
  }

  function ChallengeOf(request: bytes): Block16
    requires IsAuthenticate(request)
  {
    request[70..86]
  }

  /** Data size after Le, for a command whose data field ends at dataEnd: a last byte of 0 or a
      value not below the full size asks for everything. */
  function ApplyLe(request: bytes, dataEnd: nat, size: nat): nat {
    if |request| == dataEnd + 1 && request[dataEnd] != 0 && request[dataEnd] as nat < size
    then request[dataEnd] as nat else size
  }

  /** What the applet decides about a request, before the caller's buffer is considered. */
  datatype Reply = Reply(
    command: Command, statusWord: StatusWord, data: bytes, selected: bool, asked: Option<(PublicKey, Block16)>)

  /** verdict is what the authenticator answers if it is asked, None for a refusal. */
  function Respond(selected: bool, publicKey: PublicKey, present: bool, verdict: Option<Block16>, request: bytes): Reply
  {
    if |request| < 4 then Reply(NoCommand, SW_WRONG_LENGTH, [], selected, None)
    else if IsSelectByName(request) then
      var matches := SelectsApplet(request);
      Reply(Select, if matches then SW_SUCCESS else SW_FILE_NOT_FOUND, [], matches, None)
    else if !selected then Reply(Unsupported, SW_COMMAND_NOT_ALLOWED, [], selected, None)
    else if !IsProprietary(request) then Reply(Unsupported, SW_CLA_NOT_SUPPORTED, [], selected, None)
    else RespondSelected(publicKey, present, verdict, request)
  }

  /** The proprietary commands of the selected applet. */
  function RespondSelected(publicKey: PublicKey, present: bool, verdict: Option<Block16>, request: bytes): (r: Reply)
    requires IsProprietary(request)
    ensures r.selected
  {
    if request[1] == INS_GET_PUBLIC_KEY then
      Reply(GetPublicKey, SW_SUCCESS, publicKey[..ApplyLe(request, 4, PUBLIC_KEY_SIZE)], true, None)
    else if request[1] == INS_AUTHENTICATE then
      if !IsAuthenticate(request) then Reply(Authenticate, SW_WRONG_LENGTH, [], true, None)
      else
        var asked := if present then Some((PeerKey(request), ChallengeOf(request))) else None;
        if present && verdict.Some? then
          var size := ApplyLe(request, 5 + Lc(request), AUTH_RESPONSE_SIZE);
          Reply(Authenticate, SW_SUCCESS, verdict.value[..size], true, asked)
        else Reply(Authenticate, SW_UNKNOWN, [], true, asked)
    else if request[1] == INS_GET_CARD_INFO then
      Reply(GetCardInfo, SW_SUCCESS, CARD_INFO[..ApplyLe(request, 4, 2)], true, None)
    else Reply(Unsupported, SW_INS_NOT_SUPPORTED, [], true, None)
  }

  function StatusBytes(statusWord: StatusWord): (b: bytes)
    ensures |b| == 2
  {
    [(statusWord >> 8) as byte, (statusWord & 0xFF) as byte]
  }

  /** How a reply reaches a buffer of this capacity: whole, as a length error, or not at all. */
  function Deliver(command: Command, statusWord: StatusWord, data: bytes, capacity: nat): (Result, bytes)
  {
    if capacity >= |data| + 2 then (Result(command, statusWord, |data| + 2), data + StatusBytes(statusWord))
    else if capacity >= 2 then (Result(command, SW_WRONG_LENGTH, 2), StatusBytes(SW_WRONG_LENGTH))
    else (Result(command, statusWord, 0), [])
  }

  method WriteResponse(command: Command, statusWord: StatusWord, data: bytes, response: array<byte>, capacity: nat)
    returns (result: Result)
    requires capacity <= response.Length
    modifies response
    ensures var (r, written) := Deliver(command, statusWord, data, capacity);
            result == r && response[..] == written + old(response[..])[|written|..]
  {
    var word, size := statusWord, |data|;
    result := Result(command, statusWord, 0);
    if capacity < size + 2 {
      word, size := SW_WRONG_LENGTH, 0;
      if capacity < 2 {
        return;
      }
      result := result.(statusWord := word);
    }
    forall i | 0 <= i < size {
      response[i] := data[i];
    }
    response[size] := (word >> 8) as byte;
    response[size + 1] := (word & 0xFF) as byte;
    result := result.(responseSize := size + 2);
  }

  /** struct TeslaApdu. The authenticator stands for the callback; calls is the observer's record of it. */
  class Applet {
    var selected: bool
    const publicKey: PublicKey
    const authenticator: TeslaCrypto?
    ghost var calls: seq<(PublicKey, Block16)>

    /** tesla_apdu_init. */
    constructor (publicKey: PublicKey, authenticator: TeslaCrypto?)
      ensures !selected && calls == []
      ensures this.publicKey == publicKey && this.authenticator == authenticator
    {
      this.selected, this.publicKey, this.authenticator := false, publicKey, authenticator;
      calls := [];
    }

    method ResetSession()
      modifies `selected
      ensures !selected
    {
      selected := false;
    }

    /** tesla_apdu_process; the ghost results are what the authenticator answered and its salt. */
    method Process(request: bytes, response: array<byte>, capacity: nat)
      returns (result: Result, ghost verdict: Option<Block16>, ghost salt: Salt)
      requires capacity <= response.Length
      requires authenticator != null ==> authenticator.Valid()
      modifies `selected, `calls, response, (if authenticator == null then {} else {authenticator})`faults
      ensures var reply := Respond(old(selected), publicKey, authenticator != null, verdict, request);
              var (r, written) := Deliver(reply.command, reply.statusWord, reply.data, capacity);
              && result == r
              && response[..] == written + old(response[..])[|written|..]
              && selected == reply.selected
              && calls == old(calls) + (if reply.asked.Some? then [reply.asked.value] else [])
      ensures authenticator != null ==> authenticator.Valid() && authenticator.faults >= old(authenticator.faults)
      ensures verdict.Some? ==>
                && authenticator != null && IsAuthenticate(request)
                && authenticator.Expected(PeerKey(request), ChallengeOf(request), salt) == verdict
      // Without faults a well-formed AUTHENTICATE in an open session is answered exactly when it can be.
      ensures old(selected) && IsAuthenticate(request)
              && authenticator != null && authenticator.faults == old(authenticator.faults) ==>
                authenticator.Expected(PeerKey(request), ChallengeOf(request), salt) == verdict
    {
      hide Deliver, AidMatches, RespondSelected;
      assert IsProprietary(request) ==> request[0] != 0;
      verdict, salt := None, Zeros(4);
      if |request| < 4 {
        result := WriteResponse(NoCommand, SW_WRONG_LENGTH, [], response, capacity);
        return;
      }
      if request[0] == 0 && request[1] == INS_SELECT && request[2] == SELECT_BY_DF_NAME {
        var matches := false;
        if |request| >= 5 {
          var aidSize := request[4] as nat;
          if aidSize <= |request| - 5 {
            matches := AidMatches(request[5..5 + aidSize]);
          }
        }
        selected := matches;
        result := WriteResponse(Select, if matches then SW_SUCCESS else SW_FILE_NOT_FOUND, [], response, capacity);
        return;
      }
      if !selected {
        result := WriteResponse(Unsupported, SW_COMMAND_NOT_ALLOWED, [], response, capacity);
        return;
      }
      if request[0] & 0x80 == 0 {
        result := WriteResponse(Unsupported, SW_CLA_NOT_SUPPORTED, [], response, capacity);
        return;
      }
      result, verdict, salt := ProcessSelected(request, response, capacity);
    }

    /** The switch over the instruction byte. */
    method ProcessSelected(request: bytes, response: array<byte>, capacity: nat)
      returns (result: Result, ghost verdict: Option<Block16>, ghost salt: Salt)
      requires capacity <= response.Length && IsProprietary(request)
      requires authenticator != null ==> authenticator.Valid()
      modifies `calls, response, (if authenticator == null then {} else {authenticator})`faults
      ensures var reply := RespondSelected(publicKey, authenticator != null, verdict, request);
              var (r, written) := Deliver(reply.command, reply.statusWord, reply.data, capacity);
              && result == r
              && response[..] == written + old(response[..])[|written|..]
              && calls == old(calls) + (if reply.asked.Some? then [reply.asked.value] else [])
      ensures authenticator != null ==> authenticator.Valid() && authenticator.faults >= old(authenticator.faults)
      ensures verdict.Some? ==>
                && authenticator != null && IsAuthenticate(request)
                && authenticator.Expected(PeerKey(request), ChallengeOf(request), salt) == verdict
      ensures IsAuthenticate(request) && authenticator != null && authenticator.faults == old(authenticator.faults) ==>
                authenticator.Expected(PeerKey(request), ChallengeOf(request), salt) == verdict
    {
      hide Deliver;
      verdict, salt := None, Zeros(4);
      if request[1] == INS_GET_PUBLIC_KEY {
        var size := ApplyLe(request, 4, PUBLIC_KEY_SIZE);
        result := WriteResponse(GetPublicKey, SW_SUCCESS, publicKey[..size], response, capacity);
      } else if request[1] == INS_AUTHENTICATE {
        if |request| < 5 || (request[4] as nat) < AUTHENTICATE_DATA_LEN || |request| < 5 + request[4] as nat {
          result := WriteResponse(Authenticate, SW_WRONG_LENGTH, [], response, capacity);
          return;
        }
        result, verdict, salt := AnswerAuthenticate(request, response, capacity);
      } else if request[1] == INS_GET_CARD_INFO {
        var size := ApplyLe(request, 4, |CARD_INFO|);
        result := WriteResponse(GetCardInfo, SW_SUCCESS, CARD_INFO[..size], response, capacity);
      } else {
        result := WriteResponse(Unsupported, SW_INS_NOT_SUPPORTED, [], response, capacity);
      }
    }

    /** The AUTHENTICATE case once its length is accepted. */
    method AnswerAuthenticate(request: bytes, response: array<byte>, capacity: nat)
      returns (result: Result, ghost verdict: Option<Block16>, ghost salt: Salt)
      requires capacity <= response.Length && IsAuthenticate(request)
      requires authenticator != null ==> authenticator.Valid()
      modifies `calls, response, (if authenticator == null then {} else {authenticator})`faults
      ensures var size := ApplyLe(request, 5 + Lc(request), AUTH_RESPONSE_SIZE);
              var (r, written) :=
                Deliver(Authenticate, if verdict.Some? then SW_SUCCESS else SW_UNKNOWN,
                        if verdict.Some? then verdict.value[..size] else [], capacity);
              result == r && response[..] == written + old(response[..])[|written|..]
      ensures calls == old(calls) + if authenticator == null then [] else [(PeerKey(request), ChallengeOf(request))]
      ensures authenticator != null ==> authenticator.faults >= old(authenticator.faults)
      ensures verdict.Some? ==>
                && authenticator != null
                && authenticator.Expected(PeerKey(request), ChallengeOf(request), salt) == verdict
      ensures authenticator != null && authenticator.faults == old(authenticator.faults) ==>
                authenticator.Expected(PeerKey(request), ChallengeOf(request), salt) == verdict
    {
      hide Deliver;
      verdict, salt := None, Zeros(4);
      var authResponse := new byte[16];
      var authenticated := false;
      if authenticator != null {
        calls := calls + [(PeerKey(request), ChallengeOf(request))];
        authenticated, salt := authenticator.Authenticate(PeerKey(request), ChallengeOf(request), authResponse);
      }
      var size := ApplyLe(request, 5 + Lc(request), AUTH_RESPONSE_SIZE);
      if authenticated {
        verdict := Some(authResponse[..]);
        assert authResponse[..size] == authResponse[..][..size];
        result := WriteResponse(Authenticate, SW_SUCCESS, authResponse[..size], response, capacity);
      } else {
        result := WriteResponse(Authenticate, SW_UNKNOWN, [], response, capacity);
      }
    }
  }
}
