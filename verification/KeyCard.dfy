/** tesla_key_card.c: the app that owns the identity, the key, the listener and the event queue. */
module KeyCard {
  import opened Bytes
  import opened IdentityRecord
  import opened Deeds
  import opened Hardware
  import opened IdentityStore
  import opened IdentityRuns
  import opened Crypto
  import opened Apdu
  import opened Nfc
  import opened EventLedger

  const EVENTS_PER_TICK := 8
  const UINT32 := 0x1_0000_0000

  datatype UiState = Initializing | Ready | Present | AuthenticatedShown | Error | Resetting

  /** TeslaKeyCardViewModel. */
  datatype ViewModel = ViewModel(state: UiState, sessions: nat, authentications: nat, lastCryptoTimeMs: nat, uid: Uid)
  {
    /** tesla_key_card_handle_nfc_event. */
    function Handle(p: Pending): ViewModel {
      match p.event
      case AppletSelected => this.(sessions := (sessions + 1) % UINT32, state := Present)
      case Authenticated =>
        this.(authentications := (authentications + 1) % UINT32,
              lastCryptoTimeMs := p.timeMs,
              state := AuthenticatedShown)
      case FieldLost => this.(state := Ready)
      case Halted => this.(state := Ready)
      case TransmitError => this.(state := Error)
      case ProtocolError => this.(state := Error)
      case PublicKeyRead => this
      case CardInfoRead => this
    }
  }

  datatype Screen = MainScreen | ResetScreen

  /** Whether allocations succeed: of the key object, and of the listener. */
  datatype Resources = Resources(memory: bool, radio: bool)

  datatype CustomEvent = ResetRequest | ResetCancel | ResetConfirm

  function PrepareAction(ok: bool, id: Identity): Action {
    if ok then Prepared(id) else PrepareFailed
  }

  /** tesla_key_card_prepare_identity, as the observer notes it in the device's trace: what it served
      or that it failed, and every state in which it may be cut short. */
  method PrepareIdentity(dev: Device, identity: IdentityBuffer, crypto: TeslaCrypto) returns (ok: bool)
    requires dev.Idle() && crypto.Valid() && crypto.groupReady && !crypto.keyReady
    requires Recorded(dev, crypto.curve)
    modifies dev, identity, crypto
    ensures dev.Idle() && crypto.Valid() && crypto.groupReady && crypto.live == old(crypto.live)
    ensures old(dev.history) <= dev.history && old(dev.log) <= dev.log
    ensures dev.faults >= old(dev.faults) && crypto.faults >= old(crypto.faults)
    ensures ok ==> crypto.keyReady && crypto.privateKey == BigEndian(identity.privateKey)
    ensures ok && old(dev.disk) == EMPTY ==> Generated(crypto.curve, identity.Value())
    ensures Next(dev.suite, crypto.curve, old(dev.disk), PrepareAction(ok, identity.Value()), dev.disk)
    ensures Recorded(dev, crypto.curve)
    ensures dev.trace == old(dev.trace)
                         + [Deed(PrepareAction(ok, identity.Value()), |old(dev.history)|, |dev.history| - 1)]
    ensures dev.faults == old(dev.faults) && crypto.faults == old(crypto.faults) ==>
              (ok <==> Startable(dev.suite, crypto.curve, old(dev.disk)))
  {
    hide Told, Next, Startable, Generated;
    ghost var before, history, trace := dev.disk, dev.history, dev.trace;
    ghost var from := dev.Begin();
    ok := LoadOrGenerate(dev, identity, crypto);
    ghost var action := PrepareAction(ok, identity.Value());
    dev.Finish(action, from);
    ToldExtends(dev.suite, crypto.curve, history, dev.history, trace, action);
  }

  /** Its body: load, and only on NotFound generate and save. */
  method LoadOrGenerate(dev: Device, identity: IdentityBuffer, crypto: TeslaCrypto) returns (ok: bool)
    requires dev.Idle() && crypto.Valid() && crypto.groupReady && !crypto.keyReady
    modifies dev`disk, dev`history, dev`slot, dev`log, dev`calls, dev`faults, identity, crypto
    ensures dev.Idle() && crypto.Valid() && crypto.groupReady && crypto.live == old(crypto.live)
    ensures old(dev.history) <= dev.history && old(dev.log) <= dev.log
    ensures dev.faults >= old(dev.faults) && crypto.faults >= old(crypto.faults)
    ensures ok ==> crypto.keyReady && crypto.privateKey == BigEndian(identity.privateKey)
    ensures ok && old(dev.disk) == EMPTY ==> Generated(crypto.curve, identity.Value())
    ensures Next(dev.suite, crypto.curve, old(dev.disk), PrepareAction(ok, identity.Value()), dev.disk)
    ensures forall i :: |old(dev.history)| <= i < |dev.history| ==>
              Next(dev.suite, crypto.curve, old(dev.disk), PrepareCrashed, dev.history[i])
    ensures dev.faults == old(dev.faults) && crypto.faults == old(crypto.faults) ==>
              (ok <==> Startable(dev.suite, crypto.curve, old(dev.disk)))
  {
    hide Decode, After, Follow, BigEndian;
    ghost var before := dev.disk;
    var result;
    ghost var mainAnswer, stagedAnswer;
    result, mainAnswer, stagedAnswer := Load(dev, identity);
    FaultFreeTable(dev.suite, before);
    assert LoadAnswers(dev.suite, before, mainAnswer, stagedAnswer);
    FaultyTable(dev.suite, before, mainAnswer, stagedAnswer);
    assert LoadStep(dev.suite, before, result, dev.disk);
    if result == Ok {
      ok := crypto.SetPrivateKey(identity.privateKey);
      return;
    }
    if result != NotFound {
      return false;
    }
    assert before == EMPTY && dev.disk == before;
    ok := GenerateAndSave(dev, identity, crypto);
  }

  /** The NotFound case: a fresh uid and key, kept only if the record is stored. */
  method GenerateAndSave(dev: Device, identity: IdentityBuffer, crypto: TeslaCrypto) returns (ok: bool)
    requires dev.Idle() && crypto.Valid() && crypto.groupReady && dev.disk == EMPTY
    modifies dev`disk, dev`history, dev`slot, dev`log, dev`calls, dev`faults, identity, crypto
    ensures dev.Idle() && crypto.Valid() && crypto.groupReady && crypto.live == old(crypto.live)
    ensures old(dev.history) <= dev.history && old(dev.log) <= dev.log
    ensures dev.faults >= old(dev.faults) && crypto.faults >= old(crypto.faults)
    ensures ok ==> crypto.keyReady && crypto.privateKey == BigEndian(identity.privateKey)
    ensures identity.uid[0] == 0x08
    ensures dev.disk == EMPTY
            || (Generated(crypto.curve, identity.Value()) && SaveStep(dev.suite, EMPTY, identity.Value(), ok, dev.disk))
    ensures ok ==>
              Generated(crypto.curve, identity.Value()) && SaveStep(dev.suite, EMPTY, identity.Value(), true, dev.disk)
    ensures forall i :: |old(dev.history)| <= i < |dev.history| ==>
              SaveCut(dev.suite, crypto.curve, EMPTY, dev.history[i])
    ensures dev.faults == old(dev.faults) && crypto.faults == old(crypto.faults) ==> ok
  {
    var drawn := dev.RandomUid();
    identity.uid := GenerateUid(drawn);
    ok := crypto.GeneratePrivateKey(identity);
    if ok {
      assert Generated(crypto.curve, identity.Value());
      ghost var iv;
      ok, iv := Save(dev, identity);
      assert SaveStep(dev.suite, EMPTY, identity.Value(), ok, dev.disk);
    }
  }

  /** tesla_identity_generate_uid: random bytes, the first fixed to 08 (a random uid). */
  function GenerateUid(drawn: Uid): Uid {
    drawn[0 := 0x08]
  }

  /** The model after a batch of departures is shown, oldest first. */
  function HandleAll(m: ViewModel, gone: seq<Departure>): ViewModel {
    if gone == [] then m else HandleAll(m, gone[..|gone| - 1]).Handle(gone[|gone| - 1].pending)
  }

  lemma HandleAllGrows(m: ViewModel, gone: seq<Departure>, d: Departure)
    ensures HandleAll(m, gone + [d]) == HandleAll(m, gone).Handle(d.pending)
  {
    assert (gone + [d])[..|gone|] == gone;
  }

  lemma HandleAllNone(m: ViewModel)
    ensures HandleAll(m, []) == m
  {
  }

  /** The events that change what is shown. */
  predicate Deciding(e: NfcEvent) {
    e !in {PublicKeyRead, CardInfoRead}
  }

  /** What is shown after any batch: the state of its last deciding event, and the duration of its last
      authentication; nothing else of the batch is remembered but the counters. */
  lemma {:induction false} LastEventShows(m: ViewModel, gone: seq<Departure>, i: nat)
    requires i < |gone|
    ensures var e, after := gone[i].pending.event, HandleAll(m, gone);
            && after.uid == m.uid
            && (Deciding(e) && (forall j :: i < j < |gone| ==> !Deciding(gone[j].pending.event)) ==>
                  && (after.state == Present <==> e == AppletSelected)
                  && (after.state == AuthenticatedShown <==> e == Authenticated)
                  && (after.state == Ready <==> e in {FieldLost, Halted})
                  && (after.state == Error <==> e in {TransmitError, ProtocolError}))
            && (e == Authenticated && (forall j :: i < j < |gone| ==> gone[j].pending.event != Authenticated) ==>
                  after.lastCryptoTimeMs == gone[i].pending.timeMs)
    decreases |gone|
  {
    var n := |gone| - 1;
    if i < n {
      var init := gone[..n];
      assert forall j :: 0 <= j < n ==> init[j] == gone[j];
      LastEventShows(m, init, i);
    } else {
      HandleKeepsUid(m, gone[..n]);
    }
  }

  /** A batch without deciding events leaves what is shown as it was. */
  lemma {:induction false} NothingNewShown(m: ViewModel, gone: seq<Departure>)
    requires forall j :: 0 <= j < |gone| ==> !Deciding(gone[j].pending.event)
    ensures HandleAll(m, gone) == m
  {
    if gone != [] {
      NothingNewShown(m, gone[..|gone| - 1]);
    }
  }

  lemma {:induction false} HandleKeepsUid(m: ViewModel, gone: seq<Departure>)
    ensures HandleAll(m, gone).uid == m.uid
  {
    if gone != [] {
      HandleKeepsUid(m, gone[..|gone| - 1]);
    }
  }

  /** The departures of a queue dropped as a whole, oldest first. */
  function AllCleared(q: seq<Pending>): seq<Departure> {
    seq(|q|, i requires 0 <= i < |q| => Departure(q[i], Cleared))
  }

  lemma CountWraps(n: nat)
    ensures (n % UINT32 + 1) % UINT32 == (n + 1) % UINT32
  {
  }

  /** TeslaKeyCardApp. */
  class KeyCardApp {
    const device: Device
    const curve: Curve
    const suite: AuthSuite
    const identity: IdentityBuffer
    var crypto: TeslaCrypto?
    var nfc: TeslaNfc?
    var screen: Screen
    var queue: seq<Pending>
    var model: ViewModel
    ghost var ledger: Ledger
    ghost var generation: nat // how many identities this app has replaced
    ghost var clearedAt: nat // departures before the counters were last cleared

    /** tesla_key_card_app_alloc: nothing is loaded yet. */
    constructor (device: Device, curve: Curve, suite: AuthSuite)
      requires device.Idle() && Recorded(device, curve)
      ensures Valid() && screen == MainScreen && queue == [] && ledger == NO_EVENTS && generation == 0
      ensures this.device == device && this.curve == curve && this.suite == suite
      ensures crypto == null && nfc == null && fresh(identity)
    {
      this.device, this.curve, this.suite := device, curve, suite;
      identity := new IdentityBuffer();
      crypto, nfc, screen, queue := null, null, MainScreen, [];
      model := ViewModel(Initializing, 0, 0, 0, Zeros(4));
      ledger, generation, clearedAt := NO_EVENTS, 0, 0;
    }

    /** tesla_key_card_app up to its event loop: an identity is prepared, and with it the listener. */
    method Start(res: Resources) returns (ghost ready: bool)
      requires Valid() && crypto == null && nfc == null && screen == MainScreen
      modifies `crypto, `nfc, `model, `clearedAt, device, identity
      ensures Valid() && screen == MainScreen && old(device.history) <= device.history
      ensures crypto != null ==> fresh(crypto)
      ensures model == ViewModel(if nfc != null then Ready else Error, 0, 0, 0, identity.uid)
      ensures nfc != null <==> ready && res.radio
      ensures nfc != null ==> nfc.listening && fresh(nfc) && fresh(nfc.applet)
      ensures crypto != null <==> res.memory
      ensures old(device.trace) <= device.trace
      ensures Actions(device.trace) == Actions(old(device.trace))
                                       + if crypto == null then [] else [PrepareAction(ready, identity.Value())]
    {
      hide Explains, CountersValid, NfcValid, CryptoValid, ServingValid, Recorded, Actions, Serving, Next;
      var prepared := ServeNewIdentity(res);
      ready := prepared;
      ShowFresh(if nfc != null then Ready else Error, identity.uid);
    }

    ghost predicate CryptoValid()
      reads `crypto, if crypto == null then {} else {crypto}
    {
      crypto != null ==>
        crypto.live && crypto.Valid() && crypto.groupReady && crypto.curve == curve && crypto.suite == suite
    }

    /** The listener, whether running or stopped, serves the current identity with the live key. */
    ghost predicate NfcValid()
      reads `nfc, `crypto, identity, if crypto == null then {} else {crypto}
    {
      nfc != null ==>
        && crypto != null && crypto.keyReady
        && nfc.crypto == crypto && nfc.applet.authenticator == crypto
        && crypto.privateKey == BigEndian(identity.privateKey)
        && UsableKey(curve, identity.Value())
        && nfc.applet.publicKey == PublicKeyOf(curve, BigEndian(identity.privateKey))
        && nfc.uid == identity.uid
    }

    /** The listener runs on the main screen only, and the reset screen waits with an empty queue. */
    ghost predicate ScreenValid()
      reads `nfc, `screen, `queue, (if nfc == null then {} else {nfc})`listening
    {
      && (nfc != null && nfc.listening ==> screen == MainScreen)
      && (screen == ResetScreen ==> queue == [])
    }

    /** Both counters are what was consumed since they were cleared, modulo their width. */
    ghost predicate CountersValid()
      reads `ledger, `model, `clearedAt
    {
      && clearedAt <= |ledger.gone|
      && model.sessions == Left(ledger.gone, Consumed, AppletSelected, clearedAt) % UINT32
      && model.authentications == Left(ledger.gone, Consumed, Authenticated, clearedAt) % UINT32
    }

    /** Any listener serves the identity of the last prepare, with no delete reported since. */
    ghost predicate ServingValid()
      reads `nfc, identity, device`trace
    {
      nfc != null ==> Serving(device.trace) == Some(identity.Value())
    }

    /** What holds at every step, also between the delete and the prepare of a reset. */
    ghost predicate Sound()
      reads this, device, identity, if crypto == null then {} else {crypto}
      reads (if nfc == null then {} else {nfc})`listening
    {
      && device.Idle() && Recorded(device, curve)
      && CryptoValid() && NfcValid() && ScreenValid() && CountersValid()
      && Explains(ledger, queue, generation)
    }

    ghost predicate Valid()
      reads this, device, identity, if crypto == null then {} else {crypto}
      reads (if nfc == null then {} else {nfc})`listening
    {
      Sound() && ServingValid()
    }

    /** tesla_key_card_nfc_event: never waits, so an event for a full queue is lost. */
    method PostEvent(event: NfcEvent, timeMs: nat)
      requires Explains(ledger, queue, generation)
      modifies `queue, `ledger
      ensures Explains(ledger, queue, generation)
      ensures ledger == old(ledger).(posts := old(ledger.posts)
                                              + [Post(Pending(event, timeMs), generation, |old(queue)| < 16)])
      ensures queue == old(queue) + if |old(queue)| < 16 then [Pending(event, timeMs)] else []
    {
      var p := Pending(event, timeMs);
      PutExplained(ledger, queue, generation, p);
      ledger := ledger.(posts := ledger.posts + [Post(p, generation, |queue| < QUEUE_SIZE)]);
      if |queue| < QUEUE_SIZE {
        queue := queue + [p];
      }
    }

    /** furi_message_queue_get without waiting. */
    method GetEvent(ghost exit: Exit) returns (p: Option<Pending>)
      requires Explains(ledger, queue, generation)
      modifies `queue, `ledger
      ensures Explains(ledger, queue, generation)
      ensures p == if old(queue) == [] then None else Some(old(queue)[0])
      ensures p.None? ==> queue == [] && ledger == old(ledger)
      ensures p.Some? ==>
                && queue == old(queue)[1..]
                && ledger == old(ledger).(gone := old(ledger.gone) + [Departure(p.value, exit)])
    {
      if queue == [] {
        return None;
      }
      p := Some(queue[0]);
      GetExplained(ledger, queue, generation, exit);
      ledger := ledger.(gone := ledger.gone + [Departure(queue[0], exit)]);
      queue := queue[1..];
    }

    /** tesla_key_card_clear_nfc_events. */
    method ClearEvents()
      requires Explains(ledger, queue, generation) && CountersValid()
      modifies `queue, `ledger
      ensures Explains(ledger, queue, generation) && CountersValid()
      ensures queue == []
      ensures ledger == old(ledger).(gone := old(ledger.gone) + AllCleared(old(queue)))
    {
      hide CountersValid, Explains;
      ghost var taken: nat := 0;
      var more := true;
      while more
        invariant Explains(ledger, queue, generation) && CountersValid()
        invariant taken <= |old(queue)| && queue == old(queue)[taken..] && (!more ==> queue == [])
        invariant ledger == old(ledger).(gone := old(ledger.gone) + AllCleared(old(queue)[..taken]))
        decreases |queue|, more
      {
        more := ClearOne();
        if more {
          assert old(queue)[..taken + 1] == old(queue)[..taken] + [old(queue)[taken]];
          taken := taken + 1;
        }
      }
      assert old(queue)[..taken] == old(queue);
    }

    method ClearOne() returns (more: bool)
      requires Explains(ledger, queue, generation) && CountersValid()
      modifies `queue, `ledger
      ensures Explains(ledger, queue, generation) && CountersValid()
      ensures more <==> old(queue) != []
      ensures !more ==> queue == [] && ledger == old(ledger)
      ensures more ==>
                && queue == old(queue)[1..]
                && ledger == old(ledger).(gone := old(ledger.gone) + [Departure(old(queue)[0], Cleared)])
    {
      hide Left, Explains;
      ghost var gone := ledger.gone;
      var p := GetEvent(Cleared);
      more := p.Some?;
      if more {
        assert ledger.gone == gone + [Departure(p.value, Cleared)];
        LeftGrows(gone, Departure(p.value, Cleared), Consumed, AppletSelected, clearedAt);
        LeftGrows(gone, Departure(p.value, Cleared), Consumed, Authenticated, clearedAt);
      }
    }

    /** The radio worker runs its callback once. */
    method ListenerSignal(signal: Signal) returns (ghost verdict: Option<Block16>, ghost salt: Salt)
      requires Valid() && nfc != null && nfc.listening
      modifies `queue, `ledger, nfc`txBuffer, nfc`cryptoTimeMs, nfc.applet`selected, nfc.applet`calls, crypto`faults
      ensures Valid() && crypto.faults >= old(crypto.faults)
      ensures ledger.gone == old(ledger.gone) && old(queue) <= queue
      ensures |ledger.posts| == |old(ledger.posts)| + 1 && old(ledger.posts) <= ledger.posts
      ensures ledger.posts[|old(ledger.posts)|].pending.event
              == ReportFor(old(nfc.applet.selected), nfc.applet.publicKey, verdict, signal)
      ensures Truthful(signal, nfc.txBuffer, ledger.posts[|old(ledger.posts)|].pending.event)
      ensures ledger.posts[|old(ledger.posts)|].generation == generation
      ensures ledger.posts[|old(ledger.posts)|].admitted <==> |old(queue)| < QUEUE_SIZE
      ensures signal in {FieldOff, Halt} ==> !nfc.applet.selected
      ensures signal.ReceivedData? ==>
                var reply := Respond(old(nfc.applet.selected), nfc.applet.publicKey, true, verdict, signal.request);
                nfc.txBuffer == reply.data + StatusBytes(reply.statusWord) && nfc.applet.selected == reply.selected
      // What the key answered: the right response or none, and without faults the right one.
      ensures verdict.Some? ==>
                && signal.ReceivedData? && IsAuthenticate(signal.request)
                && crypto.Expected(PeerKey(signal.request), ChallengeOf(signal.request), salt) == verdict
      ensures old(nfc.applet.selected) && signal.ReceivedData? && IsAuthenticate(signal.request)
              && crypto.faults == old(crypto.faults) ==>
                crypto.Expected(PeerKey(signal.request), ChallengeOf(signal.request), salt) == verdict
    {
      hide Explains, Left, ServingValid, Recorded, PublicKeyOf, ReportFor, Respond, StatusBytes, ChallengeResponse;
      hide Truthful;
      var event, timeMs;
      event, timeMs, verdict, salt := nfc.HandleSignal(signal);
      PostEvent(event, timeMs);
    }

    /** Any number of callbacks of the radio worker, if it runs: what may happen between two steps of the GUI. */
    method Interfere()
      requires Valid()
      modifies `queue, `ledger
      modifies if nfc == null then {} else {nfc, nfc.applet}
      modifies (if crypto == null then {} else {crypto})`faults
      ensures Valid()
      ensures ledger.gone == old(ledger.gone) && old(ledger.posts) <= ledger.posts && old(queue) <= queue
      ensures nfc != null ==> nfc.listening == old(nfc.listening)
    {
      hide Explains, CountersValid, NfcValid, CryptoValid, ScreenValid, ServingValid, Recorded;
      var again: bool := *;
      var budget: nat := *;
      while again && budget > 0 && nfc != null && nfc.listening
        invariant Valid()
        invariant ledger.gone == old(ledger.gone) && old(ledger.posts) <= ledger.posts && old(queue) <= queue
        invariant nfc != null ==> nfc.listening == old(nfc.listening)
        decreases budget
      {
        var signal: Signal := *;
        ghost var _, _ := ListenerSignal(signal);
        again := *;
        budget := budget - 1;
      }
    }

    /** tesla_key_card_tick_event_callback: at most eight events, oldest first, with the radio worker
        free to post before each of them. */
    method Tick()
      requires Valid()
      modifies `queue, `ledger, `model
      modifies if nfc == null then {} else {nfc, nfc.applet}
      modifies (if crypto == null then {} else {crypto})`faults
      ensures Valid()
      ensures old(ledger.posts) <= ledger.posts && old(ledger.gone) <= ledger.gone
      ensures |ledger.gone| <= |old(ledger.gone)| + 8
      ensures |ledger.gone| == |old(ledger.gone)| + 8 || queue == []
      ensures forall i :: |old(ledger.gone)| <= i < |ledger.gone| ==> ledger.gone[i].exit == Consumed
      ensures model == HandleAll(old(model), ledger.gone[|old(ledger.gone)|..])
    {
      hide CountersValid, Explains, NfcValid, CryptoValid, ScreenValid, ServingValid, Recorded, HandleAll;
      assert ledger.gone[|ledger.gone|..] == [];
      HandleAllNone(model);
      for i := 0 to EVENTS_PER_TICK
        invariant Valid()
        invariant old(ledger.posts) <= ledger.posts && old(ledger.gone) <= ledger.gone
        invariant |ledger.gone| == |old(ledger.gone)| + i
        invariant forall j :: |old(ledger.gone)| <= j < |ledger.gone| ==> ledger.gone[j].exit == Consumed
        invariant model == HandleAll(old(model), ledger.gone[|old(ledger.gone)|..])
      {
        ghost var gone := ledger.gone;
        Interfere();
        var p := TakeOne();
        if p.None? {
          break;
        }
        assert ledger.gone[|old(ledger.gone)|..] == gone[|old(ledger.gone)|..] + [Departure(p.value, Consumed)];
        HandleAllGrows(old(model), gone[|old(ledger.gone)|..], Departure(p.value, Consumed));
      }
    }

    /** One get of the tick, and the display of what it got. */
    method TakeOne() returns (p: Option<Pending>)
      requires Valid()
      modifies `queue, `ledger, `model
      ensures Valid()
      ensures p.None? ==> queue == [] && model == old(model) && ledger == old(ledger)
      ensures p.Some? ==>
                && model == old(model).Handle(p.value)
                && ledger == old(ledger).(gone := old(ledger.gone) + [Departure(p.value, Consumed)])
    {
      hide Left, Explains, NfcValid, CryptoValid, ServingValid, Recorded;
      ghost var gone := ledger.gone;
      p := GetEvent(Consumed);
      if p.Some? {
        assert ledger.gone == gone + [Departure(p.value, Consumed)];
        CountWraps(Left(gone, Consumed, AppletSelected, clearedAt));
        CountWraps(Left(gone, Consumed, Authenticated, clearedAt));
        LeftGrows(gone, Departure(p.value, Consumed), Consumed, AppletSelected, clearedAt);
        LeftGrows(gone, Departure(p.value, Consumed), Consumed, Authenticated, clearedAt);
        model := model.Handle(p.value);
      }
    }

    /** tesla_key_card_update_nfc. */
    method UpdateNfc(res: Resources)
      requires CryptoValid()
      requires crypto != null ==> crypto.keyReady && crypto.privateKey == BigEndian(identity.privateKey)
      modifies `nfc
      modifies if nfc == null then {} else {nfc, nfc.applet}
      ensures NfcValid()
      ensures nfc != null <==> crypto != null && res.radio
      ensures nfc != null ==> fresh(nfc) && fresh(nfc.applet) && nfc.listening
    {
      if nfc != null {
        nfc.Free();
        nfc := null;
      }
      if crypto != null {
        nfc := new TeslaNfc(crypto, identity.uid);
        var started := nfc.Start(res.radio);
        if !started {
          nfc.Free();
          nfc := null;
        }
      }
    }

    /** tesla_key_card_resume_nfc. */
    method ResumeNfc(res: Resources) returns (running: bool)
      requires NfcValid() && ServingValid()
      modifies `nfc
      modifies if nfc == null then {} else {nfc, nfc.applet}
      ensures NfcValid() && ServingValid()
      ensures running <==> nfc != null
      ensures running <==> old(nfc) != null && (old(nfc.listening) || res.radio)
      ensures running ==> nfc == old(nfc) && nfc.listening
    {
      if nfc == null {
        return false;
      }
      running := nfc.Start(res.radio);
      if !running {
        nfc.Free();
        nfc := null;
      }
    }

    method AllocCrypto(res: Resources) returns (c: TeslaCrypto?)
      ensures c != null <==> res.memory
      ensures c != null ==>
                && fresh(c) && c.Valid() && c.faults == 0 && c.live
                && c.groupReady && !c.keyReady && c.curve == curve && c.suite == suite
    {
      c := null;
      if res.memory {
        c := new TeslaCrypto(curve, suite);
      }
    }

    method ShowState(state: UiState)
      requires CountersValid()
      modifies `model
      ensures model == old(model).(state := state) && CountersValid()
    {
      model := model.(state := state);
    }

    /** A state shown with cleared counters and this uid. */
    method ShowFresh(state: UiState, uid: Uid)
      modifies `model, `clearedAt
      ensures model == ViewModel(state, 0, 0, 0, uid) && CountersValid() && clearedAt == |ledger.gone|
    {
      model := ViewModel(state, 0, 0, 0, uid);
      clearedAt := |ledger.gone|;
    }

    /** tesla_key_card_reset_identity. The ghost results say whether the delete reported success and
        whether the prepare after it did; emptied is the store between the two. */
    method ResetIdentity(res: Resources)
      returns (ok: bool, ghost deleted: bool, ghost prepared: bool, ghost emptied: Disk)
      requires Valid() && screen == MainScreen
      modifies this, device, identity
      modifies if crypto == null then {} else {crypto}
      modifies if nfc == null then {} else {nfc, nfc.applet}
      ensures crypto != null && crypto != old(crypto) ==> fresh(crypto)
      ensures nfc != null && nfc != old(nfc) ==> fresh(nfc) && fresh(nfc.applet)
      ensures Valid() && screen == MainScreen && queue == []
      ensures old(ledger.gone) <= ledger.gone && ledger.posts == old(ledger.posts)
      ensures old(device.history) <= device.history && old(device.trace) <= device.trace
      ensures ok <==> deleted && nfc != null
      ensures nfc != null ==> nfc.listening
      ensures DeleteEnds(old(device.disk), deleted, emptied)
      ensures !deleted ==>
                && device.disk == emptied && generation == old(generation) && model == old(model).(state := Error)
                && identity.Value() == old(identity.Value()) && crypto == old(crypto) && nfc in {old(nfc), null}
      ensures deleted ==> generation == old(generation) + 1 && Replaced(emptied, prepared)
      ensures deleted ==> (nfc != null <==> prepared && res.radio) && (crypto != null <==> res.memory)
      // What is then served is newly saved, or it is what the staged file held before the reset.
      ensures prepared ==>
                && deleted
                && if emptied == EMPTY
                   then NewlySaved(device.suite, curve, identity.Value(), device.disk)
                   else && StagedIsUsable(device.suite, curve, old(device.disk))
                        && Decode(device.suite, old(device.disk).tmp.value) == Some(identity.Value())
      ensures prepared && !StagedIsUsable(device.suite, curve, old(device.disk)) ==>
                NewlySaved(device.suite, curve, identity.Value(), device.disk)
      // A reset in which nothing fails serves a new identity.
      ensures res.memory && res.radio && device.faults == old(device.faults) && deleted && crypto.faults == 0 ==> ok
      ensures device.faults == old(device.faults) ==> deleted && emptied == EMPTY
      ensures deleted && nfc != null ==> fresh(nfc)
      ensures Actions(device.trace)
              == Actions(old(device.trace)) + [Deleted(deleted)]
                 + if deleted && crypto != null then [PrepareAction(prepared, identity.Value())] else []
    {
      hide Explains, CountersValid, NfcValid, CryptoValid, Next, DeleteEnds, Recorded, Actions, ServingValid;
      hide NewlySaved, StagedIsUsable, Decode, Replaced;
      ghost var before := device.disk;
      prepared := false;
      var reported := StopAndDelete();
      deleted, emptied := reported, device.disk;
      ghost var trace := Actions(device.trace);
      if !reported {
        var _ := ResumeNfc(res);
        ShowState(Error);
        assert trace + [] == trace;
        return false, false, false, emptied;
      }
      ok, prepared := ReplaceIdentity(res);
      if prepared {
        ResetOutcome(device.suite, curve, before, emptied, identity.Value(), device.disk);
      }
    }

    /** The start of a reset: no listener, no pending event, and the delete attempted. */
    method StopAndDelete() returns (reported: bool)
      requires Valid() && screen == MainScreen
      modifies `queue, `ledger, `model, device`disk, device`history, device`calls, device`faults, device`trace
      modifies if nfc == null then {} else {nfc, nfc.applet}
      ensures Sound() && queue == [] && (nfc != null ==> !nfc.listening)
      ensures !reported ==> ServingValid()
      ensures old(ledger.gone) <= ledger.gone && ledger.posts == old(ledger.posts)
      ensures model == old(model).(state := Resetting)
      ensures old(device.history) <= device.history && DeleteEnds(old(device.disk), reported, device.disk)
      ensures device.faults >= old(device.faults)
      ensures device.faults == old(device.faults) ==> reported && device.disk == EMPTY
      ensures old(device.trace) <= device.trace
      ensures Actions(device.trace) == Actions(old(device.trace)) + [Deleted(reported)]
    {
      hide Explains, CountersValid, NfcValid, CryptoValid, DeleteEnds, Recorded, Actions, Serving;
      ShowState(Resetting);
      if nfc != null {
        nfc.Stop();
      }
      ClearEvents();
      reported := DeleteStored();
    }

    /** tesla_identity_delete, noted in the trace. */
    method DeleteStored() returns (reported: bool)
      requires device.Idle() && Recorded(device, curve)
      modifies device`disk, device`history, device`calls, device`faults, device`trace
      ensures device.Idle() && Recorded(device, curve)
      ensures old(device.history) <= device.history && old(device.trace) <= device.trace
      ensures DeleteEnds(old(device.disk), reported, device.disk)
      ensures device.faults >= old(device.faults)
      ensures device.faults == old(device.faults) ==> reported && device.disk == EMPTY
      ensures Actions(device.trace) == Actions(old(device.trace)) + [Deleted(reported)]
      ensures Serving(device.trace) == if reported then None else Serving(old(device.trace))
    {
      hide DeleteEnds, DeleteCrash, Told, Actions, Serving;
      ghost var history, trace := device.history, device.trace;
      reported := Delete(device);
      ToldExtends(device.suite, curve, history, device.history, trace, Deleted(reported));
      ActionsGrow(trace, device.trace[|trace|]);
      ServingAfter(trace, device.trace[|trace|]);
    }

    /** What a reset leaves once the old identity is deleted: cleared counters, and the new identity
        served exactly when it was prepared and the listener came up. */
    ghost predicate Replaced(emptied: Disk, prepared: bool)
      reads this, device, identity
    {
      && model.sessions == model.authentications == model.lastCryptoTimeMs == 0
      && model.state == (if nfc != null then Ready else Error)
      && (nfc != null ==> prepared && model.uid == identity.uid)
      && if crypto == null then device.disk == emptied && !prepared && identity.Value() == ZERO_IDENTITY
         else Next(device.suite, curve, emptied, PrepareAction(prepared, identity.Value()), device.disk)
    }

    /** The part of a reset after the delete: new key object, new identity, new listener. */
    method ReplaceIdentity(res: Resources) returns (ok: bool, ghost prepared: bool)
      requires Sound() && screen == MainScreen && queue == []
      modifies this, device, identity
      modifies if crypto == null then {} else {crypto}
      modifies if nfc == null then {} else {nfc, nfc.applet}
      ensures crypto != null && crypto != old(crypto) ==> fresh(crypto)
      ensures nfc != null && nfc != old(nfc) ==> fresh(nfc) && fresh(nfc.applet)
      ensures Valid() && screen == MainScreen && queue == []
      ensures ledger == old(ledger) && generation == old(generation) + 1
      ensures old(device.history) <= device.history && old(device.trace) <= device.trace
      ensures ok <==> nfc != null
      ensures nfc != null <==> prepared && res.radio
      ensures nfc != null ==> nfc.listening && fresh(nfc)
      ensures crypto != null <==> res.memory
      ensures device.faults >= old(device.faults)
      ensures device.faults == old(device.faults) && crypto != null && crypto.faults == 0 && old(device.disk) == EMPTY
              ==> prepared
      ensures Replaced(old(device.disk), prepared)
      ensures prepared ==> Next(device.suite, curve, old(device.disk), Prepared(identity.Value()), device.disk)
      ensures Actions(device.trace) == Actions(old(device.trace))
                                       + if crypto == null then [] else [PrepareAction(prepared, identity.Value())]
    {
      hide Next, Explains, CountersValid, NfcValid, CryptoValid, ServingValid, Recorded, Actions, Serving;
      EmptyQueueExplained(ledger, generation, generation + 1);
      generation := generation + 1;
      var ready := ServeNewIdentity(res);
      prepared := ready;
      if !ready {
        ShowFresh(Error, model.uid);
        return false, prepared;
      }
      ShowFresh(if nfc != null then Ready else Error, identity.uid);
      ok := nfc != null;
    }

    /** A new key object, an identity prepared with it, and a listener for that identity. */
    method ServeNewIdentity(res: Resources) returns (ready: bool)
      requires device.Idle() && Recorded(device, curve)
      modifies `nfc, `crypto, device, identity
      modifies if crypto == null then {} else {crypto}
      modifies if nfc == null then {} else {nfc, nfc.applet}
      ensures device.Idle() && Recorded(device, curve) && CryptoValid() && NfcValid() && ServingValid()
      ensures old(device.history) <= device.history && old(device.trace) <= device.trace
      ensures crypto != null <==> res.memory
      ensures crypto != null ==> fresh(crypto)
      ensures nfc != null <==> ready && res.radio
      ensures nfc != null ==> nfc.listening && fresh(nfc) && fresh(nfc.applet)
      ensures device.faults >= old(device.faults)
      ensures device.faults == old(device.faults) && crypto != null && crypto.faults == 0 && old(device.disk) == EMPTY
              ==> ready
      ensures if crypto == null then device.disk == old(device.disk) && identity.Value() == ZERO_IDENTITY && !ready
              else Next(device.suite, curve, old(device.disk), PrepareAction(ready, identity.Value()), device.disk)
      ensures Actions(device.trace) == Actions(old(device.trace))
                                       + if crypto == null then [] else [PrepareAction(ready, identity.Value())]
    {
      hide Next, CryptoValid, NfcValid, Recorded, Actions, Serving;
      ready := NewIdentity(res);
      if ready {
        UpdateNfc(res);
      }
    }

    /** Drops listener and key object, and prepares an identity with a new key object if there is room for one. */
    method NewIdentity(res: Resources) returns (ready: bool)
      requires device.Idle() && Recorded(device, curve)
      modifies `nfc, `crypto, device, identity
      modifies if crypto == null then {} else {crypto}
      modifies if nfc == null then {} else {nfc, nfc.applet}
      ensures device.Idle() && CryptoValid() && nfc == null && NfcValid()
      ensures old(device.history) <= device.history && old(device.trace) <= device.trace
      ensures crypto != null <==> res.memory
      ensures crypto != null ==> fresh(crypto)
      ensures device.faults >= old(device.faults)
      ensures device.faults == old(device.faults) && crypto != null && crypto.faults == 0 && old(device.disk) == EMPTY
              ==> ready
      ensures ready ==> crypto != null && crypto.keyReady && crypto.privateKey == BigEndian(identity.privateKey)
      ensures if crypto == null then device.disk == old(device.disk) && identity.Value() == ZERO_IDENTITY
              else Next(device.suite, curve, old(device.disk), PrepareAction(ready, identity.Value()), device.disk)
      ensures Recorded(device, curve)
      ensures Actions(device.trace) == Actions(old(device.trace))
                                       + if crypto == null then [] else [PrepareAction(ready, identity.Value())]
      ensures ready ==> Serving(device.trace) == Some(identity.Value())
    {
      hide Next, Told, Actions, Serving, Generated, Holder;
      if nfc != null {
        nfc.Free();
        nfc := null;
      }
      if crypto != null {
        crypto.Free();
      }
      crypto := AllocCrypto(res);
      identity.Clear();
      ready := crypto != null;
      ghost var trace := device.trace;
      if ready {
        ready := PrepareIdentity(device, identity, crypto);
        ActionsGrow(trace, device.trace[|trace|]);
        ServingAfter(trace, device.trace[|trace|]);
      } else {
        assert Actions(trace) + [] == Actions(trace);
      }
    }

    /** tesla_key_card_custom_event_callback: reset asked for, cancelled or confirmed. */
    method HandleCustomEvent(event: CustomEvent, res: Resources) returns (handled: bool)
      requires Valid()
      modifies this, device, identity
      modifies if crypto == null then {} else {crypto}
      modifies if nfc == null then {} else {nfc, nfc.applet}
      ensures crypto != null && crypto != old(crypto) ==> fresh(crypto)
      ensures nfc != null && nfc != old(nfc) ==> fresh(nfc) && fresh(nfc.applet)
      ensures Valid() && old(device.history) <= device.history && old(device.trace) <= device.trace
      ensures handled <==> (event == ResetRequest <==> old(screen) == MainScreen)
      ensures !handled ==> unchanged(this)
      ensures !handled || event != ResetConfirm ==> device.trace == old(device.trace) && device.disk == old(device.disk)
      ensures handled ==> screen == if event == ResetRequest then ResetScreen else MainScreen
      ensures handled && event == ResetRequest ==>
                && nfc == old(nfc) && (nfc != null ==> !nfc.listening) && model == old(model)
                && queue == [] && ledger == old(ledger).(gone := old(ledger.gone) + AllCleared(old(queue)))
      ensures handled && event == ResetCancel ==>
                && model == old(model).(state := if nfc != null then Ready else Error) && ledger == old(ledger)
                && (nfc != null ==> nfc == old(nfc) && nfc.listening)
                && (nfc != null <==> old(nfc) != null && res.radio)
      ensures handled && event == ResetConfirm ==> Confirmed(old(device.trace), old(generation))
    {
      hide Explains, CountersValid, NfcValid, CryptoValid, Recorded, ServingValid, Confirmed, AllCleared;
      handled := false;
      match event {
        case ResetRequest =>
          if screen == MainScreen {
            if nfc != null {
              nfc.Stop();
            }
            ClearEvents();
            screen := ResetScreen;
            handled := true;
          }
        case ResetCancel =>
          if screen == ResetScreen {
            screen := MainScreen;
            var running := ResumeNfc(res);
            ShowState(if running then Ready else Error);
            handled := true;
          }
        case ResetConfirm =>
          if screen == ResetScreen {
            screen := MainScreen;
            handled := true;
            ConfirmReset(res);
          }
      }
    }

    /** A confirmed reset, in terms of the trace it extends: a delete, and after a reported one the
        prepare whose identity any listener then serves, under cleared counters. */
    ghost predicate Confirmed(trace: seq<Deed>, before: nat)
      reads this, device, identity
      reads (if nfc == null then {} else {nfc})`listening
    {
      var done := Actions(device.trace);
      && |done| > |trace| && done[|trace|].Deleted?
      && (nfc != null ==> nfc.listening)
      && if done[|trace|].reported then
           && model.state == (if nfc != null then Ready else Error)
           && model.sessions == model.authentications == model.lastCryptoTimeMs == 0
           && generation == before + 1
           && (nfc != null ==> done[|trace| + 1..] == [Prepared(identity.Value())])
         else model.state == Error && generation == before && done[|trace| + 1..] == []
    }

    method ConfirmReset(res: Resources)
      requires Valid() && screen == MainScreen
      modifies this, device, identity
      modifies if crypto == null then {} else {crypto}
      modifies if nfc == null then {} else {nfc, nfc.applet}
      ensures crypto != null && crypto != old(crypto) ==> fresh(crypto)
      ensures nfc != null && nfc != old(nfc) ==> fresh(nfc) && fresh(nfc.applet)
      ensures Valid() && screen == MainScreen
      ensures old(device.history) <= device.history && old(device.trace) <= device.trace
      ensures Confirmed(old(device.trace), old(generation))
    {
      hide Explains, CountersValid, NfcValid, CryptoValid, ScreenValid, DeleteEnds, Recorded, Serving, Next;
      hide NewlySaved, StagedIsUsable, Decode, Actions;
      ghost var trace := device.trace;
      var ok;
      ghost var deleted, prepared, emptied;
      ok, deleted, prepared, emptied := ResetIdentity(res);
    }

    /** What a running listener stands ready to give: every vehicle with a valid scalar has an answer
        coming, which opens to the salt and the rest of its challenge under the key derived from its own
        scalar and the point of the current identity. */
    lemma ServedKeyAgrees(vehicle: nat, challenge: Block16, salt: Salt)
      requires Valid() && nfc != null && nfc.listening && curve.ValidScalar(vehicle)
      ensures crypto != null && screen == MainScreen && nfc.uid == identity.uid && UsableKey(curve, identity.Value())
      ensures nfc.applet.publicKey == PublicKeyOf(curve, BigEndian(identity.privateKey))
      ensures var answer := crypto.Expected(PublicKeyOf(curve, vehicle), challenge, salt);
              var q := Mul(curve, vehicle, Mul(curve, BigEndian(identity.privateKey), curve.base));
              && answer.Some? && q.Affine?
              && suite.decrypt(suite.sha1(q.x)[..16], answer.value) == salt + challenge[4..]
    {
      KeyAgreement(curve, suite, BigEndian(identity.privateKey), vehicle, salt, challenge);
    }
  }
}
