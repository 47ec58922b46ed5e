/** A device from first start on: app sessions, resets and losses of power, as told by its trace. */
module Lives {
  import opened Bytes
  import opened IdentityRecord
  import opened Hardware
  import opened IdentityStore
  import opened IdentityRuns
  import opened Crypto
  import opened EventLedger
  import opened KeyCard

  /** What the view dispatcher delivers. */
  datatype GuiStep = TickStep | CustomStep(event: CustomEvent, res: Resources)

  /** One delivery of the dispatcher, after whatever the radio worker did meanwhile. */
  method OneStep(app: KeyCardApp, step: GuiStep)
    requires app.Valid()
    modifies app, app.device, app.identity
    modifies if app.crypto == null then {} else {app.crypto}
    modifies if app.nfc == null then {} else {app.nfc, app.nfc.applet}
    ensures app.Valid()
    ensures old(app.device.history) <= app.device.history && old(app.device.trace) <= app.device.trace
    ensures app.crypto != null && app.crypto != old(app.crypto) ==> fresh(app.crypto)
    ensures app.nfc != null && app.nfc != old(app.nfc) ==> fresh(app.nfc) && fresh(app.nfc.applet)
  {
    hide KeyCardApp.ServingValid, Told, KeyCardApp.NfcValid, KeyCardApp.CryptoValid, KeyCardApp.CountersValid;
    app.Interfere();
    match step {
      case TickStep =>
        app.Tick();
      case CustomStep(event, res) =>
        var _ := app.HandleCustomEvent(event, res);
    }
  }

  /** One session of the app under any script of GUI events and any activity of the radio worker.
      The app keeps its invariant throughout, so its events are conserved, its listener serves the
      identity of the last prepare, and the device's trace goes on accounting for its history. */
  method Session(app: KeyCardApp, res: Resources, script: seq<GuiStep>)
    requires app.Valid() && app.crypto == null && app.nfc == null && app.screen == MainScreen
    modifies app, app.device, app.identity
    ensures app.Valid()
    ensures old(app.device.history) <= app.device.history && old(app.device.trace) <= app.device.trace
    ensures forall k :: Posted(app.ledger.posts, k)
                        == Left(app.ledger.gone, Consumed, k, 0) + Left(app.ledger.gone, Cleared, k, 0)
                           + Waiting(app.queue, k) + Dropped(app.ledger.posts, k)
  {
    hide KeyCardApp.ServingValid, Told, KeyCardApp.NfcValid, KeyCardApp.CryptoValid, KeyCardApp.CountersValid;
    ghost var _ := app.Start(res);
    for i := 0 to |script|
      invariant app.Valid()
      invariant app.crypto != null ==> fresh(app.crypto)
      invariant app.nfc != null ==> fresh(app.nfc) && fresh(app.nfc.applet)
      invariant old(app.device.history) <= app.device.history && old(app.device.trace) <= app.device.trace
    {
      OneStep(app, script[i]);
    }
    forall k
      ensures Posted(app.ledger.posts, k)
              == Left(app.ledger.gone, Consumed, k, 0) + Left(app.ledger.gone, Cleared, k, 0)
                 + Waiting(app.queue, k) + Dropped(app.ledger.posts, k)
    {
      EventsAreConserved(app.ledger, app.queue, app.generation, k);
    }
  }

  /** One session, left in order or cut by a loss of power at any point of the history. What was done
      before it stays done, and after a cut the trace holds exactly the actions completed by then,
      with the one under way as crashed. */
  method OneLife(dev: Device, curve: Curve, suite: AuthSuite)
    requires dev.Idle() && Recorded(dev, curve)
    modifies dev
    ensures dev.Idle() && Recorded(dev, curve)
    ensures old(dev.history) <= dev.history && old(dev.trace) <= dev.trace
  {
    hide Told, KeyCardApp.ServingValid;
    var app := new KeyCardApp(dev, curve, suite);
    var res: Resources := *;
    var script: seq<GuiStep> := *;
    var mark := |dev.history| - 1;
    ghost var h0, trace0 := dev.history, dev.trace;
    Session(app, res, script);
    var powerLost: bool := *;
    if powerLost {
      ghost var h, trace := dev.history, dev.trace;
      ghost var last := dev.LosePower(mark);
      ToldWhenCut(dev.suite, curve, h, trace, last);
      CutKeepsWhatWasOver(dev.suite, curve, h0, trace0, trace, last);
    }
  }

  /** Any number of sessions on one device, each ended by leaving the app or by a loss of power at
      any point: the trace accounts for the whole history, nothing done is ever rewritten, between
      two deletes every successful prepare served the same identity, the store still holds what was
      served since the last delete, and a store tidy at first was tidy at every moment. */
  method Live(dev: Device, curve: Curve, suite: AuthSuite, sessions: nat)
    requires dev.Idle() && Recorded(dev, curve)
    modifies dev
    ensures dev.Idle() && Recorded(dev, curve)
    ensures old(dev.history) <= dev.history && old(dev.trace) <= dev.trace
    ensures forall i, j :: 0 <= i < j < |dev.trace| && NoDelete(Actions(dev.trace), i, j)
                           && dev.trace[i].action.Prepared? && dev.trace[j].action.Prepared? ==>
              dev.trace[i].action.id == dev.trace[j].action.id
    ensures forall i :: 0 <= i < |dev.trace| && NoDelete(Actions(dev.trace), i, |dev.trace|)
                        && dev.trace[i].action.Prepared? ==>
              Holder(dev.suite, dev.disk) == Some(dev.trace[i].action.id)
    ensures Tidy(dev.suite, dev.history[0]) ==> forall j :: 0 <= j < |dev.history| ==> Tidy(dev.suite, dev.history[j])
  {
    for n := 0 to sessions
      invariant dev.Idle() && Recorded(dev, curve)
      invariant old(dev.history) <= dev.history && old(dev.trace) <= dev.trace
    {
      OneLife(dev, curve, suite);
    }
    hide Told;
    forall i, j | 0 <= i < j < |dev.trace| && NoDelete(Actions(dev.trace), i, j)
                  && dev.trace[i].action.Prepared? && dev.trace[j].action.Prepared?
      ensures dev.trace[i].action.id == dev.trace[j].action.id
    {
      TraceIsStable(dev.suite, curve, dev.history, dev.trace, i, j);
    }
    forall i | 0 <= i < |dev.trace| && NoDelete(Actions(dev.trace), i, |dev.trace|) && dev.trace[i].action.Prepared?
      ensures Holder(dev.suite, dev.disk) == Some(dev.trace[i].action.id)
    {
      TraceKeepsServed(dev.suite, curve, dev.history, dev.trace, i);
    }
    forall j | 0 <= j < |dev.history| && Tidy(dev.suite, dev.history[0])
      ensures Tidy(dev.suite, dev.history[j])
    {
      HistoryIsTidy(dev.suite, curve, dev.history, dev.trace, j);
    }
  }

  /** The same from the first start on, whatever the store holds then. */
  method FromFirstStart(suite: Suite, disk: Disk, curve: Curve, auth: AuthSuite, sessions: nat) returns (dev: Device)
    ensures fresh(dev) && dev.suite == suite && dev.Idle() && Recorded(dev, curve) && dev.history[0] == disk
    ensures forall i, j :: 0 <= i < j < |dev.trace| && NoDelete(Actions(dev.trace), i, j)
                           && dev.trace[i].action.Prepared? && dev.trace[j].action.Prepared? ==>
              dev.trace[i].action.id == dev.trace[j].action.id
    ensures forall i :: 0 <= i < |dev.trace| && NoDelete(Actions(dev.trace), i, |dev.trace|)
                        && dev.trace[i].action.Prepared? ==>
              Holder(suite, dev.disk) == Some(dev.trace[i].action.id)
    ensures Tidy(suite, disk) ==> forall j :: 0 <= j < |dev.history| ==> Tidy(suite, dev.history[j])
  {
    dev := new Device(suite, disk);
    Live(dev, curve, auth, sessions);
  }
}
