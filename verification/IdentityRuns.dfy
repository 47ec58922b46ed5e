/** Whole lives of the identity store: starts, resets, faults and losses of power in any order. */
module IdentityRuns {
  import opened Bytes
  import opened IdentityRecord
  import opened Deeds
  import opened Hardware
  import opened Crypto
  import opened IdentityStore

  const EMPTY := Disk(None, None)

  /** The results a load may give on this store under any faults. */
  ghost predicate LoadAnswers(s: Suite, d: Disk, mainAnswer: LoadResult, stagedAnswer: LoadResult) {
    && mainAnswer in {Answer(s, d.main), StorageError, CryptoError}
    && (mainAnswer in {NotFound, Corrupt} ==> stagedAnswer in {Answer(s, d.tmp), StorageError, CryptoError})
  }

  ghost predicate LoadStep(s: Suite, d: Disk, r: LoadResult, d': Disk) {
    exists m, t :: LoadAnswers(s, d, m, t) && r == CombinedResult(m, t) && LoadMoves(d, r, m, d', false)
  }

  ghost predicate SaveStep(s: Suite, d: Disk, id: Identity, success: bool, d': Disk) {
    exists iv :: SaveEnds(d, Encode(s, id, iv), success, d')
  }

  /** What the app generates: a key it can install, under a uid whose first byte marks it as random. */
  predicate Generated(c: Curve, id: Identity) {
    UsableKey(c, id) && id.uid[0] == 0x08
  }

  ghost predicate SaveCut(s: Suite, c: Curve, d: Disk, d': Disk) {
    exists id, iv :: Generated(c, id) && SaveCrash(d, Encode(s, id, iv), d')
  }

  /** One action of the app. Only a usable key is served, and a save happens only on a store
      without either file and of a generated identity. */
  ghost predicate Next(s: Suite, c: Curve, d: Disk, a: Action, d': Disk) {
    match a
    case Prepared(id) =>
      || (LoadStep(s, d, Ok, d') && Holder(s, d) == Some(id) && UsableKey(c, id))
      || (d == EMPTY && Generated(c, id) && SaveStep(s, d, id, true, d'))
    case PrepareFailed =>
      || (exists r :: LoadStep(s, d, r, d'))
      || (d == EMPTY && exists id :: Generated(c, id) && SaveStep(s, d, id, false, d'))
    case PrepareCrashed =>
      || d' == d
      || LoadCrash(s, d, d')
      || (d == EMPTY && SaveCut(s, c, d, d'))
    case Deleted(reported) => DeleteEnds(d, reported, d')
    case DeleteCrashed => DeleteCrash(d, d')
  }

  ghost predicate Run(s: Suite, c: Curve, disks: seq<Disk>, acts: seq<Action>) {
    && |disks| == |acts| + 1
    && forall i :: 0 <= i < |acts| ==> Next(s, c, disks[i], acts[i], disks[i + 1])
  }

  ghost predicate NoDelete(acts: seq<Action>, from: nat, to: nat)
    requires from <= to <= |acts|
  {
    forall i :: from <= i < to ==> !acts[i].Deletes()
  }

  /** The result of a load in which no call fails. */
  function FaultFree(s: Suite, d: Disk): LoadResult {
    CombinedResult(Answer(s, d.main), Answer(s, d.tmp))
  }

  /** The decision table of a fault-free load. */
  lemma FaultFreeTable(s: Suite, d: Disk)
    ensures FaultFree(s, d) == Ok <==> Holder(s, d).Some?
    ensures FaultFree(s, d) == NotFound <==> d == EMPTY
    ensures FaultFree(s, d) == Corrupt <==> Holder(s, d).None? && d != EMPTY
  {
  }

  /** Under faults a load may refuse, or call a store corrupt whose staged file it could not read.
      Still it reports an identity only when the store holds one and absence only when both files
      are absent, and an error of the main file is not masked by the staged one. */
  lemma FaultyTable(s: Suite, d: Disk, mainAnswer: LoadResult, stagedAnswer: LoadResult)
    requires LoadAnswers(s, d, mainAnswer, stagedAnswer)
    ensures var r := CombinedResult(mainAnswer, stagedAnswer);
            && (r == Ok ==> FaultFree(s, d) == Ok)
            && (r == NotFound ==> FaultFree(s, d) == NotFound)
            && (r == Corrupt ==> Answer(s, d.main) != Ok && d != EMPTY && stagedAnswer != Ok)
            && (mainAnswer == StorageError || mainAnswer == CryptoError ==> r == mainAnswer)
            && (mainAnswer == NotFound ==> r == stagedAnswer)
            && (mainAnswer == Corrupt ==> r == if stagedAnswer == Ok then Ok else Corrupt)
  {
  }

  /** When a store with one file loads, byte by byte: a 96-byte file by its header and the code over its
      first 64 bytes, a 68-byte file by its header and checksum, any other never. */
  lemma LoadedByItsBytes(s: Suite, f: bytes, d: Disk)
    requires d in {Disk(Some(f), None), Disk(None, Some(f))}
    ensures FaultFree(s, d) in {Ok, Corrupt}
    ensures |f| == 96 ==>
              (FaultFree(s, d) == Ok <==>
                 && f[0..8] == [0x54, 0x4B, 0x43, 0x46, 0x5A, 0x30, 0x30, 0x31] && f[8] == 2 && f[9] == 4
                 && f[64..96] == s.hmac(s.encrypt(Zeros(16), MAC_DERIVATION), f[..64]))
    ensures |f| == 68 ==>
              (FaultFree(s, d) == Ok <==>
                 && f[0..8] == [0x54, 0x4B, 0x43, 0x46, 0x5A, 0x30, 0x30, 0x31] && f[8] == 1 && f[9] == 4
                 && f[64..68] == s.crc(f[..64]))
    ensures |f| !in {68, 96} ==> FaultFree(s, d) == Corrupt
    ensures FaultFree(s, d) == Ok ==> Holder(s, d) == Some(Identity(f[10..14], s.decrypt(f[16..32], f[32..64])))
  {
    AnswerByBytes(s, Some(f));
    AnswerByBytes(s, None);
  }

  /** A write cut short is not an identity, a finished one is its own. */
  lemma StagedAnswer(s: Suite, id: Identity, iv: Iv, k: nat)
    requires k <= RECORD_SIZE
    ensures Decode(s, Encode(s, id, iv)[..k]) == if k == RECORD_SIZE then Some(id) else None
  {
    if k == RECORD_SIZE {
      assert Encode(s, id, iv)[..k] == Encode(s, id, iv);
      RoundTrip(s, id, iv);
    } else {
      TornWriteRejected(s, id, iv, k);
    }
  }

  /** Power lost anywhere in a save: the next fault-free load finds the old or the new identity
      when there was an old one, and otherwise nothing, a torn record, or the new identity. */
  lemma SaveIsAtomic(s: Suite, before: Disk, id: Identity, iv: Iv, d: Disk)
    requires SaveCrash(before, Encode(s, id, iv), d)
    ensures Answer(s, before.main) == Ok ==>
              FaultFree(s, d) == Ok && Holder(s, d) in {Holder(s, before), Some(id)}
    ensures before == EMPTY ==>
              && FaultFree(s, d) in {NotFound, Corrupt, Ok}
              && (FaultFree(s, d) == Ok ==> Holder(s, d) == Some(id))
  {
    RoundTrip(s, id, iv);
    if before == EMPTY && d.main == None && d.tmp.Some? && d.tmp != Some(Encode(s, id, iv)) {
      var k: nat :| k <= RECORD_SIZE && d.tmp == Some(Encode(s, id, iv)[..k]);
      StagedAnswer(s, id, iv, k);
    }
  }

  /** What a completed save leaves for the next fault-free load. */
  lemma SaveOutcome(s: Suite, before: Disk, id: Identity, iv: Iv, success: bool, d: Disk)
    requires SaveEnds(before, Encode(s, id, iv), success, d)
    ensures success ==> FaultFree(s, d) == Ok && Holder(s, d) == Some(id) && d.tmp == None
    ensures !success && Answer(s, before.main) == Ok ==> Holder(s, d) == Holder(s, before)
  {
    RoundTrip(s, id, iv);
  }

  /** One step keeps the identity a store holds, and serves no other. */
  lemma StepKeepsHolder(s: Suite, c: Curve, d: Disk, a: Action, d': Disk)
    requires Next(s, c, d, a, d') && !a.Deletes()
    ensures Holder(s, d).Some? ==> Holder(s, d') == Holder(s, d) && (a.Prepared? ==> Some(a.id) == Holder(s, d))
    ensures a.Prepared? ==> Holder(s, d') == Some(a.id)
  {
    if a.Prepared? && d == EMPTY && SaveStep(s, d, a.id, true, d') {
      var iv :| SaveEnds(d, Encode(s, a.id, iv), true, d');
      RoundTrip(s, a.id, iv);
    }
  }

  lemma {:induction false} RunKeepsHolder(s: Suite, c: Curve, disks: seq<Disk>, acts: seq<Action>, i: nat, j: nat)
    requires Run(s, c, disks, acts) && i <= j <= |acts| && NoDelete(acts, i, j)
    requires Holder(s, disks[i]).Some?
    ensures Holder(s, disks[j]) == Holder(s, disks[i])
    decreases j - i
  {
    hide Next, Holder;
    if i < j {
      StepKeepsHolder(s, c, disks[i], acts[i], disks[i + 1]);
      RunKeepsHolder(s, c, disks, acts, i + 1, j);
    }
  }

  /** Identity stability, from any store: between deletes, through faults and losses of power at
      any point, every prepare that succeeds serves the same uid and private key. */
  lemma IdentityIsStable(s: Suite, c: Curve, disks: seq<Disk>, acts: seq<Action>, i: nat, j: nat)
    requires Run(s, c, disks, acts) && i < j < |acts| && NoDelete(acts, i, j)
    requires acts[i].Prepared? && acts[j].Prepared?
    ensures acts[j].id == acts[i].id
  {
    hide Next, Holder;
    StepKeepsHolder(s, c, disks[i], acts[i], disks[i + 1]);
    RunKeepsHolder(s, c, disks, acts, i + 1, j);
    StepKeepsHolder(s, c, disks[j], acts[j], disks[j + 1]);
  }

  /** Once served, an identity stays loadable: at any later point before a delete a fault-free load returns it. */
  lemma ServedIdentityIsKept(s: Suite, c: Curve, disks: seq<Disk>, acts: seq<Action>, i: nat, j: nat)
    requires Run(s, c, disks, acts) && i < j <= |acts| && NoDelete(acts, i, j) && acts[i].Prepared?
    ensures FaultFree(s, disks[j]) == Ok && Holder(s, disks[j]) == Some(acts[i].id)
  {
    hide Next;
    StepKeepsHolder(s, c, disks[i], acts[i], disks[i + 1]);
    RunKeepsHolder(s, c, disks, acts, i + 1, j);
  }

  /** The stores an app reaches from nothing or from one good record: never both files, and
      identity.bin is never torn. */
  ghost predicate Tidy(s: Suite, d: Disk) {
    (d.main == None || d.tmp == None) && Answer(s, d.main) != Corrupt
  }

  lemma StepKeepsTidy(s: Suite, c: Curve, d: Disk, a: Action, d': Disk)
    requires Tidy(s, d) && Next(s, c, d, a, d')
    ensures Tidy(s, d')
  {
    match a
    case Prepared(id) =>
      if d == EMPTY && SaveStep(s, d, id, true, d') {
        var iv :| SaveEnds(d, Encode(s, id, iv), true, d');
        RoundTrip(s, id, iv);
      }
    case PrepareCrashed =>
      if d == EMPTY && SaveCut(s, c, d, d') {
        var id, iv :| Generated(c, id) && SaveCrash(d, Encode(s, id, iv), d');
        RoundTrip(s, id, iv);
      }
    case _ =>
  }

  /** Every store of every run from a tidy one is tidy, so two records never coexist. */
  lemma {:induction false} ReachableStoresAreTidy(s: Suite, c: Curve, disks: seq<Disk>, acts: seq<Action>, j: nat)
    requires Run(s, c, disks, acts) && j <= |acts| && Tidy(s, disks[0])
    ensures Tidy(s, disks[j])
  {
    hide Next;
    if j > 0 {
      ReachableStoresAreTidy(s, c, disks, acts, j - 1);
      StepKeepsTidy(s, c, disks[j - 1], acts[j - 1], disks[j]);
    }
  }

  /** The stores a start can succeed on: the empty one, and those whose identity has a usable key. */
  predicate Startable(s: Suite, c: Curve, d: Disk) {
    d == EMPTY || (Holder(s, d).Some? && UsableKey(c, Holder(s, d).value))
  }

  /** Freshness of a single step: an identity that appears on an empty store was generated and written by that step. */
  lemma EmptyStep(s: Suite, c: Curve, a: Action, d': Disk) returns (iv: Iv)
    requires Next(s, c, EMPTY, a, d') && !a.Deletes() && Holder(s, d').Some?
    ensures Generated(c, Holder(s, d').value) && SaveCrash(EMPTY, Encode(s, Holder(s, d').value, iv), d')
  {
    var id;
    match a {
      case Prepared(saved) =>
        id := saved;
        iv :| SaveEnds(EMPTY, Encode(s, id, iv), true, d');
      case PrepareFailed =>
        var failed :| Generated(c, failed) && SaveStep(s, EMPTY, failed, false, d');
        id := failed;
        iv :| SaveEnds(EMPTY, Encode(s, id, iv), false, d');
      case PrepareCrashed =>
        id, iv :| Generated(c, id) && SaveCrash(EMPTY, Encode(s, id, iv), d');
    }
    SaveIsAtomic(s, EMPTY, id, iv, d');
  }

  lemma StuckStep(s: Suite, c: Curve, d: Disk, a: Action, d': Disk)
    requires Next(s, c, d, a, d') && !a.Deletes() && !Startable(s, c, d)
    ensures !Startable(s, c, d') && Holder(s, d') == Holder(s, d) && !a.Prepared?
    ensures FaultFree(s, d) == Corrupt ==> d' == d
  {
    StepKeepsHolder(s, c, d, a, d');
  }

  /** On any other store no prepare ever succeeds until a delete: what it holds, if anything, stays,
      and a corrupt store stays as it is to the byte. */
  lemma {:induction false} StuckStore(s: Suite, c: Curve, disks: seq<Disk>, acts: seq<Action>, i: nat, j: nat)
    requires Run(s, c, disks, acts) && i <= j < |acts| && NoDelete(acts, i, j + 1)
    requires !Startable(s, c, disks[i])
    ensures !acts[j].Prepared? && !Startable(s, c, disks[j + 1])
    ensures Holder(s, disks[j + 1]) == Holder(s, disks[i])
    ensures FaultFree(s, disks[i]) == Corrupt ==> disks[j + 1] == disks[i]
    decreases j
  {
    hide Next, FaultFree, Startable, Holder;
    if j > i {
      StuckStore(s, c, disks, acts, i, j - 1);
    }
    StuckStep(s, c, disks[j], acts[j], disks[j + 1]);
  }

  /** A run without deletes from d whose j-th action is a successful prepare. */
  ghost predicate ComesUp(s: Suite, c: Curve, d: Disk, disks: seq<Disk>, acts: seq<Action>, j: nat) {
    Run(s, c, disks, acts) && disks[0] == d && j < |acts| && NoDelete(acts, 0, j + 1) && acts[j].Prepared?
  }

  /** Without a reset the app can come up on a store if and only if the store is empty or the
      identity it holds has a usable key. */
  lemma StartableIff(s: Suite, c: Curve, d: Disk)
    ensures (exists disks, acts, j :: ComesUp(s, c, d, disks, acts, j))
            <==> d == EMPTY || (Holder(s, d).Some? && UsableKey(c, Holder(s, d).value))
  {
    if Startable(s, c, d) {
      var id, d' := OneStart(s, c, d);
      assert ComesUp(s, c, d, [d, d'], [Prepared(id)], 0);
    } else {
      forall disks, acts, j | ComesUp(s, c, d, disks, acts, j)
        ensures false
      {
        StuckStore(s, c, disks, acts, 0, j);
      }
    }
  }

  lemma OneStart(s: Suite, c: Curve, d: Disk) returns (id: Identity, d': Disk)
    requires Startable(s, c, d)
    ensures Next(s, c, d, Prepared(id), d')
  {
    if d == EMPTY {
      id := OneIsUsable(c, [0x08, 0, 0, 0]);
      d' := Disk(Some(Encode(s, id, ZERO_IV)), None);
      assert SaveEnds(d, Encode(s, id, ZERO_IV), true, d');
      assert SaveStep(s, d, id, true, d');
    } else {
      id := Holder(s, d).value;
      d' := LoadStepFrom(s, d);
    }
  }

  /** A store that holds an identity can be loaded, whether or not the staged file is then renamed. */
  lemma LoadStepFrom(s: Suite, d: Disk) returns (d': Disk)
    requires Holder(s, d).Some?
    ensures LoadStep(s, d, Ok, d')
    ensures d' == if Answer(s, d.main) == Ok then d else Moved(d)
    ensures LoadStep(s, d, Ok, d)
  {
    var m, t := Answer(s, d.main), Answer(s, d.tmp);
    d' := if m == Ok then d else Moved(d);
    assert LoadAnswers(s, d, m, t) && Ok == CombinedResult(m, t);
    assert LoadMoves(d, Ok, m, d', false) && LoadMoves(d, Ok, m, d, false);
  }

  /** The first save torn by a loss of power: possible for every identity the app generates, and then
      every start fails until a reset, which is sure to be fresh. */
  lemma TornFirstSaveBlocksStarts(s: Suite, c: Curve, id: Identity, iv: Iv, k: nat)
    requires Generated(c, id) && k < RECORD_SIZE
    ensures var torn := Disk(None, Some(Encode(s, id, iv)[..k]));
            && Next(s, c, EMPTY, PrepareCrashed, torn)
            && FaultFree(s, torn) == Corrupt && !Startable(s, c, torn)
            && ResetIsFresh(s, c, torn)
  {
    StagedAnswer(s, id, iv, k);
    var torn := Disk(None, Some(Encode(s, id, iv)[..k]));
    assert SaveCrash(EMPTY, Encode(s, id, iv), torn);
    assert SaveCut(s, c, EMPTY, torn);
    ResetIsFreshIff(s, c, torn);
  }

  /** A delete that reports success empties the store in every case if and only if no staged file was there. */
  lemma ReportedDeleteEmptiesIff(d: Disk)
    ensures (forall d' :: DeleteEnds(d, true, d') ==> d' == EMPTY) <==> d.tmp == None
  {
    assert DeleteEnds(d, true, Disk(None, d.tmp));
  }

  /** The store of an identity generated and saved just before, under some IV. */
  ghost predicate NewlySaved(s: Suite, c: Curve, id: Identity, d: Disk) {
    Generated(c, id) && exists iv :: d == Disk(Some(Encode(s, id, iv)), None)
  }

  /** The staged file is a whole record, and its key can be installed. */
  predicate StagedIsUsable(s: Suite, c: Curve, d: Disk) {
    Answer(s, d.tmp) == Ok && UsableKey(c, Decode(s, d.tmp.value).value)
  }

  /** What a prepare serves after a delete that reported success: a newly saved identity when the
      delete emptied the store, and otherwise the one of the staged file the delete left behind. */
  lemma ResetOutcome(s: Suite, c: Curve, d: Disk, mid: Disk, id: Identity, d': Disk)
    requires DeleteEnds(d, true, mid) && Next(s, c, mid, Prepared(id), d')
    ensures if mid == EMPTY then NewlySaved(s, c, id, d')
            else StagedIsUsable(s, c, d) && mid.tmp == d.tmp && Decode(s, d.tmp.value) == Some(id)
  {
    if mid == EMPTY {
      var iv :| SaveEnds(mid, Encode(s, id, iv), true, d');
    }
  }

  /** A reset on this store whose delete reports success serves only newly saved identities. */
  ghost predicate ResetIsFresh(s: Suite, c: Curve, d: Disk) {
    forall mid, id, d' :: DeleteEnds(d, true, mid) && Next(s, c, mid, Prepared(id), d') ==>
      mid == EMPTY && NewlySaved(s, c, id, d')
  }

  /** A reported reset replaces the identity in every case if and only if there is no complete
      staged file with a usable key; a torn staged file does no harm. */
  lemma ResetIsFreshIff(s: Suite, c: Curve, d: Disk)
    ensures ResetIsFresh(s, c, d) <==> !(Answer(s, d.tmp) == Ok && UsableKey(c, Decode(s, d.tmp.value).value))
  {
    if StagedIsUsable(s, c, d) {
      var mid := Disk(None, d.tmp);
      var id := Decode(s, d.tmp.value).value;
      var d' := LoadStepFrom(s, mid);
      assert DeleteEnds(d, true, mid) && Next(s, c, mid, Prepared(id), d');
    } else {
      forall mid, id, d' | DeleteEnds(d, true, mid) && Next(s, c, mid, Prepared(id), d')
        ensures mid == EMPTY && NewlySaved(s, c, id, d')
      {
        ResetOutcome(s, c, d, mid, id, d');
      }
    }
  }

  /** Step k of a run found the store empty and wrote this identity, just generated. */
  ghost predicate WrittenAt(s: Suite, c: Curve, disks: seq<Disk>, k: nat, id: Identity)
    requires k + 1 < |disks|
  {
    disks[k] == EMPTY && Generated(c, id) && exists iv :: SaveCrash(EMPTY, Encode(s, id, iv), disks[k + 1])
  }

  /** Whatever the store holds after it was found empty at step i was generated and written since. */
  lemma {:induction false} HeldWasWritten(s: Suite, c: Curve, disks: seq<Disk>, acts: seq<Action>, i: nat, j: nat)
    requires Run(s, c, disks, acts) && i <= j <= |acts| && NoDelete(acts, i, j)
    requires disks[i] == EMPTY && Holder(s, disks[j]).Some?
    ensures exists k: nat :: i <= k < j && WrittenAt(s, c, disks, k, Holder(s, disks[j]).value)
    decreases j
  {
    hide Next, Generated, SaveCrash;
    assert j > i;
    var n := j - 1;
    assert Next(s, c, disks[n], acts[n], disks[j]);
    if Holder(s, disks[n]).Some? {
      HeldWasWritten(s, c, disks, acts, i, n);
      StepKeepsHolder(s, c, disks[n], acts[n], disks[j]);
    } else if disks[n] == EMPTY {
      var iv := EmptyStep(s, c, acts[n], disks[j]);
      assert WrittenAt(s, c, disks, n, Holder(s, disks[j]).value);
    } else {
      StuckStep(s, c, disks[n], acts[n], disks[j]);
    }
  }

  /** A reset is fresh for good: after a reported delete of a store without a complete and usable staged
      file, every prepare that succeeds before the next delete serves an identity generated and written
      since, on the store the delete had emptied, through any failed and crashed saves in between. */
  lemma ResetStaysFresh(s: Suite, c: Curve, disks: seq<Disk>, acts: seq<Action>, i: nat, j: nat)
    requires Run(s, c, disks, acts) && i < j < |acts| && NoDelete(acts, i + 1, j)
    requires acts[i] == Deleted(true) && !StagedIsUsable(s, c, disks[i]) && acts[j].Prepared?
    ensures disks[i + 1] == EMPTY
    ensures exists k: nat :: i < k <= j && WrittenAt(s, c, disks, k, acts[j].id)
  {
    assert DeleteEnds(disks[i], true, disks[i + 1]) by {
      assert Next(s, c, disks[i], acts[i], disks[i + 1]);
    }
    hide Next, Startable, StagedIsUsable, Holder, WrittenAt, DeleteEnds;
    if disks[i + 1] != EMPTY {
      NotStartableWithoutMain(s, c, disks[i], disks[i + 1]);
      StuckStore(s, c, disks, acts, i + 1, j);
    }
    StepKeepsHolder(s, c, disks[j], acts[j], disks[j + 1]);
    HeldWasWritten(s, c, disks, acts, i + 1, j + 1);
  }

  lemma NotStartableWithoutMain(s: Suite, c: Curve, d: Disk, mid: Disk)
    requires DeleteEnds(d, true, mid) && mid != EMPTY && !StagedIsUsable(s, c, d)
    ensures !Startable(s, c, mid)
  {
  }

  /** From first start to the failure: the first save loses power after the record is complete, the
      next start serves it without getting the rename done, and the reset that reports success
      serves the very identity it was to replace. */
  lemma ResetCanKeepIdentity(s: Suite, c: Curve, id: Identity, iv: Iv)
    requires Generated(c, id)
    ensures var staged := Disk(None, Some(Encode(s, id, iv)));
            var disks := [EMPTY, staged, staged, staged, Moved(staged)];
            Run(s, c, disks, [PrepareCrashed, Prepared(id), Deleted(true), Prepared(id)])
  {
    RoundTrip(s, id, iv);
    var staged := Disk(None, Some(Encode(s, id, iv)));
    assert SaveCrash(EMPTY, Encode(s, id, iv), staged) && SaveCut(s, c, EMPTY, staged);
    var moved := LoadStepFrom(s, staged);
  }

  /** A delete that reports failure keeps the identity in every case if and only if the main file
      holds it or there was none: the staged file is removed all the same. */
  lemma FailedDeleteKeepsIdentityIff(s: Suite, d: Disk)
    ensures (forall d' :: DeleteEnds(d, false, d') ==> Holder(s, d') == Holder(s, d))
            <==> Answer(s, d.main) == Ok || Answer(s, d.tmp) != Ok
  {
    assert DeleteEnds(d, false, Disk(d.main, None));
  }

  /** The store passes through no other state between these positions of the history. */
  ghost predicate Still(h: seq<Disk>, from: nat, to: nat)
    requires from <= to < |h|
  {
    forall j :: from <= j <= to ==> h[j] == h[from]
  }

  /** An action between two positions of the history: its whole step, and at every position before its
      end the step it has taken should power be lost there. */
  ghost predicate Done(s: Suite, c: Curve, h: seq<Disk>, deed: Deed): (done: bool)
    ensures done ==> deed.from < deed.to < |h|
  {
    && deed.from < deed.to < |h|
    && Next(s, c, h[deed.from], deed.action, h[deed.to])
    && forall j :: deed.from <= j < deed.to ==> Next(s, c, h[deed.from], deed.action.Crashed(), h[j])
  }

  /** The trace accounts for the history: one deed after the other, and nothing moves in between. */
  ghost predicate Told(s: Suite, c: Curve, h: seq<Disk>, trace: seq<Deed>): (told: bool)
    ensures told ==> h != []
  {
    if trace == [] then h != [] && Still(h, 0, |h| - 1)
    else
      var last := trace[|trace| - 1];
      && Done(s, c, h, last) && Still(h, last.to, |h| - 1)
      && Told(s, c, h[..last.from + 1], trace[..|trace| - 1])
  }

  /** The trace of a device accounts for its history, which ends with the store as it is. */
  ghost predicate Recorded(dev: Device, c: Curve)
    reads dev`disk, dev`history, dev`trace
  {
    Told(dev.suite, c, dev.history, dev.trace) && dev.history[|dev.history| - 1] == dev.disk
  }

  function Actions(trace: seq<Deed>): (acts: seq<Action>)
    ensures |acts| == |trace|
  {
    seq(|trace|, i requires 0 <= i < |trace| => trace[i].action)
  }

  lemma ActionsGrow(trace: seq<Deed>, deed: Deed)
    ensures Actions(trace + [deed]) == Actions(trace) + [deed.action]
  {
  }

  lemma DoneInBoth(s: Suite, c: Curve, h: seq<Disk>, h': seq<Disk>, deed: Deed)
    requires Done(s, c, h, deed) && deed.to < |h'| && h[..deed.to + 1] == h'[..deed.to + 1]
    ensures Done(s, c, h', deed)
  {
    hide Next;
    assert forall j :: 0 <= j <= deed.to ==> h[..deed.to + 1][j] == h[j] && h'[..deed.to + 1][j] == h'[j];
  }

  /** Nothing happens. */
  lemma ToldWhileStill(s: Suite, c: Curve, h: seq<Disk>, h': seq<Disk>, trace: seq<Deed>)
    requires Told(s, c, h, trace) && h <= h'
    requires forall j :: |h| <= j < |h'| ==> h'[j] == h[|h| - 1]
    ensures Told(s, c, h', trace)
  {
    hide Next, Done;
    if trace != [] {
      var last := trace[|trace| - 1];
      assert h'[..last.from + 1] == h[..last.from + 1];
      DoneInBoth(s, c, h, h', last);
    }
  }

  lemma ToldOneMore(s: Suite, c: Curve, h: seq<Disk>, trace: seq<Deed>, deed: Deed)
    requires Done(s, c, h, deed) && deed.to == |h| - 1 && Told(s, c, h[..deed.from + 1], trace)
    ensures Told(s, c, h, trace + [deed])
  {
    hide Done;
    assert (trace + [deed])[..|trace|] == trace;
  }

  lemma CrashedAtOnce(s: Suite, c: Curve, d: Disk, a: Action)
    ensures Next(s, c, d, a.Crashed(), d)
  {
  }

  /** One more action, from the end of the history on. */
  lemma ToldExtends(s: Suite, c: Curve, h: seq<Disk>, h': seq<Disk>, trace: seq<Deed>, a: Action)
    requires Told(s, c, h, trace) && h <= h' && |h| + 2 <= |h'| && h'[|h|] == h[|h| - 1]
    requires Next(s, c, h[|h| - 1], a, h'[|h'| - 1])
    requires forall j :: |h| < j < |h'| - 1 ==> Next(s, c, h[|h| - 1], a.Crashed(), h'[j])
    ensures Told(s, c, h', trace + [Deed(a, |h|, |h'| - 1)])
  {
    hide Next, Told;
    var deed := Deed(a, |h|, |h'| - 1);
    var begun := h + [h[|h| - 1]];
    ToldWhileStill(s, c, h, begun, trace);
    assert h'[..|h| + 1] == begun;
    DoneFrom(s, c, h', deed);
    hide Done;
    ToldOneMore(s, c, h', trace, deed);
  }

  lemma DoneFrom(s: Suite, c: Curve, h: seq<Disk>, deed: Deed)
    requires deed.from < deed.to < |h| && Next(s, c, h[deed.from], deed.action, h[deed.to])
    requires forall j :: deed.from < j < deed.to ==> Next(s, c, h[deed.from], deed.action.Crashed(), h[j])
    ensures Done(s, c, h, deed)
  {
    hide Next;
    CrashedAtOnce(s, c, h[deed.from], deed.action);
  }

  /** An action cut at position i is its crashed self. */
  lemma DoneWhenCut(s: Suite, c: Curve, h: seq<Disk>, deed: Deed, i: nat)
    requires Done(s, c, h, deed) && deed.from <= i < deed.to
    ensures Done(s, c, h[..i + 1] + [h[i]], Deed(deed.action.Crashed(), deed.from, i + 1))
  {
    hide Next;
  }

  lemma ToldWhenCutLater(s: Suite, c: Curve, h: seq<Disk>, trace: seq<Deed>, i: nat)
    requires Told(s, c, h, trace) && i < |h| && (trace != [] ==> trace[|trace| - 1].to <= i)
    ensures Told(s, c, h[..i + 1] + [h[i]], trace)
  {
    hide Next, Done;
    if trace != [] {
      var left, last := h[..i + 1] + [h[i]], trace[|trace| - 1];
      assert left[..last.from + 1] == h[..last.from + 1];
      DoneInBoth(s, c, h, left, last);
    }
  }

  /** Power lost anywhere: the history up to there is accounted for by the deeds completed by then
      and the one under way, as crashed. */
  lemma {:induction false} ToldWhenCut(s: Suite, c: Curve, h: seq<Disk>, trace: seq<Deed>, i: nat)
    requires Told(s, c, h, trace) && i < |h|
    ensures Told(s, c, h[..i + 1] + [h[i]], CutTrace(trace, i))
  {
    hide Next, Done;
    if trace == [] || trace[|trace| - 1].to <= i {
      ToldWhenCutLater(s, c, h, trace, i);
    } else {
      var init, last := trace[..|trace| - 1], trace[|trace| - 1];
      var left, begun := h[..i + 1] + [h[i]], h[..last.from + 1];
      if last.from <= i {
        DoneWhenCut(s, c, h, last, i);
        assert left[..last.from + 1] == begun;
        ToldOneMore(s, c, left, init, Deed(last.action.Crashed(), last.from, i + 1));
      } else {
        ToldWhenCut(s, c, begun, init, i);
        assert begun[..i + 1] == h[..i + 1];
      }
    }
  }

  /** What was over by the time power is lost stays in the trace. */
  lemma {:induction false} CutKeepsWhatWasOver(s: Suite, c: Curve, h: seq<Disk>, was: seq<Deed>,
                                              trace: seq<Deed>, i: nat)
    requires Told(s, c, h, was) && was <= trace && |h| <= i + 1
    ensures was <= CutTrace(trace, i)
  {
    hide Next;
    if trace != was {
      var init, last := trace[..|trace| - 1], trace[|trace| - 1];
      assert was <= init;
      CutKeepsWhatWasOver(s, c, h, was, init, i);
    } else if trace != [] {
      assert Done(s, c, h, trace[|trace| - 1]);
    }
  }

  /** A history with its trace is a run. */
  lemma {:induction false} TraceIsRun(s: Suite, c: Curve, h: seq<Disk>, trace: seq<Deed>) returns (disks: seq<Disk>)
    requires Told(s, c, h, trace)
    ensures Run(s, c, disks, Actions(trace)) && disks[0] == h[0] && disks[|trace|] == h[|h| - 1]
  {
    hide Next;
    if trace == [] {
      disks := [h[0]];
    } else {
      var init, last := trace[..|trace| - 1], trace[|trace| - 1];
      var before := TraceIsRun(s, c, h[..last.from + 1], init);
      disks := before + [h[|h| - 1]];
      ActionsGrow(init, last);
      assert init + [last] == trace;
      forall k | 0 <= k < |trace|
        ensures Next(s, c, disks[k], Actions(trace)[k], disks[k + 1])
      {
        if k < |init| {
          assert Next(s, c, before[k], Actions(init)[k], before[k + 1]);
        }
      }
    }
  }

  /** Identity stability in terms of what was done: in a history told by its trace, every successful
      prepare between two deletes served the same identity. */
  lemma TraceIsStable(s: Suite, c: Curve, h: seq<Disk>, trace: seq<Deed>, i: nat, j: nat)
    requires Told(s, c, h, trace) && i < j < |trace| && NoDelete(Actions(trace), i, j)
    requires trace[i].action.Prepared? && trace[j].action.Prepared?
    ensures trace[j].action.id == trace[i].action.id
  {
    hide Told, Run;
    var disks := TraceIsRun(s, c, h, trace);
    IdentityIsStable(s, c, disks, Actions(trace), i, j);
  }

  /** And what was served with no delete since is what the store holds at the end. */
  lemma TraceKeepsServed(s: Suite, c: Curve, h: seq<Disk>, trace: seq<Deed>, i: nat)
    requires Told(s, c, h, trace) && i < |trace| && NoDelete(Actions(trace), i, |trace|)
    requires trace[i].action.Prepared?
    ensures FaultFree(s, h[|h| - 1]) == Ok && Holder(s, h[|h| - 1]) == Some(trace[i].action.id)
  {
    hide Told, Run, FaultFree, Holder;
    var disks := TraceIsRun(s, c, h, trace);
    ServedIdentityIsKept(s, c, disks, Actions(trace), i, |trace|);
  }

  /** Every state the store ever passed through is tidy when the first one was, also inside an action. */
  lemma {:induction false} HistoryIsTidy(s: Suite, c: Curve, h: seq<Disk>, trace: seq<Deed>, j: nat)
    requires Told(s, c, h, trace) && Tidy(s, h[0]) && j < |h|
    ensures Tidy(s, h[j])
  {
    hide Next, Tidy;
    if trace != [] {
      var init, last := trace[..|trace| - 1], trace[|trace| - 1];
      var begun := h[..last.from + 1];
      HistoryIsTidy(s, c, begun, init, if j < last.from then j else last.from);
      if last.from <= j < last.to {
        StepKeepsTidy(s, c, h[last.from], last.action.Crashed(), h[j]);
      } else if last.to <= j {
        StepKeepsTidy(s, c, h[last.from], last.action, h[last.to]);
      }
    }
  }

  /** The identity the app is entitled to serve after these deeds. */
  function Serving(trace: seq<Deed>): Option<Identity> {
    if trace == [] then None
    else
      match trace[|trace| - 1].action
      case Prepared(id) => Some(id)
      case Deleted(reported) => if reported then None else Serving(trace[..|trace| - 1])
      case _ => None
  }

  lemma ServingAfter(trace: seq<Deed>, deed: Deed)
    ensures Serving(trace + [deed]) ==
            match deed.action
            case Prepared(id) => Some(id)
            case Deleted(reported) => if reported then None else Serving(trace)
            case _ => None
  {
    assert (trace + [deed])[..|trace|] == trace;
  }
}
