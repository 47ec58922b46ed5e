/** tesla_identity.c: loading, saving and deleting the identity over the two files. */
module IdentityStore {
  import opened Bytes
  import opened IdentityRecord
  import opened Deeds
  import opened Hardware

  datatype LoadResult = Ok | NotFound | Corrupt | StorageError | CryptoError

  const MAC_JOB := Encipher(ZERO_IV, MAC_DERIVATION)

  /** From position start on, the log holds only these AES jobs. */
  ghost predicate OnlyJobs(log: seq<EnclaveOp>, start: nat, allowed: set<Job>) {
    forall i :: start <= i < |log| && log[i].Work? ==> log[i].job in allowed
  }

  /** What one file answers when nothing fails. */
  function Answer(s: Suite, file: Option<bytes>): LoadResult {
    match file
    case None => NotFound
    case Some(f) => if Decode(s, f).Some? then Ok else Corrupt
  }

  /** The same from the bytes of the file. */
  lemma AnswerByBytes(s: Suite, file: Option<bytes>)
    ensures Answer(s, file) == Ok <==> IntactFile(s, file)
    ensures Answer(s, file) == NotFound <==> file == None
    ensures Answer(s, file) == Ok ==> Decode(s, file.value) == Some(IdentityIn(s, file.value))
  {
    if file.Some? {
      DecodedIffIntact(s, file.value);
    }
  }

  /** The identity a store holds: the main file's, or else the staged one's. */
  function Holder(s: Suite, d: Disk): Option<Identity> {
    if Answer(s, d.main) == Ok then Decode(s, d.main.value)
    else if Answer(s, d.tmp) == Ok then Decode(s, d.tmp.value)
    else None
  }

  function CombinedResult(mainAnswer: LoadResult, stagedAnswer: LoadResult): LoadResult {
    if mainAnswer != NotFound && mainAnswer != Corrupt then mainAnswer
    else if stagedAnswer == Ok || mainAnswer == NotFound then stagedAnswer
    else Corrupt
  }

  method MacEquals(first: Bytes32, second: Bytes32) returns (equal: bool)
    ensures equal <==> first == second
  {
    var difference: byte := 0;
    for i := 0 to 32
      invariant difference == 0 <==> first[..i] == second[..i]
    {
      assert first[..i + 1] == first[..i] + [first[i]] && second[..i + 1] == second[..i] + [second[i]];
      XorZero(first[i], second[i], difference);
      difference := difference | (first[i] ^ second[i]);
    }
    assert first[..32] == first && second[..32] == second;
    equal := difference == 0;
  }

  lemma XorZero(a: byte, b: byte, d: byte)
    ensures d | (a ^ b) == 0 <==> d == 0 && a == b
  {
  }

  method DeriveMacKey(dev: Device) returns (success: bool, macKey: Bytes32)
    requires dev.Idle()
    modifies dev`slot, dev`log, dev`faults
    ensures dev.Idle() && old(dev.log) <= dev.log && OnlyJobs(dev.log, |old(dev.log)|, {MAC_JOB})
    ensures dev.faults >= old(dev.faults) && (success <==> dev.faults == old(dev.faults))
    ensures macKey == if success then dev.suite.MacKey() else Zeros(32)
  {
    hide After, Follow;
    success, macKey := false, Zeros(32);
    var ensured := dev.EnsureKey();
    if ensured {
      var loaded := dev.LoadKey(ZERO_IV);
      if loaded {
        success, macKey := dev.Encrypt(MAC_DERIVATION);
        var unloaded := dev.UnloadKey();
        success := unloaded && success;
      }
    }
    if !success {
      macKey := Zeros(32);
    }
  }

  method CalculateMac(dev: Device, body: Body) returns (success: bool, mac: Bytes32)
    requires dev.Idle()
    modifies dev`slot, dev`log, dev`faults
    ensures dev.Idle() && old(dev.log) <= dev.log && OnlyJobs(dev.log, |old(dev.log)|, {MAC_JOB})
    ensures dev.faults >= old(dev.faults) && (success <==> dev.faults == old(dev.faults))
    ensures mac == if success then dev.suite.Mac(PackBody(body)) else Zeros(32)
  {
    mac := Zeros(32);
    var macKey;
    success, macKey := DeriveMacKey(dev);
    if success {
      success, mac := dev.Hmac(macKey, PackBody(body));
    }
    if !success {
      mac := Zeros(32);
    }
  }

  method DecryptPrivateKey(dev: Device, iv: Iv, encrypted: Bytes32, identity: IdentityBuffer) returns (r: LoadResult)
    requires dev.Idle()
    modifies dev`slot, dev`log, dev`faults, identity
    ensures dev.Idle() && old(dev.log) <= dev.log
    ensures OnlyJobs(dev.log, |old(dev.log)|, {Decipher(iv, encrypted)})
    ensures dev.faults >= old(dev.faults)
    ensures r == if dev.faults == old(dev.faults) then Ok else CryptoError
    ensures r == Ok ==> identity.Value() == old(identity.Value()).(privateKey := dev.suite.decrypt(iv, encrypted))
    ensures r != Ok ==> identity.Value() == old(identity.Value()) || identity.Value() == ZERO_IDENTITY
  {
    hide After, Follow;
    var ensured := dev.EnsureKey();
    if !ensured {
      return CryptoError;
    }
    var loaded := dev.LoadKey(iv);
    if !loaded {
      return CryptoError;
    }
    var decrypted, output := dev.Decrypt(encrypted);
    identity.privateKey := output;
    var unloaded := dev.UnloadKey();
    if !decrypted || !unloaded {
      identity.Clear();
      return CryptoError;
    }
    return Ok;
  }

  method DecodeRecordInto(dev: Device, record: Record, identity: IdentityBuffer) returns (r: LoadResult)
    requires dev.Idle() && identity.Value() == ZERO_IDENTITY
    modifies dev`slot, dev`log, dev`faults, identity
    ensures dev.Idle() && old(dev.log) <= dev.log
    ensures OnlyJobs(dev.log, |old(dev.log)|, {MAC_JOB, Decipher(record.body.iv, record.body.encryptedPrivateKey)})
    ensures dev.faults >= old(dev.faults)
    ensures var plain := DecodeRecord(dev.suite, record);
            && (r == if dev.faults > old(dev.faults) then CryptoError else if plain.Some? then Ok else Corrupt)
            && identity.Value() == if r == Ok then plain.value else ZERO_IDENTITY
  {
    if !HeaderIs(record.body, VERSION) {
      return Corrupt;
    }
    var authenticated, mac := CalculateMac(dev, record.body);
    if !authenticated {
      return CryptoError;
    }
    var equal := MacEquals(record.mac, mac);
    if !equal {
      return Corrupt;
    }
    r := DecryptPrivateKey(dev, record.body.iv, record.body.encryptedPrivateKey, identity);
    if r == Ok {
      identity.uid := record.body.uid;
    }
  }

  method DecodeLegacyInto(dev: Device, record: LegacyRecord, identity: IdentityBuffer) returns (r: LoadResult)
    requires dev.Idle() && identity.Value() == ZERO_IDENTITY
    modifies dev`slot, dev`log, dev`faults, identity
    ensures dev.Idle() && old(dev.log) <= dev.log
    ensures OnlyJobs(dev.log, |old(dev.log)|, {Decipher(record.body.iv, record.body.encryptedPrivateKey)})
    ensures dev.faults >= old(dev.faults)
    ensures var plain := DecodeLegacy(dev.suite, record);
            && (r == if dev.faults > old(dev.faults) then CryptoError else if plain.Some? then Ok else Corrupt)
            && identity.Value() == if r == Ok then plain.value else ZERO_IDENTITY
  {
    if !HeaderIs(record.body, LEGACY_VERSION) || record.checksum != dev.suite.crc(PackBody(record.body)) {
      return Corrupt;
    }
    r := DecryptPrivateKey(dev, record.body.iv, record.body.encryptedPrivateKey, identity);
    if r == Ok {
      identity.uid := record.body.uid;
    }
  }

  /** tesla_identity_read_record and its legacy twin: only a file of exactly this size is read. */
  method ReadFile(dev: Device, path: Path, size: nat) returns (r: LoadResult, data: bytes)
    modifies dev`faults
    ensures dev.faults >= old(dev.faults)
    ensures r == if dev.faults > old(dev.faults) then StorageError
                 else match File(dev.disk, path)
                      case None => NotFound
                      case Some(f) => if |f| == size then Ok else Corrupt
    ensures r == Ok ==> Some(data) == File(dev.disk, path)
  {
    data := [];
    var error, found := dev.Stat(path);
    if error == FsNotExist {
      return NotFound, data;
    }
    if error != FsOk || found != size {
      return if error == FsOk then Corrupt else StorageError, data;
    }
    var ready := dev.OpenForRead(path);
    if !ready {
      return StorageError, data;
    }
    data := dev.Read(path, size);
    r := if |data| == size then Ok else StorageError;
  }

  /** The decipher jobs a file of either format can ask for. */
  function FileJobs(file: Option<bytes>): set<Job> {
    match file
    case None => {}
    case Some(f) => if |f| >= BODY_SIZE then {Decipher(f[16..32], f[32..64])} else {}
  }

  method LoadPath(dev: Device, path: Path, identity: IdentityBuffer) returns (r: LoadResult, legacyRecord: bool)
    requires dev.Idle() && identity.Value() == ZERO_IDENTITY
    modifies dev`slot, dev`log, dev`faults, identity
    ensures dev.Idle() && old(dev.log) <= dev.log
    ensures OnlyJobs(dev.log, |old(dev.log)|, {MAC_JOB} + FileJobs(File(dev.disk, path)))
    ensures dev.faults >= old(dev.faults)
    // Either the file's own answer, or a storage or crypto error and then some call failed.
    ensures if dev.faults == old(dev.faults) then r == Answer(dev.suite, File(dev.disk, path))
            else r == StorageError || r == CryptoError
    ensures r == NotFound || r == StorageError || File(dev.disk, path).Some?
    ensures identity.Value() == if r == Ok then Decode(dev.suite, File(dev.disk, path).value).value else ZERO_IDENTITY
    ensures legacyRecord <==> r == Ok && |File(dev.disk, path).value| == LEGACY_SIZE
  {
    legacyRecord := false;
    var data;
    r, data := ReadFile(dev, path, RECORD_SIZE);
    if r == Ok {
      r := DecodeRecordInto(dev, Unpack(data), identity);
      return r, false;
    }
    if r != Corrupt {
      return r, false;
    }
    r, data := ReadFile(dev, path, LEGACY_SIZE);
    if r == Ok {
      r := DecodeLegacyInto(dev, UnpackLegacy(data), identity);
      legacyRecord := r == Ok;
    }
  }

  /** tesla_identity_load. The ghost results are what the two files answered (the staged
      answer is meaningful only when the main file was absent or corrupt). */
  method Load(dev: Device, identity: IdentityBuffer)
    returns (r: LoadResult, ghost mainAnswer: LoadResult, ghost stagedAnswer: LoadResult)
    requires dev.Idle()
    modifies dev`disk, dev`history, dev`slot, dev`log, dev`calls, dev`faults, identity
    ensures dev.Idle() && old(dev.log) <= dev.log && old(dev.history) <= dev.history
    ensures OnlyJobs(dev.log, |old(dev.log)|, {MAC_JOB} + FileJobs(old(dev.disk).main) + FileJobs(old(dev.disk).tmp))
    ensures dev.faults >= old(dev.faults)
    ensures r == CombinedResult(mainAnswer, stagedAnswer)
    ensures mainAnswer in {Answer(dev.suite, old(dev.disk).main), StorageError, CryptoError}
    ensures mainAnswer in {NotFound, Corrupt} ==>
              stagedAnswer in {Answer(dev.suite, old(dev.disk).tmp), StorageError, CryptoError}
    ensures dev.faults == old(dev.faults) ==>
              && mainAnswer == Answer(dev.suite, old(dev.disk).main)
              && stagedAnswer == Answer(dev.suite, old(dev.disk).tmp)
    ensures identity.Value() == if r == Ok then Holder(dev.suite, old(dev.disk)).value else ZERO_IDENTITY
    ensures LoadMoves(old(dev.disk), r, mainAnswer, dev.disk, dev.faults == old(dev.faults))
    // Without faults, from the bytes of the two files alone.
    ensures dev.faults == old(dev.faults) ==>
              && (r == Ok <==> IntactFile(dev.suite, old(dev.disk).main) || IntactFile(dev.suite, old(dev.disk).tmp))
              && (r == NotFound <==> old(dev.disk) == Disk(None, None))
              && r in {Ok, NotFound, Corrupt}
              && dev.disk == if r == Ok && !IntactFile(dev.suite, old(dev.disk).main)
                             then Disk(old(dev.disk).tmp, None) else old(dev.disk)
    ensures r == Ok ==>
              && (IntactFile(dev.suite, old(dev.disk).main) || IntactFile(dev.suite, old(dev.disk).tmp))
              && identity.Value()
                 == IdentityIn(dev.suite, if IntactFile(dev.suite, old(dev.disk).main)
                                          then old(dev.disk).main.value else old(dev.disk).tmp.value)
    ensures forall i :: |old(dev.history)| <= i < |dev.history| ==>
              LoadCrash(dev.suite, old(dev.disk), dev.history[i])
  {
    AnswerByBytes(dev.suite, dev.disk.main);
    AnswerByBytes(dev.suite, dev.disk.tmp);
    hide After, Follow, Decode, FileJobs, Intact, IdentityIn;
    identity.Clear();
    var legacyRecord;
    r, legacyRecord := LoadPath(dev, Main, identity);
    mainAnswer, stagedAnswer := r, Answer(dev.suite, dev.disk.tmp);
    if r == NotFound || r == Corrupt {
      var temporary, temporaryLegacy := LoadPath(dev, Tmp, identity);
      stagedAnswer := temporary;
      if temporary == Ok {
        r := Ok;
        var error := dev.RenameStaged();
        if error != FsOk {
          temporaryLegacy := false;
        }
        legacyRecord := temporaryLegacy;
      } else if r == NotFound {
        r := temporary;
      }
    }
  }

  /** The store after a load: unchanged, or the staged file promoted when it was the one that answered. */
  ghost predicate LoadMoves(before: Disk, r: LoadResult, mainAnswer: LoadResult, after: Disk, faultFree: bool) {
    if r == Ok && mainAnswer != Ok
    then after == Moved(before) || (!faultFree && after == before)
    else after == before
  }

  /** Where a loss of power during a load can leave the store. */
  ghost predicate LoadCrash(s: Suite, before: Disk, d: Disk) {
    Answer(s, before.main) != Ok && Answer(s, before.tmp) == Ok && d in {before.(main := None), Moved(before)}
  }

  /** The staged file while a record is being written: untouched, removed or a prefix of the record. */
  ghost predicate Staging(before: Disk, record: bytes, tmp: Option<bytes>) {
    tmp == before.tmp || tmp == None || exists k: nat :: k <= |record| && tmp == Some(record[..k])
  }

  ghost predicate SaveCrash(before: Disk, record: bytes, d: Disk) {
    || (d.main == before.main && Staging(before, record, d.tmp))
    || d == Disk(None, Some(record))
    || d == Disk(Some(record), None)
  }

  ghost predicate SaveEnds(before: Disk, record: bytes, success: bool, after: Disk) {
    if success then after == Disk(Some(record), None)
    else after.main == before.main && Staging(before, record, after.tmp)
  }

  /** The crypto half of save: the record under a fresh IV. Nothing is stored. */
  method SealRecord(dev: Device, identity: IdentityBuffer) returns (sealed: bool, record: Record, iv: Iv)
    requires dev.Idle()
    modifies dev`slot, dev`log, dev`faults
    ensures dev.Idle() && old(dev.log) <= dev.log
    ensures OnlyJobs(dev.log, |old(dev.log)|, {MAC_JOB, Encipher(iv, identity.privateKey)})
    ensures dev.faults >= old(dev.faults) && (sealed <==> dev.faults == old(dev.faults))
    ensures sealed ==> record == Seal(dev.suite, identity.Value(), iv)
  {
    hide After, Follow, PackBody, Primitives.Mac;
    sealed := false;
    iv := dev.RandomIv();
    var body := Body(MAGIC, VERSION, UID_SIZE, identity.uid, [0, 0], iv, Zeros(32));
    record := Record(body, Zeros(32));
    var ensured := dev.EnsureKey();
    if !ensured {
      return;
    }
    var loaded := dev.LoadKey(iv);
    if !loaded {
      return;
    }
    var encrypted, output := dev.Encrypt(identity.privateKey);
    var unloaded := dev.UnloadKey();
    if !encrypted || !unloaded {
      return;
    }
    body := body.(encryptedPrivateKey := output);
    var mac;
    sealed, mac := CalculateMac(dev, body);
    record := Record(body, mac);
  }

  /** The order of the storage calls of one save: the old staged file goes first, nothing is renamed
      before a complete write and a successful sync, and the last call is the rename that
      succeeded or the removal of what was staged. */
  ghost predicate SaveProtocol(calls: seq<StoreCall>, size: nat, success: bool) {
    && |calls| >= 3
    && calls[0] == Removed(Tmp) && calls[1].Created?
    && (forall i :: 0 <= i < |calls| && calls[i].Renamed? ==>
          i == 4 && calls[1] == Created(true) && calls[2] == Wrote(size) && calls[3] == Synced(true))
    && calls[|calls| - 1] == (if success then Renamed(true) else Removed(Tmp))
    && (forall i :: 0 < i < |calls| - 1 ==> !calls[i].Removed?)
  }

  /** The calls between creating the staged file and giving up on it or being done. */
  ghost predicate CommitCalls(calls: seq<StoreCall>, size: nat, success: bool) {
    || (exists n: nat :: calls == [Wrote(n)] && !success)
    || (exists ok: bool :: calls == [Wrote(size), Synced(ok)] && !success)
    || calls == [Wrote(size), Synced(true), Renamed(success)]
  }

  lemma SaveProtocolHolds(created: bool, middle: seq<StoreCall>, size: nat, success: bool)
    requires if created then CommitCalls(middle, size, success) else middle == [] && !success
    ensures SaveProtocol([Removed(Tmp), Created(created)] + middle + (if success then [] else [Removed(Tmp)]),
                         size, success)
  {
  }

  /** Fills the staged file just created, syncs it and moves it over the main file. */
  method CommitStaged(dev: Device, record: bytes) returns (success: bool, ghost calls: seq<StoreCall>)
    requires dev.disk.tmp == Some([])
    modifies dev`disk, dev`history, dev`calls, dev`faults
    ensures old(dev.history) <= dev.history
    ensures dev.calls == old(dev.calls) + calls && CommitCalls(calls, |record|, success)
    ensures dev.faults >= old(dev.faults) && (dev.faults == old(dev.faults) ==> success)
    ensures SaveEnds(old(dev.disk), record, success, dev.disk)
    ensures forall i :: |old(dev.history)| <= i < |dev.history| ==> SaveCrash(old(dev.disk), record, dev.history[i])
  {
    success, calls := false, [];
    var written := dev.Write(Tmp, record);
    calls := [Wrote(written)];
    if written == |record| {
      assert record[..written] == record;
      var synced := dev.Sync();
      calls := calls + [Synced(synced)];
      if synced {
        var error := dev.RenameStaged();
        success := error == FsOk;
        calls := calls + [Renamed(success)];
      }
    }
  }

  /** The storage half of save: stage, sync, rename; on failure drop the staged file. */
  method WriteRecord(dev: Device, record: bytes) returns (success: bool)
    modifies dev`disk, dev`history, dev`calls, dev`faults
    ensures old(dev.calls) <= dev.calls && SaveProtocol(dev.calls[|old(dev.calls)|..], |record|, success)
    ensures old(dev.history) <= dev.history
    ensures dev.faults >= old(dev.faults) && (dev.faults == old(dev.faults) ==> success)
    ensures SaveEnds(old(dev.disk), record, success, dev.disk)
    ensures forall i :: |old(dev.history)| <= i < |dev.history| ==> SaveCrash(old(dev.disk), record, dev.history[i])
  {
    hide SaveProtocol, CommitCalls;
    success := false;
    ghost var middle: seq<StoreCall> := [];
    var _ := dev.Remove(Tmp);
    var created := dev.Create(Tmp);
    if created {
      assert dev.disk.tmp == Some(record[..0]);
      success, middle := CommitStaged(dev, record);
    }
    if !success {
      var _ := dev.Remove(Tmp);
    }
    SaveProtocolHolds(created, middle, |record|, success);
    assert dev.calls[|old(dev.calls)|..]
        == [Removed(Tmp), Created(created)] + middle + if success then [] else [Removed(Tmp)];
  }

  /** tesla_identity_save; the ghost result is the IV drawn. */
  method Save(dev: Device, identity: IdentityBuffer) returns (success: bool, ghost iv: Iv)
    requires dev.Idle()
    modifies dev`disk, dev`history, dev`slot, dev`log, dev`calls, dev`faults
    ensures dev.Idle() && old(dev.log) <= dev.log && old(dev.history) <= dev.history
    ensures OnlyJobs(dev.log, |old(dev.log)|, {MAC_JOB, Encipher(iv, identity.privateKey)})
    ensures dev.faults >= old(dev.faults) && (dev.faults == old(dev.faults) ==> success)
    ensures SaveEnds(old(dev.disk), Encode(dev.suite, identity.Value(), iv), success, dev.disk)
    ensures success ==> dev.disk == Disk(Some(Encode(dev.suite, identity.Value(), iv)), None)
    ensures !success ==> dev.disk.main == old(dev.disk).main
    ensures forall i :: |old(dev.history)| <= i < |dev.history| ==>
              SaveCrash(old(dev.disk), Encode(dev.suite, identity.Value(), iv), dev.history[i])
    ensures old(dev.calls) <= dev.calls
    ensures dev.calls == old(dev.calls) || SaveProtocol(dev.calls[|old(dev.calls)|..], RECORD_SIZE, success)
  {
    var sealed, record, drawn := SealRecord(dev, identity);
    success, iv := false, drawn;
    if sealed {
      success := WriteRecord(dev, Pack(record));
    }
  }

  ghost predicate DeleteEnds(before: Disk, reported: bool, after: Disk) {
    && after.main == (if reported then None else before.main)
    && after.tmp in {before.tmp, None}
  }

  ghost predicate DeleteCrash(before: Disk, d: Disk) {
    d.main in {before.main, None} && d.tmp in {before.tmp, None}
  }

  /** tesla_identity_delete: the staged file goes too, and whether that worked is not reported. */
  method Delete(dev: Device) returns (reported: bool)
    modifies dev`disk, dev`history, dev`calls, dev`faults, dev`trace
    ensures dev.calls == old(dev.calls) + [Removed(Main), Removed(Tmp)]
    ensures old(dev.history) + [old(dev.disk)] <= dev.history
    ensures dev.faults >= old(dev.faults)
    ensures DeleteEnds(old(dev.disk), reported, dev.disk)
    ensures dev.disk.main == if reported then None else old(dev.disk).main
    ensures dev.disk.tmp in {old(dev.disk).tmp, None}
    ensures dev.faults == old(dev.faults) ==> reported && dev.disk == Disk(None, None)
    ensures forall i :: |old(dev.history)| <= i < |dev.history| ==> DeleteCrash(old(dev.disk), dev.history[i])
    ensures |dev.history| >= |old(dev.history)| + 2 && dev.history[|dev.history| - 1] == dev.disk
    ensures dev.trace == old(dev.trace) + [Deed(Deleted(reported), |old(dev.history)|, |dev.history| - 1)]
  {
    ghost var from := dev.Begin();
    var error := dev.Remove(Main);
    var _ := dev.Remove(Tmp);
    reported := error == FsOk || error == FsNotExist;
    dev.Finish(Deleted(reported), from);
  }
}
