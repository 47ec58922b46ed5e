/** The services tesla_identity.c calls but does not define: the storage driver and the
    crypto enclave. Any call may fail; a failure is counted so that a fault-free run can be named. */
module Hardware {
  import opened Bytes
  import opened IdentityRecord
  import opened Deeds

  /** identity.bin and identity.tmp as they survive a loss of power. */
  datatype Disk = Disk(main: Option<bytes>, tmp: Option<bytes>)

  datatype Path = Main | Tmp

  function File(d: Disk, p: Path): Option<bytes> {
    if p == Main then d.main else d.tmp
  }

  function WithFile(d: Disk, p: Path, f: Option<bytes>): Disk {
    if p == Main then d.(main := f) else d.(tmp := f)
  }

  /** Staged file moved over the main file. */
  function Moved(d: Disk): Disk {
    Disk(d.tmp, None)
  }

  /** The calls that change the store, as save and delete issue them. */
  datatype StoreCall =
    | Removed(path: Path) | Created(ok: bool) | Wrote(written: nat) | Synced(ok: bool) | Renamed(ok: bool)

  datatype FsError = FsOk | FsNotExist | FsFailed

  /** One AES job: what is processed, under which IV. */
  datatype Job = Encipher(iv: Iv, input: Bytes32) | Decipher(iv: Iv, input: Bytes32)

  datatype EnclaveOp = Ensure(ok: bool) | LoadKey(iv: Iv, ok: bool) | Work(job: Job, ok: bool) | UnloadKey(ok: bool)

  /** Whether the enclave key is held, judged from the calls made so far. */
  datatype Holding = Free | Ensured | Held(iv: Iv) | Broken

  function Follow(h: Holding, op: EnclaveOp): Holding {
    match op
    case Ensure(ok) => if !h.Free? then Broken else if ok then Ensured else Free
    case LoadKey(iv, ok) => if !h.Ensured? then Broken else if ok then Held(iv) else Free
    case Work(job, _) => if h == Held(job.iv) then h else Broken
    case UnloadKey(_) => if h.Held? then Free else Broken
  }

  function After(log: seq<EnclaveOp>): Holding {
    if log == [] then Free else Follow(After(log[..|log| - 1]), log[|log| - 1])
  }

  lemma BrokenStaysBroken(log: seq<EnclaveOp>, i: nat)
    requires i <= |log| && After(log[..i]) == Broken
    ensures After(log) == Broken
    decreases |log|
  {
    if i == |log| {
      assert log[..i] == log;
    } else {
      assert log[..|log| - 1][..i] == log[..i];
      BrokenStaysBroken(log[..|log| - 1], i);
    }
  }

  /** Position j ends the bracket opened at i: an unload attempt, with only work under that load's IV between. */
  ghost predicate Closes(log: seq<EnclaveOp>, i: nat, j: nat)
    requires i < |log| && log[i].LoadKey?
  {
    && i < j < |log|
    && log[j].UnloadKey?
    && forall k :: i < k < j ==> log[k].Work? && log[k].job.iv == log[i].iv
  }

  ghost predicate Opens(log: seq<EnclaveOp>, i: nat) {
    i < |log| && log[i].LoadKey? && log[i].ok
  }

  /** A key load stays open up to n only through work under its own IV. */
  ghost predicate OpenUntil(log: seq<EnclaveOp>, i: nat, n: nat)
    requires i < n <= |log| && log[i].LoadKey?
  {
    forall k :: i < k < n ==> log[k].Work? && log[k].job.iv == log[i].iv
  }

  /** The key is loaded only right after it was ensured, every accepted load is closed by exactly
      one unload attempt before anything else happens, and every AES job and unload attempt lies
      inside such a bracket. */
  ghost predicate Bracketed(log: seq<EnclaveOp>) {
    && (forall i: nat :: i < |log| && log[i].LoadKey? ==> i > 0 && log[i - 1] == Ensure(true))
    && (forall i: nat :: Opens(log, i) ==> exists j: nat :: Closes(log, i, j))
    && (forall k: nat :: k < |log| && (log[k].Work? || log[k].UnloadKey?) ==>
          exists i: nat :: i < k && Opens(log, i) && OpenUntil(log, i, k)
                           && (log[k].Work? ==> log[k].job.iv == log[i].iv))
  }

  /** One more operation: the log splits into its first n entries and the last of log[..n + 1]. */
  lemma AfterPrefix(log: seq<EnclaveOp>, n: nat)
    requires n < |log| && After(log) != Broken
    ensures After(log[..n + 1]) == Follow(After(log[..n]), log[n]) && After(log[..n + 1]) != Broken
  {
    assert log[..n + 1][..n] == log[..n];
    if After(log[..n + 1]) == Broken {
      BrokenStaysBroken(log, n + 1);
    }
  }

  /** While the key is held, the load that took it is still open. */
  lemma {:induction false} HeldByOpenLoad(log: seq<EnclaveOp>, n: nat) returns (i: nat)
    requires n <= |log| && After(log) != Broken && After(log[..n]).Held?
    ensures i < n && Opens(log, i) && log[i].iv == After(log[..n]).iv && OpenUntil(log, i, n)
    decreases n
  {
    AfterPrefix(log, n - 1);
    if log[n - 1].LoadKey? {
      i := n - 1;
    } else {
      i := HeldByOpenLoad(log, n - 1);
    }
  }

  /** Once taken, the key stays held for work under its own IV until the one unload attempt. */
  lemma {:induction false} ClosedOrStillOpen(log: seq<EnclaveOp>, i: nat, n: nat)
    requires i < n <= |log| && After(log) != Broken && Opens(log, i)
    ensures (After(log[..n]) == Held(log[i].iv) && OpenUntil(log, i, n)) || exists j: nat :: Closes(log, i, j)
    decreases n
  {
    AfterPrefix(log, n - 1);
    if i < n - 1 {
      ClosedOrStillOpen(log, i, n - 1);
      if log[n - 1].UnloadKey? && OpenUntil(log, i, n - 1) {
        assert Closes(log, i, n - 1);
      }
    }
  }

  /** A log that ends with the key released brackets every key load and every AES job. */
  lemma FreeMeansBracketed(log: seq<EnclaveOp>)
    requires After(log) == Free
    ensures Bracketed(log)
  {
    assert log[..|log|] == log;
    forall i: nat | i < |log| && log[i].LoadKey?
      ensures i > 0 && log[i - 1] == Ensure(true)
    {
      AfterPrefix(log, i);
      if i > 0 {
        AfterPrefix(log, i - 1);
      }
    }
    forall i: nat | Opens(log, i)
      ensures exists j: nat :: Closes(log, i, j)
    {
      ClosedOrStillOpen(log, i, |log|);
    }
    forall k: nat | k < |log| && (log[k].Work? || log[k].UnloadKey?)
      ensures exists i: nat :: i < k && Opens(log, i) && OpenUntil(log, i, k)
                               && (log[k].Work? ==> log[k].job.iv == log[i].iv)
    {
      AfterPrefix(log, k);
      var i := HeldByOpenLoad(log, k);
    }
  }

  /** The hardware under the app: storage and enclave. History (every state the store has passed
      through), log, calls, faults and trace (the app's completed actions) are the observer's. */
  class Device {
    const suite: Suite
    var disk: Disk
    var slot: Option<Iv>
    var history: seq<Disk>
    ghost var log: seq<EnclaveOp>
    ghost var calls: seq<StoreCall>
    ghost var faults: nat
    ghost var trace: seq<Deed>

    /** No key is held, and every call so far was accepted. */
    ghost predicate Idle()
      reads `log, `slot
    {
      slot == None && After(log) == Free
    }

    ghost predicate Provisioned()
      reads `log, `slot
    {
      slot == None && After(log) == Ensured
    }

    ghost predicate Loaded()
      reads `log, `slot
    {
      slot.Some? && After(log) == Held(slot.value)
    }

    /** All the calls to the enclave so far were properly bracketed. */
    lemma IdleMeansBracketed()
      requires Idle()
      ensures Bracketed(log)
    {
      FreeMeansBracketed(log);
    }

    constructor (suite: Suite, disk: Disk)
      ensures Idle() && this.suite == suite && this.disk == disk
      ensures history == [disk] && log == [] && calls == [] && faults == 0 && trace == []
    {
      this.suite, this.disk, slot := suite, disk, None;
      history, log, calls, faults, trace := [disk], [], [], 0, [];
    }

    ghost method Record(op: EnclaveOp, ok: bool)
      modifies `log, `faults
      ensures log == old(log) + [op]
      ensures After(log) == Follow(old(After(log)), op)
      ensures faults == old(faults) + if ok then 0 else 1
    {
      assert (log + [op])[..|log|] == log;
      log := log + [op];
      faults := faults + if ok then 0 else 1;
    }

    method EnsureKey() returns (ok: bool)
      requires Idle()
      modifies `log, `faults
      ensures (if ok then Provisioned() else Idle()) && log == old(log) + [Ensure(ok)]
      ensures faults == old(faults) + if ok then 0 else 1
    {
      ok := *;
      Record(Ensure(ok), ok);
    }

    method LoadKey(iv: Iv) returns (ok: bool)
      requires Provisioned()
      modifies `slot, `log, `faults
      ensures if ok then Loaded() && slot.value == iv else Idle()
      ensures log == old(log) + [EnclaveOp.LoadKey(iv, ok)]
      ensures faults == old(faults) + if ok then 0 else 1
    {
      ok := *;
      if ok {
        slot := Some(iv);
      }
      Record(EnclaveOp.LoadKey(iv, ok), ok);
    }

    method Encrypt(input: Bytes32) returns (ok: bool, output: Bytes32)
      requires Loaded()
      modifies `log, `faults
      ensures Loaded() && log == old(log) + [Work(Encipher(slot.value, input), ok)]
      ensures ok ==> output == suite.encrypt(slot.value, input)
      ensures faults == old(faults) + if ok then 0 else 1
    {
      ok, output := *, *;
      if ok {
        output := suite.encrypt(slot.value, input);
      }
      Record(Work(Encipher(slot.value, input), ok), ok);
    }

    method Decrypt(input: Bytes32) returns (ok: bool, output: Bytes32)
      requires Loaded()
      modifies `log, `faults
      ensures Loaded() && log == old(log) + [Work(Decipher(slot.value, input), ok)]
      ensures ok ==> output == suite.decrypt(slot.value, input)
      ensures faults == old(faults) + if ok then 0 else 1
    {
      ok, output := *, *;
      if ok {
        output := suite.decrypt(slot.value, input);
      }
      Record(Work(Decipher(slot.value, input), ok), ok);
    }

    /** The bracket ends with the attempt, whether or not it reports success. */
    method UnloadKey() returns (ok: bool)
      requires Loaded()
      modifies `slot, `log, `faults
      ensures Idle() && log == old(log) + [EnclaveOp.UnloadKey(ok)]
      ensures faults == old(faults) + if ok then 0 else 1
    {
      ok := *;
      slot := None;
      Record(EnclaveOp.UnloadKey(ok), ok);
    }

    method Hmac(key: Bytes32, body: bytes) returns (ok: bool, mac: Bytes32)
      modifies `faults
      ensures ok ==> mac == suite.hmac(key, body)
      ensures faults == old(faults) + if ok then 0 else 1
    {
      ok, mac := *, *;
      if ok {
        mac := suite.hmac(key, body);
      }
      faults := faults + if ok then 0 else 1;
    }

    method RandomIv() returns (iv: Iv) {
      iv := *;
    }

    method RandomUid() returns (uid: Uid) {
      uid := *;
    }

    /** The medium passes through d; power may be lost there. */
    method Pass(d: Disk)
      modifies `disk, `history
      ensures disk == d && history == old(history) + [d]
    {
      disk := d;
      history := history + [d];
    }

    /** The observer notes where an action of the app begins. */
    method Begin() returns (ghost from: nat)
      modifies `history
      ensures history == old(history) + [disk] && from == |old(history)|
    {
      from := |history|;
      history := history + [disk];
    }

    /** And, once it has ended, what it was. */
    method Finish(ghost action: Action, ghost from: nat)
      modifies `history, `trace
      ensures history == old(history) + [disk] && trace == old(trace) + [Deed(action, from, |old(history)|)]
    {
      trace := trace + [Deed(action, from, |history|)];
      history := history + [disk];
    }

    /** Power is lost at some position of the history from the mark on: nothing later has happened. */
    method LosePower(mark: nat) returns (ghost last: nat)
      requires mark < |history|
      modifies this
      ensures Idle() && log == [] && calls == []
      ensures mark <= last < |old(history)| && disk == old(history)[last]
      ensures history == old(history)[..last + 1] + [disk] && trace == CutTrace(old(trace), last)
    {
      var i: nat := *;
      if i < mark || i >= |history| {
        i := |history| - 1;
      }
      last, trace := i, CutTrace(trace, i);
      disk, slot, log, calls := history[i], None, [], [];
      history := history[..i + 1] + [disk];
    }

    method Stat(path: Path) returns (error: FsError, size: nat)
      modifies `faults
      ensures error == FsNotExist ==> File(disk, path).None?
      ensures error == FsOk ==> File(disk, path).Some? && size == |File(disk, path).value|
      ensures faults == old(faults) + if error == FsFailed then 1 else 0
    {
      error, size := FsFailed, 0;
      if * {
        match File(disk, path)
        case None => error := FsNotExist;
        case Some(f) => error, size := FsOk, |f|;
      }
      faults := faults + if error == FsFailed then 1 else 0;
    }

    method OpenForRead(path: Path) returns (ok: bool)
      requires File(disk, path).Some?
      modifies `faults
      ensures faults == old(faults) + if ok then 0 else 1
    {
      ok := *;
      faults := faults + if ok then 0 else 1;
    }

    /** Reads up to n bytes from the start; a short read is the failure. */
    method Read(path: Path, n: nat) returns (data: bytes)
      requires File(disk, path).Some? && |File(disk, path).value| == n
      modifies `faults
      ensures |data| <= n && (|data| == n ==> data == File(disk, path).value)
      ensures faults == old(faults) + if |data| == n then 0 else 1
    {
      var got: nat := *;
      data := File(disk, path).value;
      if 0 <= got < n {
        data := data[..got];
      }
      faults := faults + if |data| == n then 0 else 1;
    }

    method Remove(path: Path) returns (error: FsError)
      modifies `disk, `history, `calls, `faults
      ensures calls == old(calls) + [Removed(path)]
      ensures error == FsFailed ==> disk == old(disk) && history == old(history)
      ensures error == FsNotExist ==> disk == old(disk) && history == old(history) && File(disk, path).None?
      ensures error == FsOk ==> disk == WithFile(old(disk), path, None) && history == old(history) + [disk]
      ensures faults == old(faults) + if error == FsFailed then 1 else 0
    {
      error := FsFailed;
      if * {
        if File(disk, path).None? {
          error := FsNotExist;
        } else {
          error := FsOk;
          Pass(WithFile(disk, path, None));
        }
      }
      faults := faults + if error == FsFailed then 1 else 0;
      calls := calls + [Removed(path)];
    }

    /** FSOM_CREATE_ALWAYS: an existing file is emptied. */
    method Create(path: Path) returns (ok: bool)
      modifies `disk, `history, `calls, `faults
      ensures calls == old(calls) + [Created(ok)]
      ensures !ok ==> disk == old(disk) && history == old(history)
      ensures ok ==> disk == WithFile(old(disk), path, Some([])) && history == old(history) + [disk]
      ensures faults == old(faults) + if ok then 0 else 1
    {
      ok := *;
      if ok {
        Pass(WithFile(disk, path, Some([])));
      }
      faults := faults + if ok then 0 else 1;
      calls := calls + [Created(ok)];
    }

    /** Writes into a file just emptied; power may be lost after any byte. */
    method Write(path: Path, data: bytes) returns (written: nat)
      requires File(disk, path) == Some([])
      modifies `disk, `history, `calls, `faults
      ensures calls == old(calls) + [Wrote(written)]
      ensures written <= |data| && disk == WithFile(old(disk), path, Some(data[..written]))
      ensures |history| == |old(history)| + written && old(history) <= history
      ensures forall i :: |old(history)| <= i < |history| ==>
                history[i] == WithFile(old(disk), path, Some(data[..i - |old(history)| + 1]))
      ensures faults == old(faults) + if written == |data| then 0 else 1
    {
      var limit: nat := *;
      written := 0;
      assert disk == WithFile(disk, path, Some(data[..0]));
      while written < |data| && written < limit
        invariant written <= |data| && disk == WithFile(old(disk), path, Some(data[..written]))
        invariant |history| == |old(history)| + written && old(history) <= history
        invariant forall i :: |old(history)| <= i < |history| ==>
                    history[i] == WithFile(old(disk), path, Some(data[..i - |old(history)| + 1]))
        invariant faults == old(faults) && calls == old(calls)
      {
        written := written + 1;
        Pass(WithFile(disk, path, Some(data[..written])));
      }
      faults := faults + if written == |data| then 0 else 1;
      calls := calls + [Wrote(written)];
    }

    method Sync() returns (ok: bool)
      modifies `calls, `faults
      ensures calls == old(calls) + [Synced(ok)]
      ensures faults == old(faults) + if ok then 0 else 1
    {
      ok := *;
      faults := faults + if ok then 0 else 1;
      calls := calls + [Synced(ok)];
    }

    /** Renames identity.tmp to identity.bin: drop the destination, then move. A reported
        failure leaves both files as they were; only a loss of power can fall between the halves. */
    method RenameStaged() returns (error: FsError)
      requires disk.tmp.Some?
      modifies `disk, `history, `calls, `faults
      ensures calls == old(calls) + [Renamed(error == FsOk)]
      ensures error != FsOk ==> disk == old(disk) && history == old(history)
      ensures error == FsOk ==> disk == Moved(old(disk)) && history == old(history) + [old(disk).(main := None), disk]
      ensures faults == old(faults) + if error == FsOk then 0 else 1
    {
      error := FsFailed;
      if * {
        error := FsOk;
        var staged := disk.tmp;
        Pass(disk.(main := None));
        Pass(Disk(staged, None));
      }
      faults := faults + if error == FsOk then 0 else 1;
      calls := calls + [Renamed(error == FsOk)];
    }
  }
}
