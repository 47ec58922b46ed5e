# Verified model of the Flipper apps

Two Flipper Zero apps are modelled here, `tesla_key_card` and `mfc_ndef_format`, as a Dafny project
that verifies with `dafny verify dfyconfig.toml`.

**The identity store.** The key card keeps its identity in `identity.bin`, written through a staged
`identity.tmp`. `IdentityRecord` is the record layout and its sealing, `Hardware` the storage driver
and crypto enclave, `IdentityStore` the load, save and delete code, and `IdentityRuns` the lives of
a store: any sequence of starts, resets, faults and losses of power. Every hardware call may fail on
its own, and the device journals each state the store passes through, so a loss of power may put it
back to any of them. The main results:

- Between deletes, every start that succeeds serves the same uid and private key, from any store
  whatever, and a served identity stays loadable (`IdentityIsStable`, `ServedIdentityIsKept`). The
  code is tied to this by a trace: `PrepareIdentity` and `Delete` note on the device what they did
  and between which two positions of its history. A loss of power goes back to some position and
  keeps exactly the actions completed by then, with the one under way as crashed. `Live` proves that
  over any sessions of the whole app, cut anywhere, the trace accounts for the history, and both
  properties hold of it.
- A load without faults is decided by the bytes of the two files (`LoadedByItsBytes`, `Load`); a
  saved record is rejected when its code is changed, and when the bytes before it are unless the
  codes collide (`ChangedRecordRejected`).
- Power lost anywhere in a save leaves the old or the new identity when there was one
  (`SaveIsAtomic`); a torn record is never an identity, not even at the legacy length.
- The app can come up on a store without a reset if and only if the store is empty or the identity
  it holds has a key that is a valid scalar (`StartableIff`); on any other store no start ever
  succeeds and what it holds stays (`StuckStore`). A first save torn by a loss of power leaves such
  a store: the app then shows its error until the user resets.
- A reset whose delete reports success serves a newly saved identity in every case if and only if
  there is no complete staged file with a usable key (`ResetIsFreshIff`), because the result of
  removing the staged file is ignored. `ResetCanKeepIdentity` is a run from an empty store in which
  a successful reset serves the identity it was to replace, although the app's documentation says
  that a reset deletes it. Likewise a delete that reports failure may have removed the only copy;
  `FailedDeleteKeepsIdentityIff` says exactly when not.
- Such a fresh reset stays fresh: until the next delete only identities generated and written since
  are served, through failed and crashed saves (`ResetStaysFresh`). On a device that starts from
  nothing or from one good record, two records never coexist and `identity.bin` is never torn, at
  any moment of its history (`HistoryIsTidy`).
- Each key load in the enclave follows its own provisioning call and is closed by exactly one unload
  attempt, with AES work only between them and only under the intended IV.

**The key and the applet.** `Crypto` is `tesla_crypto.c` over an abstract commutative group of prime
order and an abstract block cipher; `Apdu` and `Nfc` are the applet and its listener; `ApduSessions`
has the laws of whole sessions. Without faults the card answers exactly the peer keys that encode a
point of the curve. `Vehicle.Meet` is the end-to-end result over the running app: a vehicle that
selects the applet, reads the public key and sends its own point learns the key of the current
identity, and from the bytes of the last answer it reads the salt and the rest of its challenge or
nothing; without faults it always reads them, and the app is told what happened.

The decision tables of the applet (`SelectionTable`, `RefusalTable`, `CommandTable`) and of the
listener's reports (`ReportIsTruthful`) are stated over the bytes of requests and answers.

**The app.** `KeyCard` is the app object with its screen, listener, 16-slot event queue and
counters; `EventLedger` accounts for every event posted. The invariant of the app says that the
listener, if there is one, serves the identity of the last prepare in the trace with the live key,
that it runs on the main screen only, that the reset screen waits with an empty queue, that both
counters are the events consumed since they were last cleared modulo 2^32, and that everything
waiting was posted under the current identity. Posting by the radio worker is interleaved before
each step of the GUI.

**The formatter.** `NdefLayout` and `NdefCard` are the layout and a MIFARE Classic 1K with its
access conditions; `NdefFormat` is the run. A run without faults succeeds if and only if every block
is writable on the card as it was at the start, so rewriting the trailers under way never locks the
run out. A card whose sectors are each blank or formatted goes through if and only if sector 0 is
blank or no sector is. After a run stopped or failing anywhere, a later run completes exactly when
the one sector reached still opens (`ReformatResumesIff`) and, on a first format, the blank ones
after it do (`FirstFormatResumesIff`). Hence re-formatting is resumable unless a faulty write tore
the trailer reached, which can block the card (`TornTrailerBlocks`), and a first format that was
cancelled is resumable exactly when it had not passed block 3. Runs that tear no trailer, however
many and however they end, leave each sector blank or formatted (`InterruptedRunsResumeIff`).

## Model

| member | source | states |
|---|---|---|
| IdentityRecord.PackUnpackInverse | tesla_key_card/tesla_identity.c:24-33 | the 96-byte record and its fields convert into each other without loss, in both directions |
| IdentityRecord.PackUnpackLegacyInverse | tesla_key_card/tesla_identity.c:35-44 | the same for the 68-byte legacy record |
| IdentityRecord.RoundTrip | tesla_key_card/tesla_identity.c:188-211 | what save writes decodes to the same uid and private key, for every identity and IV |
| IdentityRecord.TornWriteRejected | tesla_key_card/tesla_identity.c:213-257 | every proper prefix of a saved record is rejected, including the one of exactly the legacy length |
| IdentityRecord.DecodedIffIntact | tesla_key_card/tesla_identity.c:188-257 | a file is accepted exactly when its magic, version, uid size and code over the first 64 bytes say so, byte by byte, and gives the identity in those bytes |
| IdentityRecord.SavedBytes | tesla_key_card/tesla_identity.c:294-330 | the 96 bytes save writes: such a file, with the drawn IV and the enciphered key in their places |
| IdentityRecord.ChangedRecordRejected | tesla_key_card/tesla_identity.c:194-203 | a saved record with its code changed is always rejected; with other bytes changed it is accepted iff the header is kept and the codes collide |
| Hardware.FreeMeansBracketed | tesla_key_card/tesla_identity.c:57-79 | an enclave log that ends released has each key load ensured first and closed by one unload attempt, with AES work only inside and under the loaded IV |
| Hardware.Device.IdleMeansBracketed | tesla_key_card/tesla_identity.c:168-186 | an idle device has bracketed every enclave call made so far; every load, save and prepare ends idle |
| Hardware.Device.RenameStaged | tesla_key_card/tesla_identity.c:341-344 | the rename drops the destination, then moves; a reported failure changes nothing |
| Hardware.Device.Write | tesla_key_card/tesla_identity.c:337-338 | a write leaves a prefix of the record, and every prefix up to it is a state at which power may be lost |
| Hardware.Device.LosePower | tesla_key_card/tesla_identity.c:332-349 | power is lost at any state the store passed through since the mark: the store is that state, later actions have not happened, the one under way is crashed |
| IdentityStore.MacEquals | tesla_key_card/tesla_identity.c:99-107 | the accumulated difference is zero exactly for equal codes |
| IdentityStore.DeriveMacKey | tesla_key_card/tesla_identity.c:57-79 | the MAC key is the derivation constant enciphered under the zero IV, all zero on failure; failure happens exactly when a call failed |
| IdentityStore.CalculateMac | tesla_key_card/tesla_identity.c:81-97 | the code of the first 64 bytes, all zero on failure |
| IdentityStore.DecryptPrivateKey | tesla_key_card/tesla_identity.c:168-186 | decrypts under the record's IV only; a failed decrypt or unload is a crypto error and leaves no partial key |
| IdentityStore.DecodeRecordInto | tesla_key_card/tesla_identity.c:188-211 | Ok with the record's identity, Corrupt, or CryptoError exactly when a call failed; zero unless Ok |
| IdentityStore.DecodeLegacyInto | tesla_key_card/tesla_identity.c:213-229 | the same for the legacy record and its checksum |
| IdentityStore.ReadFile | tesla_key_card/tesla_identity.c:122-166 | absent, wrong size and storage failure are told apart; Ok gives the whole file |
| IdentityStore.LoadPath | tesla_key_card/tesla_identity.c:231-257 | gives the file's own answer when no call fails, and otherwise an error; a 96-byte file never reaches the legacy reader |
| IdentityStore.Load | tesla_key_card/tesla_identity.c:259-292 | combines the answers of both files, promotes the staged file only when it answered, zeroes the identity unless Ok, and fixes every state a loss of power can leave; without faults result, identity and store follow from the bytes of the two files |
| IdentityStore.SealRecord | tesla_key_card/tesla_identity.c:294-330 | success gives the sealed record of the identity under the drawn IV, using the enclave for the private key and the MAC key only |
| IdentityStore.CommitStaged | tesla_key_card/tesla_identity.c:336-345 | rename only after a complete write and a successful sync |
| IdentityStore.WriteRecord | tesla_key_card/tesla_identity.c:332-349 | success leaves the record alone in the store, failure keeps the main file; the order of the storage calls and every crash state in between |
| IdentityStore.Save | tesla_key_card/tesla_identity.c:294-357 | the same for the identity given, succeeding whenever no call fails |
| IdentityStore.Delete | tesla_key_card/tesla_identity.c:359-365 | the report is about the main file only; the staged file may survive a reported success and is attempted after a failure too |
| IdentityRuns.FaultFreeTable | tesla_key_card/tesla_identity.c:259-292 | without faults: NotFound iff both files are absent, Ok iff one decodes, Corrupt otherwise |
| IdentityRuns.FaultyTable | tesla_key_card/tesla_identity.c:268-284 | under faults Ok and NotFound are still true, and for every pair of answers the result: an error of the main file is not masked, an absent one defers to the staged file, a corrupt one only to a staged identity |
| IdentityRuns.LoadedByItsBytes | tesla_key_card/tesla_identity.c:188-257 | a store with one file loads iff it has 96 bytes with the magic, version 2, uid size 4 and the HMAC of the first 64, or 68 bytes with version 1 and their CRC, and then gives the uid and key at their places |
| IdentityRuns.StagedAnswer | tesla_key_card/tesla_identity.c:336-345 | a staged file decodes exactly when it was written to the end |
| IdentityRuns.SaveIsAtomic | tesla_key_card/tesla_identity.c:332-349 | after a crash anywhere in a save, the next fault-free load finds exactly the old or the new identity, or from an empty store nothing, a torn record or the new one |
| IdentityRuns.SaveOutcome | tesla_key_card/tesla_identity.c:341-348 | a reported save is what the next load returns; a failed one keeps the old identity |
| IdentityRuns.StepKeepsHolder | tesla_key_card/tesla_key_card.c:231-241 | no start, fault or crash changes the identity a store holds, and none other is served |
| IdentityRuns.IdentityIsStable | tesla_key_card/tesla_key_card.c:231-241 | over every run and from any store, successful prepares with no delete between serve the same identity |
| IdentityRuns.ServedIdentityIsKept | tesla_key_card/tesla_key_card.c:231-241 | a served identity is what every later fault-free load before a delete returns |
| IdentityRuns.ReachableStoresAreTidy | tesla_key_card/tesla_identity.c:332-348 | from nothing or one good record, two records never coexist and the main file is never torn |
| IdentityRuns.HistoryIsTidy | tesla_key_card/tesla_identity.c:332-348 | the same at every state of a history told by its trace, also inside an action and after a loss of power |
| IdentityRuns.StuckStore | tesla_key_card/tesla_key_card.c:233-236 | from any point of a run where the store is neither empty nor holds a usable key, no prepare succeeds before a delete and what it holds stays; a corrupt store is not touched at all |
| IdentityRuns.StartableIff | tesla_key_card/tesla_key_card.c:231-241 | a store can be started on without a reset if and only if it is empty or holds an identity whose key is a valid scalar |
| IdentityRuns.TornFirstSaveBlocksStarts | tesla_key_card/tesla_identity.c:281-283 | a crash in the first save of any generated identity can leave a corrupt store, on which no start succeeds and from which a reported reset is sure to be fresh |
| IdentityRuns.ReportedDeleteEmptiesIff | tesla_key_card/tesla_identity.c:359-365 | a reported delete surely empties the store if and only if no staged file was there |
| IdentityRuns.ResetOutcome | tesla_key_card/tesla_key_card.c:266-302 | after a reported delete a prepare serves either a newly saved identity on an emptied store, or the one of the staged file left behind |
| IdentityRuns.ResetIsFreshIff | tesla_key_card/tesla_key_card.c:266-302 | a reported reset serves a newly saved identity in every case if and only if there is no complete staged file with a usable key |
| IdentityRuns.ResetStaysFresh | tesla_key_card/tesla_key_card.c:266-302 | after a reported delete of a store without a complete and usable staged file, every prepare that succeeds before the next delete serves an identity generated and written since on an emptied store |
| IdentityRuns.ResetCanKeepIdentity | tesla_key_card/tesla_key_card.c:266-302 | a run from an empty store, for every generated identity: crash in the first save, start, a reset that reports success, and the same identity is served again |
| IdentityRuns.FailedDeleteKeepsIdentityIff | tesla_key_card/tesla_identity.c:361-364 | a failed delete surely keeps the identity if and only if the main file holds it or there was none |
| IdentityRuns.ToldExtends | tesla_key_card/tesla_key_card.c:231-302 | a trace that accounts for the history still does after one more action |
| IdentityRuns.ToldWhenCut | tesla_key_card/tesla_key_card.c:231-302 | cut at any position, the history is accounted for by the actions completed by then and the one under way as crashed |
| IdentityRuns.CutKeepsWhatWasOver | tesla_key_card/tesla_key_card.c:231-302 | what was over before the position where power is lost stays in the trace |
| IdentityRuns.TraceIsRun | tesla_key_card/tesla_key_card.c:231-302 | a history with its trace is a run of the store from its first to its last state |
| IdentityRuns.TraceIsStable | tesla_key_card/tesla_key_card.c:231-241 | in a history told by its trace, all successful prepares between two deletes served the same identity |
| IdentityRuns.TraceKeepsServed | tesla_key_card/tesla_key_card.c:231-241 | and what was served with no delete since is what a fault-free load of the store returns |
| Crypto.MulDistributes | tesla_key_card/tesla_crypto.c:195-201 | scalar multiplication distributes over the sum of points |
| Crypto.MulCommutes | tesla_key_card/tesla_crypto.c:195-201 | both orders of two scalars reach the same point |
| Crypto.DecodeInvertsEncode | tesla_key_card/tesla_crypto.c:188-193 | reading an uncompressed point back gives the point |
| Crypto.MulIsFinite | tesla_key_card/tesla_crypto.c:195-201 | no valid scalar takes a finite point of the curve to infinity, because the order is prime |
| Crypto.AnsweredIffOnCurve | tesla_key_card/tesla_crypto.c:180-231 | the peer keys that have an answer are exactly the uncompressed encodings of points of the curve, and it is the salted challenge under the first half of the SHA-1 of the shared x |
| Crypto.KeyAgreement | tesla_key_card/tesla_crypto.c:163-242 | every vehicle with a valid scalar has an answer; under the first half of the SHA-1 of the x it computes from its scalar and the card's point, it opens to salt and challenge bytes 4 to 15 |
| Crypto.BigEndianWeighs | tesla_key_card/tesla_crypto.c:97 | stored scalars are read most significant byte first: bytes in front weigh a power of 256 for each byte behind |
| Crypto.TeslaCrypto.SetPrivateKey | tesla_key_card/tesla_crypto.c:82-127 | a ready key is a valid scalar with its own public point; without faults exactly the valid scalars are accepted, and a refusal leaves no ready key |
| Crypto.TeslaCrypto.GeneratePrivateKey | tesla_key_card/tesla_crypto.c:129-156 | a drawn key is installed and returned, or the buffer is zero |
| Crypto.TeslaCrypto.AuthenticateWithSalt | tesla_key_card/tesla_crypto.c:163-242 | success is the salted challenge under the key derived from the shared point; failure leaves the response zero; without faults it succeeds iff the key is ready and the peer key is an uncompressed point of the curve |
| Crypto.TeslaCrypto.Authenticate | tesla_key_card/tesla_crypto.c:244-260 | the same under the salt it draws |
| Crypto.CopyIf | tesla_key_card/tesla_crypto.c:24-35 | the masked loop copies everything or nothing |
| Apdu.WriteResponse | tesla_key_card/tesla_apdu.c:53-79 | data and status word are written within the capacity, bytes past them are untouched |
| Apdu.Applet.Process | tesla_key_card/tesla_apdu.c:112-230 | reply, buffer, selected flag and use of the authenticator for every request and capacity; without faults a well-formed AUTHENTICATE in an open session is answered exactly when its peer key is acceptable |
| Apdu.Applet.ProcessSelected | tesla_key_card/tesla_apdu.c:163-229 | the same for the proprietary commands |
| Apdu.Applet.AnswerAuthenticate | tesla_key_card/tesla_apdu.c:187-206 | the authenticator is asked once with the slices of the request, its answer cut to Le; refusal, which without faults only an unacceptable key gets, gives 6F00 |
| ApduSessions.SelectedIffOpenByHistory | tesla_key_card/tesla_apdu.c:108-151 | the session is open iff the last SELECT by name or reset was a SELECT of a known AID |
| ApduSessions.DataNeedsSelection | tesla_key_card/tesla_apdu.c:143-161 | response data leaves the card only in an open session |
| ApduSessions.SelectionTable | tesla_key_card/tesla_apdu.c:112-141 | a request below 4 bytes gives 6700; a SELECT by name opens the session with 9000 for a complete name starting with one of the two AIDs, and closes it with 6A82 otherwise |
| ApduSessions.RefusalTable | tesla_key_card/tesla_apdu.c:143-161 | anything else gives 6999 in a closed session; in an open one a class below 80 gives 6E00 and an unknown instruction 6D00; no data and no use of the key |
| ApduSessions.CommandTable | tesla_key_card/tesla_apdu.c:81-230 | the three commands of an open session, with their lengths, status words, data and Le byte by byte |
| ApduSessions.AskedExactlyForAuthenticates | tesla_key_card/tesla_apdu.c:175-193 | over a session the authenticator is asked exactly for the well-formed AUTHENTICATE requests seen while selected |
| ApduSessions.ReplyIsWellFormed | tesla_key_card/tesla_apdu.c:53-79 | a reply fits, is empty iff the capacity is below 2, otherwise ends with the status word reported, and carries no data on error |
| ApduSessions.ListenerBufferSuffices | tesla_key_card/tesla_nfc.c:73-76 | the listener's 67-byte buffer never turns a reply into a length error |
| ApduSessions.SelectOpensIffKnownAid | tesla_key_card/tesla_apdu.c:123-141 | a SELECT opens the session iff its name starts with one of the two AIDs, and closes it otherwise |
| ApduSessions.AuthenticateRoundTrip | tesla_key_card/tesla_apdu.c:175-207 | an encoded AUTHENTICATE reaches the authenticator with its own key and challenge, and Le cuts the answer |
| ApduSessions.AuthenticateDependsOn | tesla_key_card/tesla_apdu.c:153-207 | P1, P2, the class bits below the top one and bytes after the first 81 do not matter |
| ApduSessions.PublicKeyRoundTrip | tesla_key_card/tesla_apdu.c:164-173 | in an open session an encoded GET PUBLIC KEY gives the published key, cut to Le |
| ApduSessions.VehicleReadsResponse | tesla_key_card/tesla_apdu.c:187-203 | over the applet: for any data after the challenge and every Le that leaves the 16 bytes whole, a valid vehicle is answered with success and decrypts the data to salt and challenge |
| Nfc.SuccessNamesItsCommand | tesla_key_card/tesla_nfc.c:84-96 | success is reported exactly for what was answered, so each request is reported once |
| Nfc.ReportIsTruthful | tesla_key_card/tesla_nfc.c:84-96 | the report says whether the answer was sent, and if so whether it ends with 9000 and to which command |
| Nfc.TeslaNfc.AnswerRequest | tesla_key_card/tesla_nfc.c:69-96 | the transmit buffer holds the whole reply; the report is TransmitError iff sending failed, and otherwise names success by command or ProtocolError; without faults an acceptable AUTHENTICATE is answered |
| Nfc.TeslaNfc.HandleSignal | tesla_key_card/tesla_nfc.c:61-106 | the same for every listener event; field off and halt end the session and are reported as such |
| Nfc.TeslaNfc.Start | tesla_key_card/tesla_nfc.c:148-158 | a fresh listener begins with a closed session, a running one is left alone |
| Nfc.TeslaNfc.Stop | tesla_key_card/tesla_nfc.c:160-168 | no listener and a closed session |
| Nfc.Listen | tesla_key_card/tesla_nfc.c:61-106 | over any signals the listener's session is open iff history says so, and the key is used exactly for the well-formed AUTHENTICATE requests met while open |
| EventLedger.EventsAreConserved | tesla_key_card/tesla_key_card.c:161-229 | per kind of event: posted = consumed + cleared + waiting + dropped |
| EventLedger.PostedIsAcceptedOrDropped | tesla_key_card/tesla_key_card.c:161-171 | every event posted was accepted or dropped |
| EventLedger.AcceptedIsGoneOrWaiting | tesla_key_card/tesla_key_card.c:215-229 | every event accepted has left or waits |
| EventLedger.PutExplained | tesla_key_card/tesla_key_card.c:168-170 | a put keeps the queue in order, bounded by 16 and of one generation |
| EventLedger.GetExplained | tesla_key_card/tesla_key_card.c:215-219 | a get takes the oldest event and keeps the account |
| KeyCard.PrepareIdentity | tesla_key_card/tesla_key_card.c:231-241 | one action noted in the trace: the identity served or the failure, with every crash state accounted for; without faults it succeeds exactly on an empty store or one holding a usable key |
| KeyCard.LoadOrGenerate | tesla_key_card/tesla_key_card.c:231-241 | its body: one step of the store under any faults, and every state a loss of power in it can leave |
| KeyCard.GenerateAndSave | tesla_key_card/tesla_key_card.c:238-240 | only on an empty store: a new uid starting with 08 and a new usable key, served only once saved |
| KeyCard.KeyCardApp.Start | tesla_key_card/tesla_key_card.c:387-407 | one prepare is added to the trace, and the app comes up with the listener running for its identity, or with the error shown |
| KeyCard.KeyCardApp.PostEvent | tesla_key_card/tesla_key_card.c:161-171 | an event is lost exactly when 16 are waiting |
| KeyCard.KeyCardApp.ClearEvents | tesla_key_card/tesla_key_card.c:215-219 | everything waiting leaves as cleared, in order |
| KeyCard.KeyCardApp.Tick | tesla_key_card/tesla_key_card.c:221-229 | at most eight events are consumed in order and shown, fewer only when the queue ran empty, under any interleaved posting |
| KeyCard.KeyCardApp.TakeOne | tesla_key_card/tesla_key_card.c:189-213 | one event is shown and the counters stay in step |
| KeyCard.LastEventShows | tesla_key_card/tesla_key_card.c:189-213 | what is shown after any batch is decided by its last deciding event, the duration by its last authentication |
| KeyCard.NothingNewShown | tesla_key_card/tesla_key_card.c:189-213 | other events change nothing |
| KeyCard.KeyCardApp.ListenerSignal | tesla_key_card/tesla_nfc.c:61-106 | one callback leaves the reply in the transmit buffer, posts one event of the current generation that is truthful about it, and keeps the invariant; the key gave the right response or none, and without faults the right one |
| KeyCard.KeyCardApp.UpdateNfc | tesla_key_card/tesla_key_card.c:243-255 | the listener is replaced by one for the current key and uid |
| KeyCard.KeyCardApp.ResumeNfc | tesla_key_card/tesla_key_card.c:257-264 | the listener runs again, or is dropped |
| KeyCard.KeyCardApp.StopAndDelete | tesla_key_card/tesla_key_card.c:267-270 | before the delete the listener is stopped and the queue emptied; the delete and its report are added to the trace |
| KeyCard.KeyCardApp.ServeNewIdentity | tesla_key_card/tesla_key_card.c:276-289 | new key object, one prepare, and a listener exactly for what that prepare served |
| KeyCard.KeyCardApp.NewIdentity | tesla_key_card/tesla_key_card.c:276-284 | the old listener and key object are gone before the new identity is prepared |
| KeyCard.KeyCardApp.ReplaceIdentity | tesla_key_card/tesla_key_card.c:276-301 | cleared counters and a listener for the new identity, or the error shown |
| KeyCard.KeyCardApp.ResetIdentity | tesla_key_card/tesla_key_card.c:266-302 | a failed delete keeps identity and key; after a reported one any identity served is newly saved or is the one the staged file held before, newly saved whenever that file was not complete and usable; a reset in which nothing fails serves a new identity |
| KeyCard.KeyCardApp.HandleCustomEvent | tesla_key_card/tesla_key_card.c:304-332 | request, cancel and confirm act only on their own screen and keep the app's invariant; only confirm adds to the trace, a delete and after a reported one the prepare that any listener serves |
| KeyCard.KeyCardApp.ServedKeyAgrees | tesla_key_card/tesla_key_card.c:248-253 | a running listener is on the main screen with the current uid and public key, and has for every valid vehicle an answer that opens with that key |
| Vehicle.Send | tesla_key_card/tesla_nfc.c:61-106 | one request to the listener: the bytes sent are the reply under the right response or none |
| Vehicle.Meet | tesla_key_card/tesla_nfc.c:61-106 | SELECT, GET PUBLIC KEY and AUTHENTICATE against a running app: the vehicle gets the encoded point of the current identity, and then 6F00 or sixteen bytes with 9000 that open to salt and challenge under the key derived from the shared point; without faults the latter, and the three reports agree |
| Lives.Session | tesla_key_card/tesla_key_card.c:387-411 | under any script of GUI events and radio activity the invariant holds, events are conserved per kind, and the trace goes on accounting for the history |
| Lives.OneLife | tesla_key_card/tesla_key_card.c:387-411 | a session ended in order or by a loss of power at any point leaves an idle device whose trace accounts for its history, with everything before the session kept; of the app itself nothing outlives the session |
| Lives.Live | tesla_key_card/tesla_key_card.c:387-411 | over any number of such sessions the trace accounts for the history, the prepares between two deletes served one identity, the store holds what was served since the last delete, and a tidy store was tidy at every moment |
| Lives.FromFirstStart | tesla_key_card/tesla_key_card.c:387-411 | all of this for a new device, whatever its store holds |
| NdefLayout.BuildBlock | mfc_ndef_format/ndef_layout.c:62-78 | the buffer gets the layout of the block; only block 0 is not to be written |
| NdefLayout.DirectoryIsValid | mfc_ndef_format/ndef_layout.c:41-44 | the directory written in blocks 1 and 2 has the right CRC and assigns each of the sectors 1 to 15 to NDEF |
| NdefLayout.DataBlocks | mfc_ndef_format/ndef_layout.c:62-78 | block 4 is an empty NDEF message with its terminator, every other data block is zero |
| NdefLayout.KnownKeys | mfc_ndef_format/ndef_layout.c:80-98 | the well-known keys of every sector, and the trailers that store them |
| NdefCard.LayoutStoresSelectedKeys | mfc_ndef_format/ndef_layout.c:80-98 | the trailers of the layout store exactly the keys the selector uses on a formatted card |
| NdefCard.BlankSectorGrants | mfc_ndef_format/ndef_format.c:78-84 | a factory sector refuses key B everywhere and accepts default key A everywhere but block 0 |
| NdefCard.MadSectorGrants | mfc_ndef_format/ndef_layout.c:35-45 | the written sector 0 accepts the MAD key B only |
| NdefCard.NdefSectorGrants | mfc_ndef_format/ndef_layout.c:36-49 | a written data sector accepts its default key B everywhere, NDEF key A on data blocks |
| NdefFormat.Run | mfc_ndef_format/ndef_format.c:27-98 | result, card, failing block and progress of a run under any faults and cancel |
| NdefFormat.WriteWithEitherKey | mfc_ndef_format/ndef_format.c:73-84 | one attempt with key B, and one with key A exactly when that did not succeed |
| NdefFormat.WriteTouches | mfc_ndef_format/ndef_format.c:80-84 | a write changes its own block only |
| NdefFormat.LastErrorIsKeyA | mfc_ndef_format/ndef_format.c:80-95 | a write that fails reports what became of the attempt with key A |
| NdefFormat.OtherCardsAreLeftAlone | mfc_ndef_format/ndef_format.c:27-40 | a card not detected or not a 1K is left unchanged, with its own result |
| NdefFormat.StopsWhereAsked | mfc_ndef_format/ndef_format.c:55-95 | under any faults the run passes no block where a stop is asked, reports Canceled exactly there, and otherwise ends early only where the last attempt failed, as NoCard iff it lost the card |
| NdefFormat.BlankRunExactly | mfc_ndef_format/ndef_format.c:42-97 | on a blank card the run ends at the first block where a stop is asked or the attempt with key A goes wrong, whatever else happens |
| NdefFormat.FailedProbeIsRefused | mfc_ndef_format/ndef_format.c:42-53 | when the probe fails on a formatted card the run is refused at block 1 and changes nothing |
| NdefFormat.FormatFrame | mfc_ndef_format/ndef_format.c:55-97 | blocks before the one reached hold the layout, later ones and block 0 are untouched, success iff the end was reached |
| NdefFormat.CalmRunExactly | mfc_ndef_format/ndef_format.c:42-97 | a fault-free run succeeds iff every block is writable on the initial card, and otherwise fails at the first that is not |
| NdefFormat.MixedCardFormatsIff | mfc_ndef_format/ndef_format.c:42-97 | with each sector blank or formatted, it succeeds iff sector 0 is blank or no sector is |
| NdefFormat.BlankCardFormats | mfc_ndef_format/ndef_format.c:42-97 | a blank card always ends with the layout, block 0 unchanged |
| NdefFormat.ReformatIsIdempotent | mfc_ndef_format/ndef_format.c:42-97 | a formatted card can be formatted, and doing it twice changes nothing more |
| NdefFormat.TrailersKeptOrLaidOut | mfc_ndef_format/ndef_format.c:55-95 | after any run each trailer is what it was or its layout, unless it is the block reached and holds what a faulty write left |
| NdefFormat.ReformatResumesIff | mfc_ndef_format/ndef_format.c:55-95 | after re-formatting under any faults and cancel, a later run completes iff the end was reached or the sector reached still opens |
| NdefFormat.ReformatResumes | mfc_ndef_format/ndef_format.c:55-95 | in particular whenever the block reached is not a torn trailer |
| NdefFormat.TornTrailerBlocks | mfc_ndef_format/ndef_format.c:80-95 | on every formatted card one torn trailer can make every later run fail |
| NdefFormat.FirstFormatResumesIff | mfc_ndef_format/ndef_format.c:42-97 | after a first format under any faults and cancel, a later run completes iff the end was reached, or the sector reached opens and it is the last one or the card is not taken for formatted |
| NdefFormat.MixedIsKept | mfc_ndef_format/ndef_format.c:42-97 | a card whose sectors are each blank or formatted stays one through any run that tears no trailer |
| NdefFormat.InterruptedRunsResumeIff | mfc_ndef_format/ndef_format.c:42-97 | after any number of such runs from such a card, a run without faults completes iff sector 0 is still blank or all sectors are done |
| NdefFormat.CancelledFirstFormatResumesIff | mfc_ndef_format/ndef_format.c:55-58 | a first format asked to stop first at block b reports Canceled there; a later run completes iff b is at most 3, and otherwise fails at the first blank sector |
| NdefFormat.CancelledResumesIff | mfc_ndef_format/ndef_format.c:55-58 | the same for every cancelled first format under any faults |

## Left out

- Views, dialogs, drawing, notifications, logging and worker threads of both apps; the navigation callback only forwards events.
- The insides of mbedTLS, the enclave, the CRC, the storage driver and the NFC stack: functions with the laws stated (decryption inverts encryption, the curve is a commutative group of prime order and cofactor 1), or calls that may fail at will.
- Cryptographic strength, randomness, timing and wiping of memory for secrecy.
- Storage faults worse than these: a rename that loses the staged file and then reports failure, a full-length read with wrong bytes, a false report that a file is absent, and unsynced data that turns into anything but a prefix of what was written. Syncing shows in the order of calls, not in what survives.
- Failed unloads are taken to release the key slot; whether the enclave recovers from one is not modelled.
- The radio worker posts between steps of the GUI. Its race with a GUI callback before the listener is stopped, and after it is started, is covered because those parts of the callback do not touch what it writes.
- Trailer access conditions that let one key write only part of a trailer count as refusing it; the formatter meets none of them.
- Records, keys and the two keys of a sector are values rather than caller's buffers, so aliasing of those buffers is not captured; the identity, the response, the transmit and the block buffers are modelled in place.
- A refused write is reported as an authentication failure, not as a lost card.
- The measured duration of an ECDH calculation is any number; tick conversion and the ATS are not modelled.
