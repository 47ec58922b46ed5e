/** ndef_format.c: one format run over a card that may be lost, refuse or be stopped at any block. */
module NdefFormat {
  import opened Bytes
  import opened NdefLayout
  import opened NdefCard

  datatype MfError = NotPresent | Protocol | AuthRefused | PartialRead | Timeout

  datatype MfType = Mini | Classic1k | Classic4k

  datatype FormatResult = Done | NoCard | NotClassic1k | WriteFailed | Canceled

  /** How one write attempt goes at the radio: as the card decides, or reporting an error
      and leaving anything in the block it reached. */
  datatype Fate = Sound | Fault(error: MfError, left: Block)

  /** Everything the run does not control. */
  datatype World = World(
    detectError: Option<MfError>, kind: MfType, probeError: Option<MfError>,
    stop: nat -> bool, fate: (nat, KeyType) -> Fate)

  /** No faults and no cancel, with a 1K card on the field. */
  ghost predicate Calm(w: World) {
    && w.detectError == None && w.kind == Classic1k && w.probeError == None
    && (forall b :: !w.stop(b))
    && (forall b, k :: w.fate(b, k) == Sound)
  }

  /** How a run ended: the block it had reached (BLOCKS when it went through) and the card it left. */
  datatype Outcome = Outcome(result: FormatResult, reached: nat, card: Card)

  function WriteOnce(card: Card, b: nat, k: KeyType, key: Key, data: Block, fate: Fate): (Option<MfError>, Card)
    requires b < BLOCKS
  {
    if !Permits(card, b, k, key) then (Some(if fate.Sound? then AuthRefused else fate.error), card)
    else if fate.Sound? then (None, card[b := data])
    else (Some(fate.error), card[b := fate.left])
  }

  /** Key B first, then key A. */
  function WriteEither(card: Card, b: nat, formatted: bool, w: World): (Option<MfError>, Card)
    requires b < BLOCKS
  {
    var s := SectorOfBlock(b);
    var (errorB, cardB) := WriteOnce(card, b, B, SectorKeyB(formatted, s), Layout(b), w.fate(b, B));
    if errorB == None then (errorB, cardB)
    else WriteOnce(cardB, b, A, SectorKeyA(formatted, s), Layout(b), w.fate(b, A))
  }

  function ResultOf(error: MfError): FormatResult {
    if error == NotPresent || error == Timeout then NoCard else WriteFailed
  }

  function RunFrom(card: Card, formatted: bool, b: nat, w: World): Outcome
    requires b <= BLOCKS
    decreases BLOCKS - b
  {
    if b == BLOCKS then Outcome(Done, b, card)
    else if w.stop(b) then Outcome(Canceled, b, card)
    else if b == 0 then RunFrom(card, formatted, b + 1, w)
    else
      var (error, next) := WriteEither(card, b, formatted, w);
      if error.Some? then Outcome(ResultOf(error.value), b, next)
      else RunFrom(next, formatted, b + 1, w)
  }

  /** Whether sector 0 opens with the MAD key A. */
  predicate Probes(card: Card) {
    Authenticates(card[3], A, SectorKeyA(true, 0))
  }

  function Format(card: Card, w: World): Outcome {
    if w.detectError.Some? then Outcome(NoCard, 0, card)
    else if w.kind != Classic1k then Outcome(NotClassic1k, 0, card)
    else RunFrom(card, w.probeError.None? && Probes(card), 0, w)
  }

  /** The card on the field; tried is the observer's record of the write attempts. */
  class Tag {
    var card: Card
    ghost var tried: seq<(nat, KeyType, Key)>

    constructor (card: Card)
      ensures this.card == card && tried == []
    {
      this.card, tried := card, [];
    }

    method Write(b: nat, k: KeyType, key: Key, data: Block, fate: Fate) returns (error: Option<MfError>)
      requires b < BLOCKS
      modifies this
      ensures (error, card) == WriteOnce(old(card), b, k, key, data, fate)
      ensures tried == old(tried) + [(b, k, key)]
    {
      tried := tried + [(b, k, key)];
      if !Permits(card, b, k, key) {
        return Some(if fate.Sound? then AuthRefused else fate.error);
      }
      match fate
      case Sound =>
        card := card[b := data];
        error := None;
      case Fault(e, left) =>
        card := card[b := left];
        error := Some(e);
    }
  }

  /** struct MfcNdefFormat: what a run reports besides its result. */
  class Report {
    var failBlock: nat
    var progress: seq<nat>

    constructor ()
      ensures failBlock == 0 && progress == []
    {
      failBlock, progress := 0, [];
    }
  }

  /** The loop's write: key B first, then key A. */
  method WriteWithEitherKey(tag: Tag, b: nat, formatted: bool, data: array<byte>, w: World)
    returns (error: Option<MfError>)
    requires b < BLOCKS && data.Length == 16 && data[..] == Layout(b)
    modifies tag
    ensures (error, tag.card) == WriteEither(old(tag.card), b, formatted, w)
    ensures var s := SectorOfBlock(b);
            var keyB := SectorKeyB(formatted, s);
            tag.tried == old(tag.tried) + [(b, B, keyB)]
                         + if w.fate(b, B).Sound? && Permits(old(tag.card), b, B, keyB) then []
                           else [(b, A, SectorKeyA(formatted, s))]
  {
    hide Permits, Layout;
    var sector := SectorOfBlock(b);
    error := tag.Write(b, B, SectorKeyB(formatted, sector), data[..], w.fate(b, B));
    if error.Some? {
      error := tag.Write(b, A, SectorKeyA(formatted, sector), data[..], w.fate(b, A));
    }
  }

  function BlocksBefore(n: nat): seq<nat> {
    seq(n, i => i)
  }

  lemma NoBlocks()
    ensures BlocksBefore(0) == []
  {
  }

  lemma OneMoreBlock(n: nat)
    ensures BlocksBefore(n + 1) == BlocksBefore(n) + [n]
  {
  }

  lemma RunUnfolds(card: Card, formatted: bool, b: nat, w: World)
    requires b <= BLOCKS
    ensures RunFrom(card, formatted, b, w) ==
            if b == BLOCKS then Outcome(Done, b, card)
            else if w.stop(b) then Outcome(Canceled, b, card)
            else if b == 0 then RunFrom(card, formatted, b + 1, w)
            else
              var (error, next) := WriteEither(card, b, formatted, w);
              if error.Some? then Outcome(ResultOf(error.value), b, next)
              else RunFrom(next, formatted, b + 1, w)
  {
  }

  /** mfc_ndef_format_run. */
  method Run(tag: Tag, fmt: Report, w: World) returns (result: FormatResult)
    modifies tag, fmt
    ensures var o := Format(old(tag.card), w);
            && result == o.result && tag.card == o.card
            && fmt.failBlock == (if o.reached > 0 && o.result in {NoCard, WriteFailed} then o.reached
                                 else old(fmt.failBlock))
            && fmt.progress == old(fmt.progress) + BlocksBefore(o.reached)
  {
    hide RunFrom, WriteEither, Layout, Probes, BlocksBefore, Permits, SectorKeyA, SectorKeyB, SectorOfBlock;
    NoBlocks();
    assert fmt.progress + [] == fmt.progress;
    if w.detectError.Some? {
      return NoCard;
    }
    if w.kind != Classic1k {
      return NotClassic1k;
    }
    var formatted := w.probeError.None? && Probes(tag.card);
    var out := new byte[16];
    for b := 0 to BLOCKS
      invariant RunFrom(old(tag.card), formatted, 0, w) == RunFrom(tag.card, formatted, b, w)
      invariant fmt.failBlock == old(fmt.failBlock) && fmt.progress == old(fmt.progress) + BlocksBefore(b)
    {
      RunUnfolds(tag.card, formatted, b, w);
      if w.stop(b) {
        return Canceled;
      }
      var write := BuildBlock(b, out);
      if write {
        var error := WriteWithEitherKey(tag, b, formatted, out, w);
        if error.Some? {
          fmt.failBlock := b;
          return ResultOf(error.value);
        }
      }
      fmt.progress := fmt.progress + [b];
      assert old(fmt.progress) + BlocksBefore(b) + [b] == old(fmt.progress) + BlocksBefore(b + 1) by {
        OneMoreBlock(b);
      }
    }
    RunUnfolds(tag.card, formatted, BLOCKS, w);
    result := Done;
  }

  /** One write touches its own block only, and leaves there the layout, what was there, or what a fault left. */
  lemma WriteTouches(card: Card, b: nat, formatted: bool, w: World)
    requires b < BLOCKS
    ensures var (error, next) := WriteEither(card, b, formatted, w);
            && (forall j :: 0 <= j < BLOCKS && j != b ==> next[j] == card[j])
            && (error == None ==> next[b] == Layout(b))
            && (next[b] == card[b] || next[b] == Layout(b)
                || exists k :: w.fate(b, k).Fault? && next[b] == w.fate(b, k).left)
  {
    hide Permits, Layout;
    assert w.fate(b, A).Fault? || w.fate(b, A).Sound?;
    assert w.fate(b, B).Fault? || w.fate(b, B).Sound?;
  }

  /** A write that fails reports what became of the attempt with key A. */
  lemma LastErrorIsKeyA(card: Card, b: nat, formatted: bool, w: World)
    requires b < BLOCKS
    ensures var (error, next) := WriteEither(card, b, formatted, w);
            error.Some? ==> error.value == if w.fate(b, A).Fault? then w.fate(b, A).error else AuthRefused
  {
    hide Permits, Layout;
  }

  /** Without faults a write succeeds exactly when one of the two keys permits it. */
  lemma CalmWrite(card: Card, b: nat, formatted: bool, w: World)
    requires Calm(w) && b < BLOCKS
    ensures var (error, next) := WriteEither(card, b, formatted, w);
            && (error == None <==> Writable(card, b, formatted))
            && (error != None ==> error == Some(AuthRefused))
  {
    hide Permits, Layout;
  }

  /** Under any faults and any cancel: the blocks before the one reached hold the layout, those
      after it and block 0 are untouched, and the run reports success exactly when it reached the end. */
  lemma {:induction false} RunFrame(card: Card, formatted: bool, b: nat, w: World)
    requires b <= BLOCKS
    ensures var o := RunFrom(card, formatted, b, w);
            && b <= o.reached <= BLOCKS
            && (o.result == Done <==> o.reached == BLOCKS)
            && (forall j :: 0 < j < BLOCKS && b <= j < o.reached ==> o.card[j] == Layout(j))
            && (forall j :: 0 <= j < BLOCKS && (j < b || j > o.reached || j == 0) ==> o.card[j] == card[j])
            && (o.result == Canceled && o.reached < BLOCKS ==> o.card[o.reached] == card[o.reached])
    ensures var o := RunFrom(card, formatted, b, w);
            && (forall j :: b <= j < o.reached ==> !w.stop(j))
            && (o.result == Canceled <==> o.reached < BLOCKS && w.stop(o.reached))
            && (o.reached < BLOCKS && !w.stop(o.reached) ==>
                  var last := w.fate(o.reached, A);
                  && o.reached > 0
                  && o.result == if last.Fault? && last.error in {NotPresent, Timeout} then NoCard else WriteFailed)
    decreases BLOCKS - b
  {
    hide WriteEither, Layout;
    if b < BLOCKS && !w.stop(b) {
      WriteTouches(card, b, formatted, w);
      LastErrorIsKeyA(card, b, formatted, w);
      RunFrame(if b == 0 then card else WriteEither(card, b, formatted, w).1, formatted, b + 1, w);
    }
  }

  lemma FormatFrame(card: Card, w: World)
    ensures var o := Format(card, w);
            && o.reached <= BLOCKS
            && (o.result == Done <==> o.reached == BLOCKS)
            && (forall j :: 0 < j < o.reached ==> o.card[j] == Layout(j))
            && (forall j :: 0 <= j < BLOCKS && (j > o.reached || j == 0) ==> o.card[j] == card[j])
            && (o.result == Canceled ==> o.card[o.reached] == card[o.reached])
  {
    if w.detectError.None? && w.kind == Classic1k {
      RunFrame(card, w.probeError.None? && Probes(card), 0, w);
    }
  }

  /** A card that was not detected, or is not a 1K, is left as it is, with its own result and nothing reached. */
  lemma OtherCardsAreLeftAlone(card: Card, w: World)
    ensures w.detectError.Some? ==> Format(card, w) == Outcome(NoCard, 0, card)
    ensures w.detectError.None? && w.kind != Classic1k ==> Format(card, w) == Outcome(NotClassic1k, 0, card)
    ensures Format(card, w).result == NotClassic1k <==> w.detectError.None? && w.kind != Classic1k
  {
    if w.detectError.None? && w.kind == Classic1k {
      RunFrame(card, w.probeError.None? && Probes(card), 0, w);
    }
  }

  /** On a 1K under any faults: the run goes past no block at which it is asked to stop, it reports
      Canceled exactly where it was asked to, and otherwise it ends early only at a block whose last
      attempt failed, as a lost card exactly when that attempt lost it. */
  lemma StopsWhereAsked(card: Card, w: World)
    requires w.detectError.None? && w.kind == Classic1k
    ensures var o := Format(card, w);
            && o.reached <= BLOCKS
            && (forall j :: 0 <= j < o.reached ==> !w.stop(j))
            && (o.result == Canceled <==> o.reached < BLOCKS && w.stop(o.reached))
            && (o.reached < BLOCKS && !w.stop(o.reached) ==>
                  var last := w.fate(o.reached, A);
                  && o.reached > 0
                  && o.result == if last.Fault? && last.error in {NotPresent, Timeout} then NoCard else WriteFailed)
  {
    RunFrame(card, w.probeError.None? && Probes(card), 0, w);
  }

  /** A blank card refuses key B, so only the attempts with key A matter: whatever else happens, the run ends
      at the first block where it is asked to stop or that attempt goes wrong. */
  lemma BlankRunExactly(card: Card, w: World)
    requires Blank(card) && w.detectError.None? && w.kind == Classic1k
    ensures var o := Format(card, w);
            && (forall j :: 0 <= j < o.reached ==> !w.stop(j) && (j > 0 ==> w.fate(j, A).Sound?))
            && (o.reached < BLOCKS ==> w.stop(o.reached) || (o.reached > 0 && w.fate(o.reached, A).Fault?))
  {
    BlankIsNotFormatted(card, 0);
    assert BlankTrailer(card[4 * 0 + 3]);
    MixedProbe(card);
    BlankRunFrom(card, card, 0, w);
  }

  lemma {:induction false} BlankRunFrom(start: Card, card: Card, b: nat, w: World)
    requires Blank(start) && b <= BLOCKS
    requires forall j :: b <= j < BLOCKS ==> card[j] == start[j]
    ensures var o := RunFrom(card, false, b, w);
            && (forall j :: b <= j < o.reached ==> !w.stop(j) && (j > 0 ==> w.fate(j, A).Sound?))
            && (o.reached < BLOCKS ==> w.stop(o.reached) || (o.reached > 0 && w.fate(o.reached, A).Fault?))
    decreases BLOCKS - b
  {
    hide WriteEither, Layout, BlankTrailer;
    if b < BLOCKS && !w.stop(b) {
      WriteTouches(card, b, false, w);
      BlankWrite(card, b, w) by {
        assert TrailerOf(b) >= b && card[TrailerOf(b)] == start[TrailerOf(b)];
        assert BlankTrailer(start[4 * SectorOfBlock(b) + 3]);
      }
      BlankRunFrom(start, if b == 0 then card else WriteEither(card, b, false, w).1, b + 1, w);
    }
  }

  lemma BlankWrite(card: Card, b: nat, w: World)
    requires b < BLOCKS && BlankTrailer(card[TrailerOf(b)])
    ensures b > 0 ==> (WriteEither(card, b, false, w).0 == None <==> w.fate(b, A).Sound?)
  {
    BlankSectorGrants(card[TrailerOf(b)], b, false);
    hide Grants, Layout, BlankTrailer;
  }

  /** When the probe itself fails, a formatted card is taken for a blank one: a run in which nothing else
      goes wrong is refused at block 1 and changes nothing. */
  lemma FailedProbeIsRefused(card: Card, w: World)
    requires FormattedTrailer(card, 0)
    requires w.detectError.None? && w.kind == Classic1k && w.probeError.Some?
    requires !w.stop(0) && !w.stop(1) && w.fate(1, A) == w.fate(1, B) == Sound
    ensures Format(card, w) == Outcome(WriteFailed, 1, card)
  {
    MadSectorGrants(1, false);
    hide Grants, Layout;
    assert card[4 * 0 + 3] == card[3];
    assert RunFrom(card, false, 0, w) == RunFrom(card, false, 1, w);
  }

  /** Whether a block can be written on this card with one of the two keys selected for it. */
  predicate Writable(card: Card, b: nat, formatted: bool)
    requires b < BLOCKS
  {
    || Permits(card, b, B, SectorKeyB(formatted, SectorOfBlock(b)))
    || Permits(card, b, A, SectorKeyA(formatted, SectorOfBlock(b)))
  }

  /** The run never locks itself out: although it replaces the keys it is using, whether it
      passes a block is decided by the card as it was at the start. */
  lemma {:induction false} CalmRunFrom(start: Card, card: Card, formatted: bool, b: nat, w: World)
    requires Calm(w) && b <= BLOCKS
    requires forall j :: b <= j < BLOCKS ==> card[j] == start[j]
    ensures var o := RunFrom(card, formatted, b, w);
            && b <= o.reached <= BLOCKS
            && (forall j :: 0 < j < BLOCKS && b <= j < o.reached ==> Writable(start, j, formatted))
            && (o.reached < BLOCKS ==>
                  o.result == WriteFailed && !Writable(start, o.reached, formatted) && o.reached > 0)
            && (o.reached == BLOCKS ==> o.result == Done)
    decreases BLOCKS - b
  {
    hide WriteEither, Layout, Grants;
    if b < BLOCKS {
      assert b <= TrailerOf(b) < BLOCKS && card[TrailerOf(b)] == start[TrailerOf(b)];
      WriteTouches(card, b, formatted, w);
      CalmWrite(card, b, formatted, w);
      CalmRunFrom(start, if b == 0 then card else WriteEither(card, b, formatted, w).1, formatted, b + 1, w);
    }
  }

  /** A run without faults succeeds if and only if every block is writable on the card it was given,
      and otherwise fails at the first block that is not. */
  lemma CalmRunExactly(card: Card, w: World)
    requires Calm(w)
    ensures var o := Format(card, w);
            && (o.result == Done <==> forall j :: 0 < j < BLOCKS ==> Writable(card, j, Probes(card)))
            && (o.result != Done ==>
                  && o.result == WriteFailed && 0 < o.reached < BLOCKS && !Writable(card, o.reached, Probes(card))
                  && forall j :: 0 < j < o.reached ==> Writable(card, j, Probes(card)))
  {
    CalmRunFrom(card, card, Probes(card), 0, w);
    FormatFrame(card, w);
  }

  /** Every sector is either still factory blank or already carries its layout trailer. */
  predicate Mixed(card: Card) {
    forall s: nat :: s < SECTORS ==> BlankTrailer(card[4 * s + 3]) || FormattedTrailer(card, s)
  }

  lemma MixedProbe(card: Card)
    requires Mixed(card)
    ensures Probes(card) <==> FormattedTrailer(card, 0)
    ensures FormattedTrailer(card, 0) <==> !BlankTrailer(card[3])
  {
    assert card[4 * 0 + 3] == card[3] && Layout(3) == MAD_TRAILER;
    LayoutStoresSelectedKeys(0, A);
    assert KEY_DEFAULT[0] != KEY_MAD_A[0];
    assert AccessConsistent(MAD_TRAILER);
  }

  lemma MixedWritable(card: Card, b: nat)
    requires Mixed(card) && 0 < b < BLOCKS
    ensures Writable(card, b, Probes(card)) <==> BlankTrailer(card[3]) || FormattedTrailer(card, SectorOfBlock(b))
  {
    hide Grants, BlankTrailer, Probes, StoredKey;
    var s := SectorOfBlock(b);
    assert TrailerOf(b) == 4 * s + 3;
    var formatted := Probes(card);
    MixedProbe(card);
    if BlankTrailer(card[4 * s + 3]) {
      BlankSectorGrants(card[4 * s + 3], b, formatted);
      BlankIsNotFormatted(card, s);
    } else if s == 0 {
      assert FormattedTrailer(card, 0);
      MadSectorGrants(b, formatted);
    } else {
      assert IsTrailer(4 * s + 3) && FormattedTrailer(card, s);
      NdefSectorGrants(b, formatted);
    }
  }

  lemma BlankIsNotFormatted(card: Card, s: nat)
    requires s < SECTORS
    ensures !(BlankTrailer(card[4 * s + 3]) && FormattedTrailer(card, s))
  {
    LayoutStoresSelectedKeys(s, A);
  }

  /** On such a card a run without faults succeeds if and only if sector 0 is still blank or no sector is. */
  lemma MixedCardFormatsIff(card: Card, w: World)
    requires Mixed(card) && Calm(w)
    ensures Format(card, w).result == Done <==> BlankTrailer(card[3]) || Formatted(card)
  {
    CalmRunExactly(card, w);
    forall j | 0 < j < BLOCKS
      ensures Writable(card, j, Probes(card)) <==> BlankTrailer(card[3]) || FormattedTrailer(card, SectorOfBlock(j))
    {
      MixedWritable(card, j);
    }
    if !BlankTrailer(card[3]) && !Formatted(card) {
      var s: nat :| s < SECTORS && !FormattedTrailer(card, s);
      assert SectorOfBlock(4 * s + 3) == s;
    }
  }

  /** A blank card, whatever its data and UID, always ends formatted, block 0 apart. */
  lemma BlankCardFormats(card: Card, w: World)
    requires Blank(card) && Calm(w)
    ensures var o := Format(card, w);
            && o.result == Done && o.card[0] == card[0]
            && (forall j :: 0 < j < BLOCKS ==> o.card[j] == Layout(j))
            && Formatted(o.card)
  {
    assert BlankTrailer(card[4 * 0 + 3]);
    MixedCardFormatsIff(card, w);
    FormatFrame(card, w);
  }

  /** Formatting a formatted card succeeds, and formatting its result again changes nothing. */
  lemma ReformatIsIdempotent(card: Card, w: World)
    requires Formatted(card) && Calm(w)
    ensures var o := Format(card, w); o.result == Done && Format(o.card, w) == o
  {
    MixedCardFormatsIff(card, w);
    FormatFrame(card, w);
    var o := Format(card, w);
    assert forall s: nat :: s < SECTORS ==> FormattedTrailer(o.card, s);
    MixedCardFormatsIff(o.card, w);
    FormatFrame(o.card, w);
    assert Format(o.card, w).card == o.card;
  }

  /** After any run each trailer is what it was or its layout, unless a faulty write tore that very one. */
  lemma TrailersKeptOrLaidOut(card: Card, w: World, t: nat)
    requires t < BLOCKS && IsTrailer(t)
    ensures var o := Format(card, w);
            || o.card[t] in {card[t], Layout(t)}
            || (t == o.reached && exists k :: w.fate(t, k).Fault? && o.card[t] == w.fate(t, k).left)
  {
    FormatFrame(card, w);
    if w.detectError.None? && w.kind == Classic1k {
      TornByFault(card, card, w.probeError.None? && Probes(card), 0, w, t);
    }
  }

  lemma {:induction false} TornByFault(start: Card, card: Card, formatted: bool, b: nat, w: World, t: nat)
    requires b <= BLOCKS && t < BLOCKS
    requires card[t] in {start[t], Layout(t)} || exists k :: w.fate(t, k).Fault? && card[t] == w.fate(t, k).left
    ensures var left := RunFrom(card, formatted, b, w).card[t];
            left in {start[t], Layout(t)} || exists k :: w.fate(t, k).Fault? && left == w.fate(t, k).left
    decreases BLOCKS - b
  {
    hide WriteEither, Layout;
    if b < BLOCKS && !w.stop(b) {
      WriteTouches(card, b, formatted, w);
      TornByFault(start, if b == 0 then card else WriteEither(card, b, formatted, w).1, formatted, b + 1, w, t);
    }
  }

  /** The block a run had reached is not a trailer it left torn. */
  predicate NotTorn(card: Card, o: Outcome) {
    o.reached >= BLOCKS || !IsTrailer(o.reached) || o.card[o.reached] in {card[o.reached], Layout(o.reached)}
  }

  /** A later run finds every block of the sector writable. */
  predicate SectorOpens(card: Card, s: nat)
    requires s < SECTORS
  {
    forall j :: 0 < j < BLOCKS && SectorOfBlock(j) == s ==> Writable(card, j, Probes(card))
  }

  /** A sector with its layout trailer opens on any card. */
  lemma LaidOutOpens(card: Card, b: nat)
    requires 0 < b < BLOCKS && FormattedTrailer(card, SectorOfBlock(b))
    ensures Writable(card, b, Probes(card))
  {
    hide Grants, StoredKey;
    var s := SectorOfBlock(b);
    assert TrailerOf(b) == 4 * s + 3;
    if s == 0 {
      LaidOutProbes(card);
      MadSectorGrants(b, true);
    } else {
      assert IsTrailer(4 * s + 3);
      NdefSectorGrants(b, Probes(card));
    }
  }

  lemma LaidOutProbes(card: Card)
    requires FormattedTrailer(card, 0)
    ensures Probes(card)
  {
    assert card[4 * 0 + 3] == card[3] && Layout(3) == MAD_TRAILER;
    LayoutStoresSelectedKeys(0, A);
    assert AccessConsistent(MAD_TRAILER);
  }

  /** A blank sector opens exactly on a card not taken for formatted. */
  lemma BlankOpens(card: Card, b: nat)
    requires 0 < b < BLOCKS && BlankTrailer(card[TrailerOf(b)])
    ensures Writable(card, b, Probes(card)) <==> !Probes(card)
  {
    hide Grants, Probes, BlankTrailer;
    BlankSectorGrants(card[TrailerOf(b)], b, Probes(card));
  }

  /** The trailers of the other sectors: those before the block reached are laid out, those after it are as before. */
  lemma OtherTrailers(card: Card, w: World, s: nat)
    requires s < SECTORS
    ensures var o := Format(card, w);
            && (o.reached == BLOCKS || s < SectorOfBlock(o.reached) ==> FormattedTrailer(o.card, s))
            && (o.reached < BLOCKS && s > SectorOfBlock(o.reached) ==> o.card[4 * s + 3] == card[4 * s + 3])
  {
    hide Format, Layout;
    FormatFrame(card, w);
  }

  /** Re-formatting under any faults: a later run completes if and only if the sector where the first
      one ended still opens. */
  lemma ReformatResumesIff(card: Card, w: World, later: World)
    requires Formatted(card) && Calm(later)
    ensures var o := Format(card, w);
            o.reached <= BLOCKS
            && (Format(o.card, later).result == Done
                <==> o.reached == BLOCKS || SectorOpens(o.card, SectorOfBlock(o.reached)))
  {
    hide Format, Layout, Calm, Writable, Probes;
    var o := Format(card, w);
    FormatFrame(card, w);
    CalmRunExactly(o.card, later);
    forall j | 0 < j < BLOCKS && (o.reached == BLOCKS || SectorOfBlock(j) != SectorOfBlock(o.reached))
      ensures Writable(o.card, j, Probes(o.card))
    {
      OtherTrailers(card, w, SectorOfBlock(j));
      assert FormattedTrailer(card, SectorOfBlock(j));
      LaidOutOpens(o.card, j);
    }
  }

  /** Hence re-formatting is resumable from any stop or fault that did not tear a trailer. */
  lemma ReformatResumes(card: Card, w: World, later: World)
    requires Formatted(card) && Calm(later)
    ensures var o := Format(card, w);
            NotTorn(card, o) ==> Formatted(o.card) && Format(o.card, later).result == Done
  {
    hide Format, Layout, Calm;
    var o := Format(card, w);
    FormatFrame(card, w);
    forall s: nat | s < SECTORS && NotTorn(card, o)
      ensures FormattedTrailer(o.card, s)
    {
      assert FormattedTrailer(card, s);
      OtherTrailers(card, w, s);
      if o.reached < BLOCKS && SectorOfBlock(o.reached) == s {
        assert o.reached <= 4 * s + 3;
      }
    }
    if NotTorn(card, o) {
      MixedCardFormatsIff(o.card, later);
    }
  }

  /** A torn trailer can indeed block the card: any formatted card, one fault, and no later run completes. */
  lemma TornTrailerBlocks(card: Card, later: World) returns (w: World)
    requires Formatted(card) && Calm(later)
    ensures Format(card, w).reached == 3 && Format(Format(card, w).card, later).result != Done
  {
    w := World(None, Classic1k, None, b => false,
               (b, k) => if b == 3 then Fault(Protocol, Zeros(16)) else Sound);
    assert FormattedTrailer(card, 0);
    LaidOutProbes(card);
    TornAtThree(card, w);
    ReformatResumesIff(card, w, later);
    assert !Writable(Format(card, w).card, 1, Probes(Format(card, w).card));
  }

  lemma TornAtThree(card: Card, w: World)
    requires card[3] == MAD_TRAILER && Probes(card)
    requires w.detectError == None && w.kind == Classic1k && w.probeError == None && forall b :: !w.stop(b)
    requires forall b, k :: w.fate(b, k) == if b == 3 then Fault(Protocol, Zeros(16)) else Sound
    ensures Format(card, w).reached == 3 && Format(card, w).card[3] == Zeros(16)
  {
    hide Grants, Probes, Layout;
    MadSectorGrants(1, true);
    MadSectorGrants(2, true);
    MadSectorGrants(3, true);
    var first := WriteEither(card, 1, true, w).1;
    var second := WriteEither(first, 2, true, w).1;
    var third := WriteEither(second, 3, true, w).1;
    ZerosGrantNothing(3, A, SectorKeyA(true, 0));
    assert RunFrom(card, true, 0, w) == RunFrom(card, true, 1, w);
    assert RunFrom(card, true, 1, w) == RunFrom(first, true, 2, w);
    assert RunFrom(first, true, 2, w) == RunFrom(second, true, 3, w);
  }

  lemma ZerosGrantNothing(b: nat, k: KeyType, key: Key)
    ensures !Grants(Zeros(16), b, k, key)
  {
  }

  /** A first format under any faults, stopped at any block: a later run completes if and only if the
      sector reached opens and the sectors after it do, which are still blank. */
  lemma FirstFormatResumesIff(card: Card, w: World, later: World)
    requires Blank(card) && Calm(later)
    ensures var o := Format(card, w);
            o.reached <= BLOCKS
            && (Format(o.card, later).result == Done
                <==> o.reached == BLOCKS
                     || (SectorOpens(o.card, SectorOfBlock(o.reached))
                         && (SectorOfBlock(o.reached) == SECTORS - 1 || !Probes(o.card))))
  {
    hide Format, Layout, Calm, Writable, Probes, BlankTrailer;
    var o := Format(card, w);
    FormatFrame(card, w);
    CalmRunExactly(o.card, later);
    forall j | 0 < j < BLOCKS && (o.reached == BLOCKS || SectorOfBlock(j) < SectorOfBlock(o.reached))
      ensures Writable(o.card, j, Probes(o.card))
    {
      OtherTrailers(card, w, SectorOfBlock(j));
      LaidOutOpens(o.card, j);
    }
    forall j | 0 < j < BLOCKS && o.reached < BLOCKS && SectorOfBlock(j) > SectorOfBlock(o.reached)
      ensures Writable(o.card, j, Probes(o.card)) <==> !Probes(o.card)
    {
      OtherTrailers(card, w, SectorOfBlock(j));
      BlankOpens(o.card, j);
    }
    if o.reached < BLOCKS && SectorOfBlock(o.reached) < SECTORS - 1 {
      assert SectorOfBlock(BLOCKS - 1) > SectorOfBlock(o.reached);
    }
  }

  /** A card whose sectors are each blank or formatted stays one through any run that tears no trailer. */
  lemma MixedIsKept(card: Card, w: World)
    requires Mixed(card)
    ensures var o := Format(card, w); NotTorn(card, o) ==> Mixed(o.card)
  {
    hide Format, Layout, BlankTrailer;
    var o := Format(card, w);
    FormatFrame(card, w);
    forall s: nat | s < SECTORS && NotTorn(card, o)
      ensures BlankTrailer(o.card[4 * s + 3]) || FormattedTrailer(o.card, s)
    {
      assert BlankTrailer(card[4 * s + 3]) || FormattedTrailer(card, s);
      OtherTrailers(card, w, s);
      if o.reached < BLOCKS && SectorOfBlock(o.reached) == s {
        assert o.reached <= 4 * s + 3;
      }
    }
  }

  /** The card after one run in each of these worlds. */
  function AfterRuns(card: Card, worlds: seq<World>): Card {
    if worlds == [] then card else Format(AfterRuns(card, worlds[..|worlds| - 1]), worlds[|worlds| - 1]).card
  }

  ghost predicate NoneTorn(card: Card, worlds: seq<World>) {
    forall i :: 0 <= i < |worlds| ==>
      NotTorn(AfterRuns(card, worlds[..i]), Format(AfterRuns(card, worlds[..i]), worlds[i]))
  }

  lemma {:induction false} RunsKeepMixed(card: Card, worlds: seq<World>)
    requires Mixed(card) && NoneTorn(card, worlds)
    ensures Mixed(AfterRuns(card, worlds))
  {
    hide Format, Mixed, NotTorn;
    if worlds != [] {
      var n := |worlds| - 1;
      assert forall i :: 0 <= i < n ==> worlds[..n][..i] == worlds[..i];
      RunsKeepMixed(card, worlds[..n]);
      MixedIsKept(AfterRuns(card, worlds[..n]), worlds[n]);
    }
  }

  /** After any number of runs, each stopped or failing anywhere without tearing a trailer, a run
      without faults completes if and only if sector 0 is still blank or every sector is done. */
  lemma InterruptedRunsResumeIff(card: Card, worlds: seq<World>, later: World)
    requires Mixed(card) && NoneTorn(card, worlds) && Calm(later)
    ensures var left := AfterRuns(card, worlds);
            Format(left, later).result == Done <==> BlankTrailer(left[3]) || Formatted(left)
  {
    RunsKeepMixed(card, worlds);
    MixedCardFormatsIff(AfterRuns(card, worlds), later);
  }

  /** A first format stopped at block b, the first where it is asked to and with no attempt with key A going
      wrong before: it reports Canceled there, a later run completes exactly when b is at most 3, and
      otherwise that run fails on the first blank sector. */
  lemma CancelledFirstFormatResumesIff(card: Card, w: World, later: World, b: nat)
    requires Blank(card) && Calm(later) && w.detectError.None? && w.kind == Classic1k
    requires b < BLOCKS && w.stop(b)
    requires forall j :: 0 <= j < b ==> !w.stop(j) && (j > 0 ==> w.fate(j, A).Sound?)
    ensures var o := Format(card, w);
            && o.result == Canceled && o.reached == b
            && (Format(o.card, later).result == Done <==> b <= 3)
            && (b > 3 ==>
                  && Format(o.card, later).result == WriteFailed
                  && Format(o.card, later).reached == 4 * SectorOfBlock(b))
  {
    hide Format, BlankTrailer, Layout;
    BlankRunExactly(card, w);
    StopsWhereAsked(card, w);
    CancelledResumesIff(card, w, later);
  }

  /** The same for every cancelled first format, in terms of the block where it was. */
  lemma CancelledResumesIff(card: Card, w: World, later: World)
    requires Blank(card) && Calm(later)
    requires Format(card, w).result == Canceled
    ensures var o := Format(card, w);
            && o.reached < BLOCKS && w.stop(o.reached)
            && (Format(o.card, later).result == Done <==> o.reached <= 3)
            && (o.reached > 3 ==>
                  && Format(o.card, later).result == WriteFailed
                  && Format(o.card, later).reached == 4 * SectorOfBlock(o.reached))
  {
    OtherCardsAreLeftAlone(card, w);
    hide Format, BlankTrailer, Layout, Calm;
    var o := Format(card, w);
    StopsWhereAsked(card, w);
    FormatFrame(card, w);
    assert Mixed(card);
    MixedIsKept(card, w);
    MixedCardFormatsIff(o.card, later);
    CutSector(card, o.card, o.reached);
    if o.reached > 3 {
      ResumeStopsAt(o.card, later, SectorOfBlock(o.reached));
    }
  }

  /** A blank card written up to, not including, block cut: the sectors before are done, the rest blank. */
  lemma CutSector(card: Card, left: Card, cut: nat)
    requires Blank(card) && cut < BLOCKS
    requires forall j :: 0 < j < cut ==> left[j] == Layout(j)
    requires forall j :: cut <= j < BLOCKS ==> left[j] == card[j]
    ensures forall i: nat :: i < SectorOfBlock(cut) ==> FormattedTrailer(left, i)
    ensures forall i: nat :: SectorOfBlock(cut) <= i < SECTORS ==> BlankTrailer(left[4 * i + 3])
    ensures BlankTrailer(left[3]) <==> cut <= 3
    ensures !Formatted(left)
  {
    hide Layout, BlankTrailer;
    var s := SectorOfBlock(cut);
    assert cut <= 4 * s + 3 < BLOCKS;
    assert left[4 * 0 + 3] == left[3];
    BlankIsNotFormatted(left, s);
    BlankIsNotFormatted(left, 0);
  }

  /** With the sectors before s done and the others still blank, a later run stops at the first block of s. */
  lemma ResumeStopsAt(card: Card, w: World, s: nat)
    requires Calm(w) && 0 < s < SECTORS
    requires forall i: nat :: i < s ==> FormattedTrailer(card, i)
    requires forall i: nat :: s <= i < SECTORS ==> BlankTrailer(card[4 * i + 3])
    ensures Format(card, w).result == WriteFailed && Format(card, w).reached == 4 * s
  {
    hide Format, BlankTrailer, Layout, Calm, Writable, Probes;
    CalmRunExactly(card, w);
    forall j | 0 < j <= 4 * s
      ensures Writable(card, j, Probes(card)) <==> j < 4 * s
    {
      MixedWritable(card, j);
      assert card[4 * 0 + 3] == card[3];
      BlankIsNotFormatted(card, 0);
      assert SectorOfBlock(4 * s) == s;
      BlankIsNotFormatted(card, s);
    }
    assert !Writable(card, 4 * s, Probes(card));
  }
}
