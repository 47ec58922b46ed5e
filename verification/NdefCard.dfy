/** A MIFARE Classic 1K as the poller sees it: 64 blocks, each sector guarded by the keys and
    access bits in its trailer (NXP MF1S50yyX data sheet, section 8.7). */
module NdefCard {
  import opened Bytes
  import opened NdefLayout

  type Card = s: seq<Block> | |s| == 64 witness seq(64, _ => Zeros(16))

  datatype KeyType = A | B

  /** The three access bits of one block. */
  datatype Access = Access(c1: bool, c2: bool, c3: bool)

  /** Position of block i of a sector (3 is the trailer) within an access nibble. */
  function NibbleBit(i: nat): byte
    requires i < 4
  {
    if i == 0 then 1 else if i == 1 then 2 else if i == 2 then 4 else 8
  }

  /** Byte 7 holds C1 in its high nibble; byte 8 holds C3 high and C2 low. */
  function AccessOf(trailer: Block, i: nat): Access
    requires i < 4
  {
    Access((trailer[7] >> 4) & NibbleBit(i) != 0, trailer[8] & NibbleBit(i) != 0, (trailer[8] >> 4) & NibbleBit(i) != 0)
  }

  /** The inverted copies in bytes 6 and 7 agree; otherwise the sector is blocked for good. */
  predicate AccessConsistent(trailer: Block) {
    && trailer[6] ^ 0xFF == ((trailer[8] & 0x0F) << 4) | (trailer[7] >> 4)
    && (trailer[7] ^ 0xFF) & 0x0F == trailer[8] >> 4
  }

  /** Trailer conditions 000, 010 and 001 let key A read key B; a readable key B opens nothing. */
  predicate KeyBReadable(a: Access) {
    !a.c1 && !(a.c2 && a.c3)
  }

  /** Conditions under which one key may write key A, the access bits and key B together. */
  predicate TrailerWritable(a: Access, k: KeyType) {
    if k == A then a == Access(false, false, true) else a == Access(false, true, true)
  }

  predicate DataWritable(a: Access, k: KeyType) {
    || a == Access(false, false, false)
    || (k == B && a in {Access(true, false, false), Access(true, true, false), Access(false, true, true)})
  }

  function StoredKey(trailer: Block, k: KeyType): Key {
    if k == A then trailer[0..6] else trailer[10..16]
  }

  predicate Authenticates(trailer: Block, k: KeyType, key: Key) {
    AccessConsistent(trailer) && StoredKey(trailer, k) == key
  }

  /** Whether a block whose sector has this trailer accepts a write under this key. */
  predicate Grants(trailer: Block, b: nat, k: KeyType, key: Key) {
    && b != 0
    && Authenticates(trailer, k, key)
    && (k == B ==> !KeyBReadable(AccessOf(trailer, 3)))
    && if IsTrailer(b) then TrailerWritable(AccessOf(trailer, 3), k) else DataWritable(AccessOf(trailer, b % 4), k)
  }

  predicate Permits(card: Card, b: nat, k: KeyType, key: Key)
    requires b < BLOCKS
  {
    Grants(card[TrailerOf(b)], b, k, key)
  }

  /** A factory trailer: default keys, transport access bits FF 07 80, any general purpose byte. */
  predicate BlankTrailer(t: Block) {
    && StoredKey(t, A) == KEY_DEFAULT && StoredKey(t, B) == KEY_DEFAULT
    && t[6] == 0xFF && t[7] == 0x07 && t[8] == 0x80
  }

  predicate FormattedTrailer(card: Card, sector: nat)
    requires sector < SECTORS
  {
    card[4 * sector + 3] == Layout(4 * sector + 3)
  }

  predicate Blank(card: Card) {
    forall s: nat :: s < SECTORS ==> BlankTrailer(card[4 * s + 3])
  }

  predicate Formatted(card: Card) {
    forall s: nat :: s < SECTORS ==> FormattedTrailer(card, s)
  }

  /** The layout's trailers store exactly the keys the selector uses on a formatted card, and no others match. */
  lemma LayoutStoresSelectedKeys(s: nat, k: KeyType)
    requires s < SECTORS
    ensures StoredKey(Layout(4 * s + 3), k) == if k == A then SectorKeyA(true, s) else SectorKeyB(true, s)
    ensures StoredKey(Layout(4 * s + 3), k) == KEY_DEFAULT <==> s != 0 && k == B
  {
    var trailer := if s == 0 then MAD_TRAILER else NDEF_TRAILER;
    assert Layout(4 * s + 3) == trailer && IsTrailer(4 * s + 3);
    assert trailer[0] != 0xFF && (s == 0 ==> trailer[10] != 0xFF);
    assert KEY_DEFAULT[0] == 0xFF;
  }

  /** What the two access configurations the formatter meets and leaves behind mean. */
  lemma BlankSectorGrants(t: Block, b: nat, formatted: bool)
    requires BlankTrailer(t)
    ensures !Grants(t, b, B, SectorKeyB(formatted, SectorOfBlock(b)))
    ensures Grants(t, b, A, SectorKeyA(formatted, SectorOfBlock(b))) <==> b != 0 && !formatted
  {
    assert AccessConsistent(t);
    assert AccessOf(t, 3) == Access(false, false, true);
    var i := b % 4;
    assert i == 0 || i == 1 || i == 2 || i == 3;
    if i < 3 {
      assert AccessOf(t, i) == Access(false, false, false);
    }
  }

  lemma MadSectorGrants(b: nat, formatted: bool)
    requires 0 < b < 4
    ensures Grants(MAD_TRAILER, b, B, SectorKeyB(formatted, 0)) <==> formatted
    ensures !Grants(MAD_TRAILER, b, A, SectorKeyA(formatted, 0))
  {
    LayoutStoresSelectedKeys(0, A);
    LayoutStoresSelectedKeys(0, B);
    assert AccessConsistent(MAD_TRAILER);
    assert AccessOf(MAD_TRAILER, 3) == Access(false, true, true);
    assert b == 1 || b == 2 || b == 3;
    if b < 3 {
      assert AccessOf(MAD_TRAILER, b) == Access(true, false, false);
    }
  }

  lemma NdefSectorGrants(b: nat, formatted: bool)
    requires 4 <= b < BLOCKS
    ensures Grants(NDEF_TRAILER, b, B, SectorKeyB(formatted, SectorOfBlock(b)))
    ensures Grants(NDEF_TRAILER, b, A, SectorKeyA(formatted, SectorOfBlock(b))) <==> formatted && !IsTrailer(b)
  {
    LayoutStoresSelectedKeys(1, A);
    LayoutStoresSelectedKeys(1, B);
    assert AccessConsistent(NDEF_TRAILER);
    assert AccessOf(NDEF_TRAILER, 3) == Access(false, true, true);
    var i := b % 4;
    assert i == 0 || i == 1 || i == 2 || i == 3;
    if i < 3 {
      assert AccessOf(NDEF_TRAILER, i) == Access(false, false, false);
    }
  }
}
