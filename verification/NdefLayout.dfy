/** ndef_layout.c: block templates, 1K geometry and key selection. */
module NdefLayout {
  import opened Bytes

  const SECTORS := 16
  const BLOCKS := 64

  type Block = s: bytes | |s| == 16 witness Zeros(16)
  type Key = s: bytes | |s| == 6 witness Zeros(6)

  const KEY_DEFAULT: Key := [0xFF, 0xFF, 0xFF, 0xFF, 0xFF, 0xFF]
  const KEY_MAD_A: Key := [0xA0, 0xA1, 0xA2, 0xA3, 0xA4, 0xA5]
  const KEY_MAD_B: Key := [0x89, 0xEC, 0xA9, 0x7F, 0x8C, 0x2A]
  const KEY_NDEF_A: Key := [0xD3, 0xF7, 0xD3, 0xF7, 0xD3, 0xF7]

  const MAD_1: Block := [0x14, 0x01, 0x03, 0xE1, 0x03, 0xE1, 0x03, 0xE1, 0x03, 0xE1, 0x03, 0xE1, 0x03, 0xE1, 0x03, 0xE1]
  const MAD_2: Block := [0x03, 0xE1, 0x03, 0xE1, 0x03, 0xE1, 0x03, 0xE1, 0x03, 0xE1, 0x03, 0xE1, 0x03, 0xE1, 0x03, 0xE1]
  const MAD_TRAILER: Block :=
    [0xA0, 0xA1, 0xA2, 0xA3, 0xA4, 0xA5, 0x78, 0x77, 0x88, 0xC1, 0x89, 0xEC, 0xA9, 0x7F, 0x8C, 0x2A]
  const EMPTY_NDEF: Block := [0x03, 0x00, 0xFE, 0, 0, 0, 0, 0, 0, 0, 0, 0, 0, 0, 0, 0]
  const NDEF_TRAILER: Block :=
    [0xD3, 0xF7, 0xD3, 0xF7, 0xD3, 0xF7, 0x7F, 0x07, 0x88, 0x40, 0xFF, 0xFF, 0xFF, 0xFF, 0xFF, 0xFF]

  /** mfc_ndef_firstblocks. */
  const FIRST_BLOCKS: seq<Block> :=
    [Zeros(16), MAD_1, MAD_2, MAD_TRAILER, EMPTY_NDEF, Zeros(16), Zeros(16), NDEF_TRAILER]

  function SectorOfBlock(b: nat): nat {
    b / 4
  }

  predicate IsTrailer(b: nat) {
    b % 4 == 3
  }

  function TrailerOf(b: nat): nat {
    4 * SectorOfBlock(b) + 3
  }

  /** The contents a formatted tag has in block b, block by block as the formatter's users read it. */
  function Layout(b: nat): Block {
    if b == 1 then MAD_1
    else if b == 2 then MAD_2
    else if b == 3 then MAD_TRAILER
    else if b == 4 then EMPTY_NDEF
    else if IsTrailer(b) then NDEF_TRAILER
    else Zeros(16)
  }

  /** mfc_ndef_build_block: fills the buffer; block 0 is not to be written. */
  method BuildBlock(b: nat, out: array<byte>) returns (write: bool)
    requires b < BLOCKS && out.Length == 16
    modifies out
    ensures write <==> b != 0
    ensures out[..] == Layout(b)
  {
    forall i | 0 <= i < 16 {
      out[i] := 0;
    }
    if b == 0 {
      return false;
    }
    if b <= 7 {
      var template := FIRST_BLOCKS[b];
      forall i | 0 <= i < 16 {
        out[i] := template[i];
      }
    } else if IsTrailer(b) {
      var template := FIRST_BLOCKS[7];
      forall i | 0 <= i < 16 {
        out[i] := template[i];
      }
    }
    write := true;
  }

  /** mfc_ndef_sector_keys: key A and key B tried on a sector. */
  function SectorKeyA(formatted: bool, sector: nat): Key {
    if !formatted then KEY_DEFAULT else if sector == 0 then KEY_MAD_A else KEY_NDEF_A
  }

  function SectorKeyB(formatted: bool, sector: nat): Key {
    if !formatted then KEY_DEFAULT else if sector == 0 then KEY_MAD_B else KEY_DEFAULT
  }

  /** One bit of the CRC-8 that protects a MIFARE Application Directory (NXP AN10787). */
  function CrcShift(crc: byte): byte {
    if crc & 0x80 != 0 then (crc << 1) ^ 0x1D else crc << 1
  }

  function CrcByte(crc: byte, b: byte): byte {
    CrcShift(CrcShift(CrcShift(CrcShift(CrcShift(CrcShift(CrcShift(CrcShift(crc ^ b))))))))
  }

  function Crc(data: bytes): byte {
    if data == [] then 0xC7 else CrcByte(Crc(data[..|data| - 1]), data[|data| - 1])
  }

  /** One more directory entry for the NDEF application. */
  lemma CrcEntry(data: bytes)
    ensures Crc(data + [0x03, 0xE1]) == CrcByte(CrcByte(Crc(data), 0x03), 0xE1)
  {
    hide CrcByte;
    var one, two := data + [0x03], data + [0x03, 0xE1];
    assert two[..|data| + 1] == one && one[..|data|] == data;
  }

  /** The CRC after the information byte and each of the fifteen entries. */
  const CRC_STEPS: bytes :=
    [0x7B, 0xDE, 0x03, 0xAF, 0x64, 0xC9, 0x4E, 0x7E, 0xBF, 0xD0, 0xEC, 0x5A, 0xE7, 0xD4, 0xC1, 0x14]

  lemma CrcStep(k: nat)
    requires k < 15
    ensures CrcByte(CrcByte(CRC_STEPS[k], 0x03), 0xE1) == CRC_STEPS[k + 1]
  {
    assert k in {0, 1, 2, 3, 4, 5, 6, 7, 8, 9, 10, 11, 12, 13, 14};
  }

  /** The two bytes a directory holds for a sector. */
  function Entry(directory: bytes, s: nat): bytes
    requires 1 <= s < SECTORS && |directory| == 32
  {
    directory[2 * s..2 * s + 2]
  }

  lemma {:induction false} CrcOfDirectory(directory: bytes, k: nat)
    requires |directory| == 32 && directory[1] == 0x01 && k <= 15
    requires forall s :: 1 <= s < SECTORS ==> Entry(directory, s) == [0x03, 0xE1]
    ensures Crc(directory[1..2 * k + 2]) == CRC_STEPS[k]
  {
    hide CrcByte, Crc;
    if k == 0 {
      FirstCrc();
      assert directory[1..2] == [0x01];
    } else {
      CrcOfDirectory(directory, k - 1);
      assert Entry(directory, k) == [0x03, 0xE1];
      assert directory[1..2 * k + 2] == directory[1..2 * k] + Entry(directory, k);
      CrcEntry(directory[1..2 * k]);
      CrcStep(k - 1);
    }
  }

  /** The directory the formatter writes is what a reader accepts: its first byte is the CRC of the
      31 bytes after it, and each of the sectors 1 to 15 is assigned to the NDEF application. */
  lemma DirectoryIsValid()
    ensures var directory := Layout(1) + Layout(2);
            && directory[0] == Crc(directory[1..])
            && forall s :: 1 <= s < SECTORS ==> Entry(directory, s) == [0x03, 0xE1]
  {
    hide CrcByte, Crc;
    var directory := Layout(1) + Layout(2);
    forall s | 1 <= s < SECTORS
      ensures Entry(directory, s) == [0x03, 0xE1]
    {
      EntryBytes(s);
    }
    CrcOfDirectory(directory, 15);
    assert directory[1..32] == directory[1..];
  }

  lemma EntryBytes(s: nat)
    requires 1 <= s < SECTORS
    ensures Entry(MAD_1 + MAD_2, s) == [0x03, 0xE1]
  {
    if s < 8 {
      assert s in {1, 2, 3, 4, 5, 6, 7};
      assert MAD_1[2 * s] == 0x03 && MAD_1[2 * s + 1] == 0xE1;
    } else {
      assert s in {8, 9, 10, 11, 12, 13, 14, 15};
      assert MAD_2[2 * s - 16] == 0x03 && MAD_2[2 * s - 15] == 0xE1;
    }
  }

  lemma FirstCrc()
    ensures Crc([0x01]) == 0x7B
  {
    var one: bytes := [0x01];
    assert one[..0] == [];
  }

  /** The well-known keys, and the trailers that store them around their access bytes. */
  lemma KnownKeys(s: nat)
    requires s < SECTORS
    ensures SectorKeyA(false, s) == SectorKeyB(false, s) == [0xFF, 0xFF, 0xFF, 0xFF, 0xFF, 0xFF]
    ensures SectorKeyA(true, s) == if s == 0 then [0xA0, 0xA1, 0xA2, 0xA3, 0xA4, 0xA5]
                                   else [0xD3, 0xF7, 0xD3, 0xF7, 0xD3, 0xF7]
    ensures SectorKeyB(true, s) == if s == 0 then [0x89, 0xEC, 0xA9, 0x7F, 0x8C, 0x2A]
                                   else [0xFF, 0xFF, 0xFF, 0xFF, 0xFF, 0xFF]
    ensures Layout(4 * s + 3)
            == SectorKeyA(true, s) + (if s == 0 then [0x78, 0x77, 0x88, 0xC1] else [0x7F, 0x07, 0x88, 0x40])
               + SectorKeyB(true, s)
  {
    assert (4 * s + 3) % 4 == 3;
    assert Layout(4 * s + 3) == if s == 0 then MAD_TRAILER else NDEF_TRAILER;
  }

  /** Block 4 is an empty NDEF message and its terminator, and every block but this, the directory and
      the trailers is zero. */
  lemma DataBlocks(b: nat)
    requires 4 <= b < BLOCKS && b % 4 != 3
    ensures Layout(b) == if b == 4 then [0x03, 0x00, 0xFE] + Zeros(13) else Zeros(16)
  {
  }
}
