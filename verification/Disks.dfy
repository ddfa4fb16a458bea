/** A drive as a function from sector numbers to 512 bytes. */
module Disks {
  const SECTOR: nat := 512

  type Byte = b: nat | b < 256

  type Sector = s: seq<Byte> | |s| == SECTOR witness seq(SECTOR, _ => 0)

  /** What each sector of the drive holds. */
  type Disk = nat -> Sector

  /** Little-endian 32-bit word `j` of a table. */
  function EntryAt(table: seq<Byte>, j: nat): nat
    requires 4 * j + 3 < |table|
  {
    var b0: nat, b1: nat, b2: nat, b3: nat := table[4 * j], table[4 * j + 1], table[4 * j + 2], table[4 * j + 3];
    b0 + 0x100 * b1 + 0x1_0000 * b2 + 0x100_0000 * b3
  }

  /** The four bytes of a 32-bit word, lowest first. */
  function WordBytes(w: nat): (b: seq<Byte>)
    requires w < 0x1_0000_0000
    ensures |b| == 4
  {
    var w1 := w / 0x100;
    var w2 := w1 / 0x100;
    [w % 0x100, w1 % 0x100, w2 % 0x100, w2 / 0x100]
  }

  lemma WordOfBytes(b0: nat, b1: nat, b2: nat, b3: nat, w: nat)
    requires w < 0x1_0000_0000 && [b0, b1, b2, b3] == WordBytes(w)
    ensures b0 + 0x100 * b1 + 0x1_0000 * b2 + 0x100_0000 * b3 == w
  {
    var b := WordBytes(w);
    assert b0 == b[0] && b1 == b[1] && b2 == b[2] && b3 == b[3];
    var w1 := w / 0x100;
    var w2 := w1 / 0x100;
    assert w == 0x100 * w1 + b0 && w1 == 0x100 * w2 + b1 && w2 == 0x100 * b3 + b2;
  }

  /** A table entry is the word whose bytes stand there. */
  lemma WordReadsBack(table: seq<Byte>, j: nat, w: nat)
    requires 4 * j + 4 <= |table| && w < 0x1_0000_0000 && table[4 * j..4 * j + 4] == WordBytes(w)
    ensures EntryAt(table, j) == w
  {
    var b := table[4 * j..4 * j + 4];
    assert b == [table[4 * j], table[4 * j + 1], table[4 * j + 2], table[4 * j + 3]];
    WordOfBytes(table[4 * j], table[4 * j + 1], table[4 * j + 2], table[4 * j + 3], w);
  }

  /** The lowest byte comes first. */
  lemma LowestByteFirst()
    ensures EntryAt([0x78, 0x56, 0x34, 0x12], 0) == 0x1234_5678
  {}
}
