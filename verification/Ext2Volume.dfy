/** Directories of an ext2 partition: from the inode number over the inode record to the blocks and their entries. */
module Ext2Volume {
  import opened Disks
  import opened Words
  import opened Ext2Layout
  import opened Ext2Dir
  import Ext2File

  /** The drive, the partition's first sector, its geometry, and what the code finds in memory that it has not
      written: in front of the inode buffer, behind a block in the directory buffer, in a new node. */
  datatype RawVolume = Volume(disk: Disk, lba: nat, geometry: Geometry, stray: seq<Byte>, tail: seq<Byte>, blank: Entry)

  type Volume = v: RawVolume | IsVolume(v) witness SomeVolume()

  predicate IsVolume(v: RawVolume) {
    Supported(v.geometry) && |v.stray| == INODE_SIZE && |v.tail| == BUFFER - v.geometry.blockSize
  }

  function SomeVolume(): RawVolume {
    Volume((s: nat) => Ext2File.Zeros(SECTOR), 0, Geometry(4096, 0, 1, 0), Ext2File.Zeros(INODE_SIZE), [],
           Entry("", 0, OtherFile))
  }

  function PartitionOf(v: Volume): Ext2File.Partition {
    Ext2File.Partition(v.disk, v.lba, v.geometry.blockSize)
  }

  // ---------- inodes ----------

  type InodeRecord = r: seq<Byte> | |r| == INODE_SIZE witness seq(INODE_SIZE, _ => 0)

  /** The record that the code takes for that of inode `n`. */
  function RecordRead(v: Volume, n: nat): InodeRecord {
    var i := GetIndex(v.geometry, n);
    if i < 0 then v.stray
    else v.disk((v.lba + SectorRead(v.geometry, n)) % WORD)[INODE_SIZE * i..INODE_SIZE * i + INODE_SIZE]
  }

  /** S_ISDIR of the mode field. */
  predicate IsDirectory(r: InodeRecord) {
    r[1] / 0x10 == 4
  }

  /** The fifteen block numbers. */
  function BlockNumbers(r: InodeRecord): (b: seq<nat>)
    ensures |b| == 15
  {
    Ext2File.WordsOf(r[40..100], 15)
  }

  /** The direct blocks that are there, each at the front of the buffer. */
  function Buffers(v: Volume, numbers: seq<nat>): (b: seq<DirBlock>)
    ensures |b| == |numbers|
  {
    if numbers == [] then []
    else
      var last := |numbers| - 1;
      Buffers(v, numbers[..last]) + [Ext2File.Block(PartitionOf(v), numbers[last]) + v.tail]
  }

  function BlocksOf(v: Volume, r: InodeRecord): seq<DirBlock> {
    if IsDirectory(r) then Buffers(v, Ext2File.Present(BlockNumbers(r)[..Ext2File.DIRECT])) else []
  }

  /** What is read of the directory behind an inode. */
  function DirBlocks(v: Volume, n: nat): seq<DirBlock> {
    BlocksOf(v, RecordRead(v, n))
  }

  method RdRecord(v: Volume, n: nat) returns (r: InodeRecord)
    ensures r == RecordRead(v, n)
  {
    var i := GetIndex(v.geometry, n);
    r := v.stray;
    if i >= 0 {
      var inodebuff := v.disk((v.lba + SectorRead(v.geometry, n)) % WORD);
      r := inodebuff[INODE_SIZE * i..INODE_SIZE * i + INODE_SIZE];
    }
  }

  /** The loop over the direct blocks. */
  method RdBlocks(v: Volume, numbers: seq<nat>) returns (blocks: seq<DirBlock>)
    ensures blocks == Buffers(v, Ext2File.Present(numbers))
  {
    blocks := [];
    var k := 0;
    while k < |numbers|
      invariant 0 <= k <= |numbers| && blocks == Buffers(v, Ext2File.Present(numbers[..k]))
    {
      OneMoreNumber(v, numbers, k);
      if numbers[k] != 0 {
        blocks := blocks + [Ext2File.Block(PartitionOf(v), numbers[k]) + v.tail];
      }
      k := k + 1;
    }
    assert numbers[..k] == numbers;
  }

  lemma OneMoreNumber(v: Volume, numbers: seq<nat>, k: nat)
    requires k < |numbers|
    ensures Buffers(v, Ext2File.Present(numbers[..k + 1])) ==
            Buffers(v, Ext2File.Present(numbers[..k])) +
            if numbers[k] != 0 then [Ext2File.Block(PartitionOf(v), numbers[k]) + v.tail] else []
  {
    var before := Ext2File.Present(numbers[..k]);
    Ext2File.PresentStep(numbers, k);
    if numbers[k] != 0 {
      OneMoreBuffer(v, before, numbers[k]);
    } else {
      assert before + [] == before;
    }
  }

  /** ext2_rd_inode: the record, and the blocks if it is that of a directory. */
  method RdInode(v: Volume, n: nat) returns (blocks: seq<DirBlock>)
    ensures blocks == DirBlocks(v, n)
  {
    var r := RdRecord(v, n);
    blocks := [];
    if IsDirectory(r) {
      blocks := RdBlocks(v, BlockNumbers(r)[..Ext2File.DIRECT]);
    }
  }

  lemma OneMoreBuffer(v: Volume, numbers: seq<nat>, b: nat)
    ensures Buffers(v, numbers + [b]) == Buffers(v, numbers) + [Ext2File.Block(PartitionOf(v), b) + v.tail]
  {
    assert (numbers + [b])[..|numbers|] == numbers;
  }

  // ---------- the layout ----------

  /** The bytes of the partition. */
  function BytesAt(v: Volume, at: nat, n: nat): (r: seq<Byte>)
    ensures |r| == n
  {
    seq(n, x requires 0 <= x => v.disk(v.lba + (at + x) / SECTOR)[(at + x) % SECTOR])
  }

  /** What the fields of an inode record say: a directory by its mode, and the block numbers from byte 40 on. */
  predicate SaysDirectory(r: InodeRecord) {
    (r[0] as nat + 0x100 * r[1] as nat) / 0x1000 == 4
  }

  function NumberAt(r: InodeRecord, k: nat): nat
    requires k < 15
  {
    var b0: nat, b1: nat, b2: nat, b3: nat := r[40 + 4 * k], r[41 + 4 * k], r[42 + 4 * k], r[43 + 4 * k];
    b0 + 0x100 * b1 + 0x1_0000 * b2 + 0x100_0000 * b3
  }

  lemma InodeFields(r: InodeRecord)
    ensures IsDirectory(r) <==> SaysDirectory(r)
    ensures forall k :: 0 <= k < 15 ==> BlockNumbers(r)[k] == NumberAt(r, k)
  {
    forall k | 0 <= k < 15 ensures BlockNumbers(r)[k] == NumberAt(r, k) {
      Ext2File.WordsAt(r[40..100], 15, k);
    }
  }

  /** The direct blocks that are there, as the bytes of the partition. */
  function LayoutBuffers(v: Volume, numbers: seq<nat>): (b: seq<DirBlock>)
    ensures |b| == |numbers|
  {
    if numbers == [] then []
    else
      var last := |numbers| - 1;
      var bs := v.geometry.blockSize;
      LayoutBuffers(v, numbers[..last]) + [BytesAt(v, Ext2File.PlaceOf(bs, numbers[last], 0), bs) + v.tail]
  }

  function LayoutBlocks(v: Volume, r: InodeRecord): seq<DirBlock> {
    if SaysDirectory(r) then LayoutBuffers(v, Ext2File.Present(seq(12, k requires 0 <= k < 12 => NumberAt(r, k))))
    else []
  }

  lemma BlockIsBytes(v: Volume, b: nat)
    ensures Ext2File.Block(PartitionOf(v), b) ==
            BytesAt(v, Ext2File.PlaceOf(v.geometry.blockSize, b, 0), v.geometry.blockSize)
  {
    var block, bytes := Ext2File.Block(PartitionOf(v), b),
                        BytesAt(v, Ext2File.PlaceOf(v.geometry.blockSize, b, 0), v.geometry.blockSize);
    forall x | 0 <= x < v.geometry.blockSize ensures block[x] == bytes[x] {
      Ext2File.BlockByte(PartitionOf(v), b, x);
    }
  }

  lemma {:induction false} BuffersAreBytes(v: Volume, numbers: seq<nat>)
    ensures Buffers(v, numbers) == LayoutBuffers(v, numbers)
  {
    if numbers != [] {
      BuffersAreBytes(v, numbers[..|numbers| - 1]);
      BlockIsBytes(v, numbers[|numbers| - 1]);
    }
  }

  /** The blocks that the code reads are those of the layout. */
  lemma BlocksAreBytes(v: Volume, r: InodeRecord)
    ensures BlocksOf(v, r) == LayoutBlocks(v, r)
  {
    InodeFields(r);
    assert BlockNumbers(r)[..12] == seq(12, k requires 0 <= k < 12 => NumberAt(r, k));
    BuffersAreBytes(v, Ext2File.Present(BlockNumbers(r)[..12]));
  }

  /** The record of inode `n`. */
  ghost function RecordOf(v: Volume, n: nat): InodeRecord
    requires n > 0
  {
    BytesAt(v, SlotByte(v.geometry, n), INODE_SIZE)
  }

  lemma InSector(sector: nat, x: nat)
    requires x < SECTOR
    ensures (SECTOR * sector + x) / SECTOR == sector && (SECTOR * sector + x) % SECTOR == x
  {}

  lemma BytesInSector(v: Volume, sector: nat, from: nat, n: nat)
    requires from + n <= SECTOR
    ensures BytesAt(v, SECTOR * sector + from, n) == v.disk(v.lba + sector)[from..from + n]
  {
    var r := BytesAt(v, SECTOR * sector + from, n);
    forall x | 0 <= x < n ensures r[x] == v.disk(v.lba + sector)[from + x] {
      assert SECTOR * sector + from + x == SECTOR * sector + (from + x);
      InSector(sector, from + x);
    }
  }

  /** The code's record is the one that its sector and slot address. */
  lemma RecordAddressed(v: Volume, n: nat, at: nat)
    requires Addresses(SectorRead(v.geometry, n), GetIndex(v.geometry, n), at)
    requires v.lba + SectorRead(v.geometry, n) < WORD
    ensures RecordRead(v, n) == BytesAt(v, at, INODE_SIZE)
  {
    BytesInSector(v, SectorRead(v.geometry, n), INODE_SIZE * GetIndex(v.geometry, n), INODE_SIZE);
  }

  /** Inodes that the code looks up where the layout has them, below the 2^32nd sector of the drive. */
  ghost predicate IsFound(v: Volume, n: nat) {
    && n > 0 && NumberInGroup(v.geometry, n) != 0 && TableAssumed(v.geometry, GroupOf(v.geometry, n))
    && Records(v.geometry, n) < WORD && v.lba + SectorRead(v.geometry, n) < WORD
  }

  lemma FoundRecord(v: Volume, n: nat)
    requires IsFound(v, n)
    ensures RecordRead(v, n) == RecordOf(v, n)
  {
    InodeIsFound(v.geometry, n);
    RecordAddressed(v, n, SlotByte(v.geometry, n));
  }

  // ---------- listings ----------

  /** What the directory behind an inode lists, in order. */
  type Listing = nat -> seq<Entry>

  /** No record that is read lies outside its buffer. */
  ghost predicate AllInside(v: Volume) {
    forall n: nat :: AllReadable(DirBlocks(v, n), v.geometry.blockSize)
  }

  function ListingOf(v: Volume): Listing
    requires AllInside(v)
  {
    (n: nat) => DirListing(DirBlocks(v, n), v.geometry.blockSize, v.blank)
  }

  /** A directory whose inode is found is listed, as its blocks stand on the partition, completely if and only if it
      has one block. */
  lemma DirectoryIsListed(v: Volume, n: nat)
    requires AllInside(v) && IsFound(v, n)
    requires AllWellFormed(LayoutBlocks(v, RecordOf(v, n)), v.geometry.blockSize)
    requires LayoutBlocks(v, RecordOf(v, n)) != []
    ensures var blocks, bs := LayoutBlocks(v, RecordOf(v, n)), v.geometry.blockSize;
            && NoneEmpty(EntryLists(blocks, bs)) && ListingOf(v)(n) == Surviving(EntryLists(blocks, bs))
            && (ListingOf(v)(n) == AllEntries(EntryLists(blocks, bs)) <==> |blocks| == 1)
  {
    FoundRecord(v, n);
    BlocksAreBytes(v, RecordOf(v, n));
    ListingIsCompleteForOneBlock(LayoutBlocks(v, RecordOf(v, n)), v.geometry.blockSize, v.blank);
  }
}
