/** Where an inode lies on an ext2 partition: inode_to_lba and get_index against the on-disk layout. */
module Ext2Layout {
  import opened Arithmetic
  import opened Words

  /** The superblock and group descriptor fields in use; `inodeTable` is the table block of group 0. */
  datatype Geometry = Geometry(blockSize: nat, blocksPerGroup: nat, inodesPerGroup: nat, inodeTable: nat)

  predicate Supported(g: Geometry) {
    (g.blockSize == 1024 || g.blockSize == 2048 || g.blockSize == 4096) && g.inodesPerGroup > 0
  }

  const INODE_SIZE: nat := 128
  const SECTOR_SIZE: nat := 512
  const SUPER_BLOCK_OFFSET: nat := 2

  // ---------- the code ----------

  predicate InGroupList(group: nat) {
    group in {0, 1, 3, 9, 27, 5, 25, 7, 49, 81, 125, 243, 343, 625}
  }

  /** The group the code takes inode `n` to be in, and the number within it. */
  function GroupOf(g: Geometry, n: nat): nat
    requires Supported(g)
  {
    n / g.inodesPerGroup
  }

  function NumberInGroup(g: Geometry, n: nat): nat
    requires Supported(g)
  {
    n % g.inodesPerGroup
  }

  /** Inode records in front of the wanted one, before the 32-bit wrap and the division into sectors. */
  function Records(g: Geometry, inode: nat): int
    requires Supported(g)
  {
    var j, group := NumberInGroup(g, inode), GroupOf(g, inode);
    var small := g.blockSize / INODE_SIZE;
    group * g.blocksPerGroup * small + (j - 1) + (if InGroupList(group) then g.inodeTable else 2) * small
  }

  /** The sector number on 32 bits, less the offset that the block reader adds back. */
  function InodeToLba(g: Geometry, inode: nat): (r: nat)
    requires Supported(g)
    ensures r < WORD
  {
    var sector := Records(g, inode) % WORD / 4;
    ((if !InGroupList(GroupOf(g, inode)) && g.blockSize == 1024 then sector + 2 else sector) - 2) % WORD
  }

  /** The sector that is read, counted from the start of the partition. */
  function SectorRead(g: Geometry, inode: nat): nat
    requires Supported(g)
  {
    (InodeToLba(g, inode) + SUPER_BLOCK_OFFSET) % WORD
  }

  /** C's remainder of a possibly negative number. */
  function GetIndex(g: Geometry, inode: nat): int
    requires Supported(g)
  {
    var i := NumberInGroup(g, inode);
    if i == 0 then -1 else (i - 1) % 4
  }

  // ---------- the layout ----------

  /** Groups that hold a copy of the superblock. */
  ghost predicate HasBackup(group: nat) {
    group == 0 || IsPower(3, group) || IsPower(5, group) || IsPower(7, group)
  }

  ghost predicate IsPower(base: nat, n: nat) {
    exists k: nat :: Pow(base, k) == n
  }

  function FirstDataBlock(g: Geometry): nat {
    if g.blockSize == 1024 then 1 else 0
  }

  /** Backup groups share the relative layout of group 0; in the others the table follows two bitmaps. */
  ghost function TableOffset(g: Geometry, group: nat): nat {
    if HasBackup(group) then g.inodeTable else FirstDataBlock(g) + 2
  }

  /** Byte offset of record `idx` of a group whose table starts `table` blocks into it. */
  function RecordByte(g: Geometry, group: nat, table: nat, idx: nat): nat {
    (group * g.blocksPerGroup + table) * g.blockSize + idx * INODE_SIZE
  }

  /** Byte offset of the record of inode `n`; inodes are numbered from 1. */
  ghost function SlotByte(g: Geometry, n: nat): nat
    requires Supported(g) && n > 0
  {
    var group := GroupOf(g, n - 1);
    RecordByte(g, group, TableOffset(g, group), NumberInGroup(g, n - 1))
  }

  /** Sector and slot address the record. */
  ghost predicate Addresses(sector: int, index: int, byte: int) {
    0 <= index < 4 && sector * SECTOR_SIZE + index * INODE_SIZE == byte
  }

  // ---------- the group list ----------

  lemma PowersOf(b: nat)
    requires b >= 1
    ensures Pow(b, 0) == 1 && Pow(b, 1) == b && Pow(b, 2) == b * b && Pow(b, 3) == b * b * b
    ensures Pow(b, 4) == b * b * (b * b)
  {
    assert Pow(b, 1) == b * Pow(b, 0);
    assert Pow(b, 2) == b * Pow(b, 1);
    assert Pow(b, 3) == b * Pow(b, 2);
    assert Pow(b, 4) == b * Pow(b, 3);
  }

  lemma PowersOf3()
    ensures Pow(3, 5) == 243 && Pow(3, 6) == 729
  {
    PowersOf(3);
    assert Pow(3, 5) == 3 * Pow(3, 4);
    assert Pow(3, 6) == 3 * Pow(3, 5);
  }

  lemma {:induction false} SmallPowersAreListed(group: nat, b: nat, k: nat)
    requires group < 729 && b in {3, 5, 7} && Pow(b, k) == group
    ensures InGroupList(group)
  {
    PowersOf(b);
    PowersOf3();
    assert Pow(5, 5) == 5 * Pow(5, 4);
    if b == 3 && k >= 6 { PowGrows(3, 6, k); }
    if b == 5 && k >= 5 { PowGrows(5, 5, k); }
    if b == 7 && k >= 4 { PowGrows(7, 4, k); }
  }

  /** The literal list is right about exactly the groups below 729 and those without a backup. */
  lemma GroupListIsExact(group: nat)
    ensures (InGroupList(group) <==> HasBackup(group)) <==> (group < 729 || !HasBackup(group))
  {
    if InGroupList(group) {
      ListedGroupIsPower(group);
    }
    if group < 729 && HasBackup(group) && group != 0 {
      var b, k :| b in {3, 5, 7} && Pow(b, k) == group;
      SmallPowersAreListed(group, b, k);
    }
  }

  lemma ListedGroupIsPower(group: nat)
    requires InGroupList(group)
    ensures HasBackup(group)
  {
    PowersOf(3);
    PowersOf(5);
    PowersOf(7);
    PowersOf3();
  }

  /** The next power of three is missing from the list. */
  lemma GroupListMisses729()
    ensures HasBackup(729) && !InGroupList(729)
  {
    PowersOf3();
  }

  // ---------- sector arithmetic ----------

  /** Whole blocks of records, then `idx` more, counted in sectors of four. */
  lemma SectorOf(blocks: nat, idx: nat, blockSize: nat)
    requires blockSize == 1024 || blockSize == 2048 || blockSize == 4096
    ensures (blocks * (blockSize / INODE_SIZE) + idx) / 4 * SECTOR_SIZE + idx % 4 * INODE_SIZE ==
            blocks * blockSize + idx * INODE_SIZE
  {
    assert idx == 4 * (idx / 4) + idx % 4;
    if blockSize == 1024 {
      assert (blocks * 8 + idx) / 4 == 2 * blocks + idx / 4;
    } else if blockSize == 2048 {
      assert (blocks * 16 + idx) / 4 == 4 * blocks + idx / 4;
    } else {
      assert (blocks * 32 + idx) / 4 == 8 * blocks + idx / 4;
    }
  }

  lemma GroupAndIndex(g: Geometry, n: nat)
    requires Supported(g) && NumberInGroup(g, n) != 0
    ensures n > 0 && GroupOf(g, n - 1) == GroupOf(g, n) && NumberInGroup(g, n - 1) == NumberInGroup(g, n) - 1
  {
    var q, r := GroupOf(g, n), NumberInGroup(g, n);
    assert n - 1 == q * g.inodesPerGroup + (r - 1);
    DivModOf(q, r - 1, g.inodesPerGroup);
  }

  lemma RecordsAre(g: Geometry, n: nat)
    requires Supported(g) && NumberInGroup(g, n) != 0
    ensures var group := GroupOf(g, n);
            var table := if InGroupList(group) then g.inodeTable else 2;
            Records(g, n) == (group * g.blocksPerGroup + table) * (g.blockSize / INODE_SIZE) + (NumberInGroup(g, n) - 1)
  {
    var group := GroupOf(g, n);
    var table := if InGroupList(group) then g.inodeTable else 2;
    Distributes(group * g.blocksPerGroup, table, g.blockSize / INODE_SIZE);
  }

  lemma Distributes(a: nat, b: nat, c: nat)
    ensures (a + b) * c == a * c + b * c
  {}

  /** The table block that the code assumes. */
  function AssumedTable(g: Geometry, group: nat): nat {
    if InGroupList(group) then g.inodeTable else FirstDataBlock(g) + 2
  }

  /** Dropping a multiple of 2^32 records moves the sector, not the slot. */
  lemma WrappedRecords(records: nat)
    ensures records % WORD / 4 == records / 4 - records / WORD * (WORD / 4)
  {
    var q, r := records / WORD, records % WORD;
    assert records == 4 * (q * (WORD / 4)) + r;
    assert records / 4 == q * (WORD / 4) + r / 4;
  }

  lemma SectorReadIs(g: Geometry, n: nat)
    requires Supported(g)
    ensures SectorRead(g, n) ==
            Records(g, n) % WORD / 4 + if !InGroupList(GroupOf(g, n)) && g.blockSize == 1024 then 2 else 0
  {}

  /** Records that the 32-bit count loses, in bytes: whole multiples of 512 GB. */
  function Lost(g: Geometry, n: nat): int
    requires Supported(g)
  {
    Records(g, n) / WORD * (WORD * INODE_SIZE)
  }

  /** Where the code looks: at the record's place if the table were at the assumed block, less what is lost. */
  lemma CodeAddresses(g: Geometry, n: nat, group: nat, r: nat)
    requires Supported(g) && group == GroupOf(g, n) && r == NumberInGroup(g, n) && r > 0
    ensures Records(g, n) >= 0 && Addresses(SectorRead(g, n), GetIndex(g, n),
                      RecordByte(g, group, AssumedTable(g, group), r - 1) - Lost(g, n))
  {
    var base := group * g.blocksPerGroup;
    RecordsAre(g, n);
    SectorOf(base + if InGroupList(group) then g.inodeTable else 2, r - 1, g.blockSize);
    WrappedRecords(Records(g, n));
    SectorReadIs(g, n);
    if !InGroupList(group) && g.blockSize == 1024 {
      assert (base + 3) * 1024 == (base + 2) * 1024 + 2 * SECTOR_SIZE;
    }
  }

  /** A different table block is a different byte. */
  lemma TablesApart(g: Geometry, group: nat, a: nat, b: nat, idx: nat)
    requires Supported(g)
    ensures RecordByte(g, group, a, idx) == RecordByte(g, group, b, idx) <==> a == b
  {
    var base := group * g.blocksPerGroup;
    Distributes(base, a, g.blockSize);
    Distributes(base, b, g.blockSize);
  }

  /** Different table blocks are at most as far apart as their numbers say. */
  lemma TableDistance(g: Geometry, group: nat, a: nat, b: nat, idx: nat)
    requires Supported(g) && a <= b
    ensures RecordByte(g, group, b, idx) <= RecordByte(g, group, a, idx) + 4096 * (b - a)
  {
    var base := group * g.blocksPerGroup;
    Distributes(base, a, g.blockSize);
    Distributes(base, b, g.blockSize);
    Distributes(a, b - a, g.blockSize);
  }

  lemma SameByteApart(g: Geometry, group: nat, a: nat, b: nat, idx: nat, lost: nat)
    requires Supported(g) && (a == b || a <= 3) && lost % (WORD * INODE_SIZE) == 0
    ensures RecordByte(g, group, b, idx) == RecordByte(g, group, a, idx) - lost <==> a == b && lost == 0
  {
    TablesApart(g, group, a, b, idx);
    if a >= b {
      TableDistance(g, group, b, a, idx);
    } else {
      Distributes(group * g.blocksPerGroup, a, g.blockSize);
      Distributes(group * g.blocksPerGroup, b, g.blockSize);
      Distributes(a, b - a, g.blockSize);
    }
  }

  /** The table of the inode's group lies where the code assumes it. */
  ghost predicate TableAssumed(g: Geometry, group: nat) {
    !HasBackup(group) || InGroupList(group) || g.inodeTable == FirstDataBlock(g) + 2
  }

  lemma AssumedIs(g: Geometry, group: nat)
    ensures TableAssumed(g, group) <==> AssumedTable(g, group) == TableOffset(g, group)
    ensures AssumedTable(g, group) == TableOffset(g, group) || AssumedTable(g, group) <= 3
  {
    if InGroupList(group) {
      ListedGroupIsPower(group);
    }
  }

  /** The code finds the record of inode `n` exactly when `n` is no multiple of the inodes per group (it
      divides `n` where the layout divides n - 1), its group either holds no backup, or is listed, or
      has its table where groups without a backup have it, and the number of records fits in 32 bits. */
  lemma InodeIsFound(g: Geometry, n: nat)
    requires Supported(g) && n > 0
    ensures Addresses(SectorRead(g, n), GetIndex(g, n), SlotByte(g, n)) <==>
            NumberInGroup(g, n) != 0 && TableAssumed(g, GroupOf(g, n)) && Records(g, n) < WORD
  {
    var group, r := GroupOf(g, n), NumberInGroup(g, n);
    if r != 0 {
      GroupAndIndex(g, n);
      CodeAddresses(g, n, group, r);
      AssumedIs(g, group);
      LostOrNot(Records(g, n));
      SameByteApart(g, group, AssumedTable(g, group), TableOffset(g, group), r - 1, Lost(g, n));
    }
  }

  lemma LostOrNot(records: nat)
    ensures records / WORD * (WORD * INODE_SIZE) == 0 <==> records < WORD
    ensures records / WORD * (WORD * INODE_SIZE) >= 0 && records / WORD * (WORD * INODE_SIZE) % (WORD * INODE_SIZE) == 0
  {}

  /** With ten inodes per group and the table in block 5, the first inode of group 729 is missed. */
  lemma InodeOf729IsMissed()
    ensures var g := Geometry(1024, 8192, 10, 5);
            && Supported(g) && GroupOf(g, 7291) == 729
            && !Addresses(SectorRead(g, 7291), GetIndex(g, 7291), SlotByte(g, 7291))
  {
    GroupListMisses729();
    InodeIsFound(Geometry(1024, 8192, 10, 5), 7291);
  }

  /** On a common small partition the root inode, number 2, is the second record of the table in block 5: it is in
      slot 1 of sector 10. */
  lemma RootInode()
    ensures var g := Geometry(1024, 8192, 1712, 5);
            && SectorRead(g, 2) == 10 && GetIndex(g, 2) == 1
            && SlotByte(g, 2) == 5 * 1024 + 128 && Addresses(10, 1, 5 * 1024 + 128)
  {
    var g := Geometry(1024, 8192, 1712, 5);
    assert Records(g, 2) == 41;
  }

  /** Every tenth inode is missed, too. */
  lemma InodeTenIsMissed()
    ensures var g := Geometry(1024, 8192, 10, 5);
            GetIndex(g, 10) == -1 && !Addresses(SectorRead(g, 10), GetIndex(g, 10), SlotByte(g, 10))
  {
    InodeIsFound(Geometry(1024, 8192, 10, 5), 10);
  }
}
