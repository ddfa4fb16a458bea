/** The file allocation table of FAT32, and the cluster chains it links. */
module Fat32 {
  import opened Disks
  import opened Words

  const EOF_MARKER: nat := 0x0FFF_FFFF
  const CLU_PER_FAT: nat := 128

  // ---------- the file allocation table ----------

  /** Byte `x` of the table that starts at sector `begin`. */
  function FatByte(disk: Disk, begin: nat, x: nat): Byte {
    disk(begin + x / SECTOR)[x % SECTOR]
  }

  /** The table as one flat array of 32-bit little-endian entries. */
  function FlatEntry(disk: Disk, begin: nat, cluster: nat): nat {
    EntryAt([FatByte(disk, begin, 4 * cluster), FatByte(disk, begin, 4 * cluster + 1),
             FatByte(disk, begin, 4 * cluster + 2), FatByte(disk, begin, 4 * cluster + 3)], 0)
  }

  /** fat32_rd_FAT: one sector holds 128 entries, and the end marker reads as zero. */
  function NextCluster(disk: Disk, begin: nat, cluster: nat): nat {
    var entry := EntryAt(disk(begin + cluster / CLU_PER_FAT), cluster % CLU_PER_FAT);
    if entry == EOF_MARKER then 0 else entry
  }

  /** The sector and slot arithmetic reads the flat array. */
  lemma ReadsFlatTable(disk: Disk, begin: nat, cluster: nat)
    ensures NextCluster(disk, begin, cluster) ==
            if FlatEntry(disk, begin, cluster) == 0x0FFF_FFFF then 0 else FlatEntry(disk, begin, cluster)
  {
    var s, o := cluster / CLU_PER_FAT, cluster % CLU_PER_FAT;
    SlotInSector(cluster, 0);
    SlotInSector(cluster, 1);
    SlotInSector(cluster, 2);
    SlotInSector(cluster, 3);
    var sector := disk(begin + s);
    var word := [sector[4 * o], sector[4 * o + 1], sector[4 * o + 2], sector[4 * o + 3]];
    assert EntryAt(sector, o) == EntryAt(word, 0);
  }

  lemma SlotInSector(cluster: nat, i: nat)
    requires i < 4
    ensures (4 * cluster + i) / SECTOR == cluster / CLU_PER_FAT
    ensures (4 * cluster + i) % SECTOR == 4 * (cluster % CLU_PER_FAT) + i
  {}

  /** Numbers that a cluster of data can have. */
  predicate IsCluster(c: nat) {
    2 <= c < 0x0FFF_FFF7
  }

  /** Values that the caller takes for an error code: -15 to -5 as 32-bit integers. */
  predicate IsErrorCode(v: nat) {
    WORD - 15 <= v <= WORD - 5
  }

  /** These are 0xFFFFFFF1 to 0xFFFFFFFB. */
  lemma ErrorCodesAre(v: nat)
    ensures IsErrorCode(v) <==> 0xFFFF_FFF1 <= v <= 0xFFFF_FFFB
  {}

  // ---------- mounted volumes and their chains ----------

  /** A mounted volume: the drive, the chain link of each cluster, and the geometry. */
  datatype Volume = Volume(disk: Disk, link: nat -> nat, sectorsPerCluster: nat, firstSector: nat)

  /** The boot sector fields in use. */
  datatype BootSector = BootSector(bootSectors: nat, fats: nat, sectorsPerFat: nat, sectorsPerCluster: nat)

  /** fat32_rd_bootsec: where the table and the clusters of the partition at `lba` begin. */
  function Mounted(disk: Disk, lba: nat, boot: BootSector): Volume {
    Volume(disk, (cluster: nat) => NextCluster(disk, lba + boot.bootSectors, cluster),
           boot.sectorsPerCluster, lba + boot.bootSectors + boot.fats * boot.sectorsPerFat)
  }

  /** The links of a mounted volume are the entries of its flat table. */
  lemma MountedLinks(disk: Disk, lba: nat, boot: BootSector, cluster: nat)
    ensures var entry := FlatEntry(disk, lba + boot.bootSectors, cluster);
            Mounted(disk, lba, boot).link(cluster) == if entry == 0x0FFF_FFFF then 0 else entry
  {
    ReadsFlatTable(disk, lba + boot.bootSectors, cluster);
  }

  /** Sector `k` of a cluster, on 32-bit sector numbers; a negative `k` lies before the cluster. */
  function SectorOf(v: Volume, cluster: nat, k: int): nat {
    ((cluster - 2) * v.sectorsPerCluster + v.firstSector + k) % WORD
  }

  /** Cluster 2 begins behind the boot sectors and the tables of the partition. */
  lemma FirstCluster(disk: Disk, lba: nat, boot: BootSector)
    ensures SectorOf(Mounted(disk, lba, boot), 2, 0) ==
            (lba + boot.bootSectors + boot.fats * boot.sectorsPerFat) % 0x1_0000_0000
  {}

  /** Every other one begins where the one before ends. */
  lemma NextClusterBegins(v: Volume, cluster: nat, k: int)
    ensures SectorOf(v, cluster + 1, k) == SectorOf(v, cluster, v.sectorsPerCluster + k)
  {
    assert (cluster + 1 - 2) * v.sectorsPerCluster == (cluster - 2) * v.sectorsPerCluster + v.sectorsPerCluster;
  }

  /** Its sectors follow each other. */
  lemma NextSectorFollows(v: Volume, cluster: nat, k: int)
    ensures SectorOf(v, cluster, k + 1) == (SectorOf(v, cluster, k) + 1) % 0x1_0000_0000
  {}

  /** What reading that sector brings into the buffer. */
  function Loaded(v: Volume, cluster: nat, k: int): Sector {
    v.disk(SectorOf(v, cluster, k))
  }

  /** Whether the walk goes on behind a cluster. */
  predicate LeadsOn(v: Volume, cluster: nat) {
    v.link(cluster) != 0 && !IsErrorCode(v.link(cluster))
  }

  /** `chain` lists the clusters met from its first one on, down to the one where the walk stops. */
  ghost predicate IsChain(v: Volume, chain: seq<nat>) {
    && chain != []
    && (forall k :: 0 <= k < |chain| - 1 ==> LeadsOn(v, chain[k]) && chain[k + 1] == v.link(chain[k]))
    && !LeadsOn(v, chain[|chain| - 1])
  }

  lemma ChainStep(v: Volume, chain: seq<nat>)
    requires IsChain(v, chain)
    ensures LeadsOn(v, chain[0]) <==> |chain| > 1
    ensures |chain| > 1 ==> IsChain(v, chain[1..]) && chain[1] == v.link(chain[0])
  {
    if |chain| > 1 {
      var tail := chain[1..];
      forall k | 0 <= k < |tail| - 1 ensures LeadsOn(v, tail[k]) && tail[k + 1] == v.link(tail[k]) {
        assert LeadsOn(v, chain[k + 1]);
      }
    }
  }

  /** A finite chain is determined by where it starts. */
  lemma {:induction false} ChainIsUnique(v: Volume, a: seq<nat>, b: seq<nat>)
    requires IsChain(v, a) && IsChain(v, b) && a[0] == b[0]
    ensures a == b
    decreases |a|
  {
    ChainStep(v, a);
    ChainStep(v, b);
    if |a| > 1 {
      ChainIsUnique(v, a[1..], b[1..]);
      assert a == [a[0]] + a[1..] && b == [b[0]] + b[1..];
    } else {
      assert a == b;
    }
  }

  // ---------- the links the format defines ----------

  /** FAT32 File System Specification, "FAT Data Structure": the top four bits of an entry are reserved, and every
      value from 0x0FFFFFF8 on marks the end.  The end reads as zero. */
  function SpecLink(entry: nat): nat {
    var n := entry % 0x1000_0000;
    if n >= 0x0FFF_FFF8 then 0 else n
  }

  /** Entries with clear top bits that mark the end, if at all, by the one value the code knows. */
  predicate Plain(entry: nat) {
    entry < 0x0FFF_FFF8 || entry == 0x0FFF_FFFF
  }

  /** The code follows an entry as the format defines it exactly when it is a plain one. */
  lemma LinkIsSpecified(disk: Disk, begin: nat, cluster: nat)
    ensures NextCluster(disk, begin, cluster) == SpecLink(FlatEntry(disk, begin, cluster)) <==>
            Plain(FlatEntry(disk, begin, cluster))
  {
    ReadsFlatTable(disk, begin, cluster);
  }

  /** The volume's links come from this table. */
  ghost predicate Reads(v: Volume, table: nat -> nat) {
    forall c: nat :: v.link(c) == if table(c) == 0x0FFF_FFFF then 0 else table(c)
  }

  lemma MountedReads(disk: Disk, lba: nat, boot: BootSector)
    ensures Reads(Mounted(disk, lba, boot), (c: nat) => FlatEntry(disk, lba + boot.bootSectors, c))
  {
    forall c: nat {
      MountedLinks(disk, lba, boot, c);
    }
  }

  /** A cluster chain of the format. */
  ghost predicate IsSpecChain(table: nat -> nat, chain: seq<nat>) {
    && chain != []
    && (forall k :: 0 <= k < |chain| - 1 ==> chain[k + 1] == SpecLink(table(chain[k])) != 0)
    && SpecLink(table(chain[|chain| - 1])) == 0
  }

  /** A chain of the format is walked to its end exactly when its entries are plain, or all but the last one, which
      reads as an error code. */
  lemma ChainIsSpecified(v: Volume, table: nat -> nat, chain: seq<nat>)
    requires Reads(v, table) && IsSpecChain(table, chain)
    ensures var last := |chain| - 1;
            IsChain(v, chain) <==>
              && (forall k :: 0 <= k < last ==> Plain(table(chain[k])))
              && (Plain(table(chain[last])) || IsErrorCode(table(chain[last])))
  {
    var last := |chain| - 1;
    forall k | 0 <= k < last
      ensures LeadsOn(v, chain[k]) && chain[k + 1] == v.link(chain[k]) <==> Plain(table(chain[k]))
    {
      assert chain[k + 1] == SpecLink(table(chain[k])) != 0;
    }
    if IsChain(v, chain) {
      forall k | 0 <= k < last ensures Plain(table(chain[k])) {
        assert LeadsOn(v, chain[k]) && chain[k + 1] == v.link(chain[k]);
      }
    }
    assert !LeadsOn(v, chain[last]) <==> Plain(table(chain[last])) || IsErrorCode(table(chain[last]));
  }
}
