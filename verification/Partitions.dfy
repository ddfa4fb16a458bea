/** The partition scan: primaries of the master boot record, then the chain of extended boot records. */
module Partitions {
  import opened Options
  import opened Sequences
  import opened Disks
  import opened Words

  const MBR_SIGNATURE: nat := 0xAA55

  /** The fields of a 16-byte table entry that the scan uses. */
  datatype Slot = Slot(kind: nat, start: nat, sectors: nat)

  datatype RawRecord = Record(slots: seq<Slot>, signature: nat)

  /** A boot record: four slots and the signature. */
  type Record = r: RawRecord | |r.slots| == 4 witness Record(seq(4, _ => Slot(0, 0, 0)), 0)

  // ---------- the bytes of a boot record ----------

  function WordAt(s: Sector, at: nat): nat
    requires at + 4 <= 512
  {
    var b0: nat, b1: nat, b2: nat, b3: nat := s[at], s[at + 1], s[at + 2], s[at + 3];
    b0 + 0x100 * b1 + 0x1_0000 * b2 + 0x100_0000 * b3
  }

  /** The slots stand from byte 446 on, 16 bytes each: the kind in byte 4, start and length behind byte 8. */
  lemma SlotBytes(s: Sector, i: nat)
    requires i < 4
    ensures SlotAt(s, i) == Slot(s[450 + 16 * i], WordAt(s, 454 + 16 * i), WordAt(s, 458 + 16 * i))
  {
    var a, b := s[454 + 16 * i..458 + 16 * i], s[458 + 16 * i..462 + 16 * i];
    assert a[0] == s[454 + 16 * i] && b[0] == s[458 + 16 * i];
  }

  lemma SignatureBytes(s: Sector)
    ensures Decode(s).signature == MBR_SIGNATURE <==> s[510] == 0x55 && s[511] == 0xAA
  {}

  /** Extended are the kinds 0x05, 0x0F and 0x85, Linux ones 0x83 and 0x93, and 0x0B and 0x0C are recorded too. */
  lemma KindsAre(kind: nat)
    ensures IsExtended(kind) <==> kind in {5, 15, 133}
    ensures IsLinux(kind) <==> kind in {131, 147}
    ensures RecordsType(kind) <==> kind in {11, 12, 131, 147}
  {}

  /** What slot `i` of a record in sector `lba` is listed as. */
  function ListedAs(s: Sector, i: nat, lba: nat): Extent
    requires i < 4
  {
    var kind := s[450 + 16 * i];
    Extent(if kind in {11, 12, 131, 147} then Some(kind) else None,
           (lba + WordAt(s, 454 + 16 * i)) % 0x1_0000_0000, WordAt(s, 458 + 16 * i) * 512 / 0x10_0000)
  }

  lemma LocatedBytes(s: Sector, i: nat, lba: nat)
    requires i < 4
    ensures Located(SlotAt(s, i), lba) == ListedAs(s, i, lba)
  {
    SlotBytes(s, i);
    KindsAre(s[450 + 16 * i]);
  }

  /** A record written to a sector. */
  function SlotByte(s: Slot, o: nat): Byte
    requires s.kind < 0x100 && s.start < 0x1_0000_0000 && s.sectors < 0x1_0000_0000 && o < 16
  {
    if o == 4 then s.kind
    else if 8 <= o < 12 then WordBytes(s.start)[o - 8]
    else if o >= 12 then WordBytes(s.sectors)[o - 12]
    else 0
  }

  predicate Writable(r: Record) {
    r.signature < 0x1_0000 && forall i :: 0 <= i < 4 ==>
      r.slots[i].kind < 0x100 && r.slots[i].start < 0x1_0000_0000 && r.slots[i].sectors < 0x1_0000_0000
  }

  function RecordByte(r: Record, x: nat): Byte
    requires Writable(r)
  {
    if 446 <= x < 510 then SlotByte(r.slots[(x - 446) / 16], (x - 446) % 16)
    else if x == 510 then r.signature % 0x100
    else if x == 511 then r.signature / 0x100
    else 0
  }

  function Written(r: Record): Sector
    requires Writable(r)
  {
    seq<Byte>(SECTOR, x requires 0 <= x => RecordByte(r, x))
  }

  lemma WrittenSlot(r: Record, i: nat, o: nat)
    requires Writable(r) && i < 4 && o < 16
    ensures Written(r)[446 + 16 * i + o] == SlotByte(r.slots[i], o)
  {
    var x := 446 + 16 * i + o;
    assert (x - 446) / 16 == i && (x - 446) % 16 == o;
  }

  lemma WordOfSlot(r: Record, i: nat, from: nat, w: nat)
    requires Writable(r) && i < 4 && w < 0x1_0000_0000
    requires (from == 8 && w == r.slots[i].start) || (from == 12 && w == r.slots[i].sectors)
    ensures EntryAt(Written(r)[446 + 16 * i + from..446 + 16 * i + from + 4], 0) == w
  {
    var at := 446 + 16 * i + from;
    var table := Written(r)[at..at + 4];
    forall o: nat | o < 4 ensures table[o] == WordBytes(w)[o] { WrittenSlot(r, i, from + o); }
    assert table == WordBytes(w) == table[4 * 0..4 * 0 + 4];
    WordReadsBack(table, 0, w);
  }

  lemma SlotReadsBack(r: Record, i: nat)
    requires Writable(r) && i < 4
    ensures SlotAt(Written(r), i) == r.slots[i]
  {
    WrittenSlot(r, i, 4);
    WordOfSlot(r, i, 8, r.slots[i].start);
    WordOfSlot(r, i, 12, r.slots[i].sectors);
  }

  lemma SignatureReadsBack(r: Record)
    requires Writable(r)
    ensures Written(r)[510] as nat + 0x100 * Written(r)[511] as nat == r.signature
  {}

  lemma DecodedFrom(s: Sector, r: Record)
    requires SlotAt(s, 0) == r.slots[0] && SlotAt(s, 1) == r.slots[1]
    requires SlotAt(s, 2) == r.slots[2] && SlotAt(s, 3) == r.slots[3]
    requires s[510] as nat + 0x100 * s[511] as nat == r.signature
    ensures Decode(s) == r
  {
    assert Decode(s).slots == r.slots;
  }

  /** It is read back. */
  lemma RecordReadsBack(r: Record)
    requires Writable(r)
    ensures Decode(Written(r)) == r
  {
    SlotReadsBack(r, 0);
    SlotReadsBack(r, 1);
    SlotReadsBack(r, 2);
    SlotReadsBack(r, 3);
    SignatureReadsBack(r);
    DecodedFrom(Written(r), r);
  }

  /** The boot record in each sector of a drive. */
  type Records = nat -> Record

  function SlotAt(s: Sector, i: nat): Slot
    requires i < 4
  {
    var at := 446 + 16 * i;
    Slot(s[at + 4], EntryAt(s[at + 8..at + 12], 0), EntryAt(s[at + 12..at + 16], 0))
  }

  function Decode(s: Sector): Record {
    var low: nat, high: nat := s[510], s[511];
    Record([SlotAt(s, 0), SlotAt(s, 1), SlotAt(s, 2), SlotAt(s, 3)], low + 0x100 * high)
  }

  predicate IsExtended(kind: nat) {
    kind == 0x05 || kind == 0x0F || kind == 0x85
  }

  /** The four kinds whose type byte the list records. */
  predicate RecordsType(kind: nat) {
    IsLinux(kind) || kind == 0x0B || kind == 0x0C
  }

  predicate IsLinux(kind: nat) {
    kind == 0x83 || kind == 0x93
  }

  /** A partition as listed: the type byte, which is left unset for other kinds, first sector, size in
      megabytes. */
  datatype Extent = Extent(typeByte: Option<nat>, start: nat, megabytes: nat)

  function Located(s: Slot, lba: nat): Extent {
    Extent(if RecordsType(s.kind) then Some(s.kind) else None, (lba + s.start) % WORD, s.sectors / 2048)
  }

  /** The current partition is the last one of a Linux kind, or what it was before. */
  function Current(extents: seq<Extent>, before: nat): nat {
    if extents == [] then before
    else
      var last := extents[|extents| - 1];
      if last.typeByte.Some? && IsLinux(last.typeByte.value) then last.start
      else Current(extents[..|extents| - 1], before)
  }

  /** So it starts where the last one of kind 0x83 or 0x93 does. */
  lemma {:induction false} CurrentIsLastLinux(extents: seq<Extent>, before: nat, k: nat)
    requires k <= |extents|
    requires forall j :: k <= j < |extents| ==> extents[j].typeByte !in {Some(131), Some(147)}
    ensures k == 0 ==> Current(extents, before) == before
    ensures k > 0 && extents[k - 1].typeByte in {Some(131), Some(147)} ==>
              Current(extents, before) == extents[k - 1].start
  {
    if k < |extents| {
      CurrentIsLastLinux(extents[..|extents| - 1], before, k);
    }
  }

  // ---------- the chain of extended boot records ----------

  function Decoded(disk: Disk): Records {
    (lba: nat) => Decode(disk(lba))
  }

  /** Where the record at `lba` continues: it is signed and its second slot is in use. */
  predicate Continues(disk: Records, lba: nat) {
    disk(lba).signature == MBR_SIGNATURE && disk(lba).slots[1].kind != 0
  }

  function NextRecord(disk: Records, lba: nat, ext: nat): nat {
    (disk(lba).slots[1].start + ext) % WORD
  }

  /** `chain` lists the records met from its first one on, down to the one that does not continue. */
  ghost predicate IsChain(disk: Records, ext: nat, chain: seq<nat>) {
    && chain != []
    && (forall k :: 0 <= k < |chain| - 1 ==>
          Continues(disk, chain[k]) && chain[k + 1] == NextRecord(disk, chain[k], ext))
    && !Continues(disk, chain[|chain| - 1])
  }

  /** The logical partitions of a chain; a record with a bad signature contributes none. */
  function Logical(disk: Records, chain: seq<nat>): seq<Extent> {
    if chain == [] then []
    else
      var r := disk(chain[0]);
      (if r.signature == MBR_SIGNATURE then [Located(r.slots[0], chain[0])] else []) + Logical(disk, chain[1..])
  }

  /** A finite chain is determined by where it starts. */
  lemma {:induction false} ChainIsUnique(disk: Records, ext: nat, a: seq<nat>, b: seq<nat>)
    requires IsChain(disk, ext, a) && IsChain(disk, ext, b) && a[0] == b[0]
    ensures a == b
    decreases |a|
  {
    if |a| > 1 && |b| > 1 {
      assert Continues(disk, a[0]);
      ChainTail(disk, ext, a);
      ChainTail(disk, ext, b);
      ChainIsUnique(disk, ext, a[1..], b[1..]);
      assert a == [a[0]] + a[1..] && b == [b[0]] + b[1..];
    }
  }

  lemma ChainTail(disk: Records, ext: nat, chain: seq<nat>)
    requires IsChain(disk, ext, chain) && |chain| > 1
    ensures IsChain(disk, ext, chain[1..])
  {
    var tail := chain[1..];
    forall k | 0 <= k < |tail| - 1 ensures Continues(disk, tail[k]) && tail[k + 1] == NextRecord(disk, tail[k], ext) {
      assert Continues(disk, chain[k + 1]);
    }
  }

  /** A chain in bytes: every record but the last is signed and has its second slot in use, and that slot's start
      counts from the sector `ext` where the chain begins. */
  ghost predicate IsChainOfBytes(drive: Disk, ext: nat, chain: seq<nat>) {
    && chain != []
    && (forall k :: 0 <= k < |chain| - 1 ==> GoesOn(drive(chain[k])) && chain[k + 1] == LinkOf(drive(chain[k]), ext))
    && !GoesOn(drive(chain[|chain| - 1]))
  }

  predicate GoesOn(s: Sector) {
    s[510] == 0x55 && s[511] == 0xAA && s[466] != 0
  }

  function LinkOf(s: Sector, ext: nat): nat {
    (ext + WordAt(s, 470)) % 0x1_0000_0000
  }

  lemma StepOfBytes(drive: Disk, ext: nat, lba: nat)
    ensures Continues(Decoded(drive), lba) <==> GoesOn(drive(lba))
    ensures NextRecord(Decoded(drive), lba, ext) == LinkOf(drive(lba), ext)
  {
    SignatureBytes(drive(lba));
    SlotBytes(drive(lba), 1);
  }

  lemma ChainOfBytes(drive: Disk, ext: nat, chain: seq<nat>)
    ensures IsChain(Decoded(drive), ext, chain) <==> IsChainOfBytes(drive, ext, chain)
  {
    forall lba: nat
      ensures Continues(Decoded(drive), lba) <==> GoesOn(drive(lba))
      ensures NextRecord(Decoded(drive), lba, ext) == LinkOf(drive(lba), ext)
    {
      StepOfBytes(drive, ext, lba);
    }
  }

  /** One step along a chain. */
  lemma ChainStep(disk: Records, ext: nat, chain: seq<nat>)
    requires IsChain(disk, ext, chain)
    ensures var r := disk(chain[0]);
            var here := [Located(r.slots[0], chain[0])];
            if r.signature != MBR_SIGNATURE then |chain| == 1 && Logical(disk, chain) == []
            else if r.slots[1].kind == 0 then |chain| == 1 && Logical(disk, chain) == here
            else
              && |chain| > 1 && IsChain(disk, ext, chain[1..]) && chain[1] == NextRecord(disk, chain[0], ext)
              && Logical(disk, chain) == here + Logical(disk, chain[1..])
  {
    if |chain| > 1 {
      assert Continues(disk, chain[0]);
      ChainTail(disk, ext, chain);
    }
  }

  datatype Part = Part(number: nat, extent: Extent)

  class PartitionList {
    var parts: seq<Part>
    var partIn: nat
    var currentLba: nat
    /** The current partition before the scan. */
    const initialLba: nat

    ghost predicate Valid()
      reads this
    {
      && partIn == |parts| + 1 && (forall i :: 0 <= i < |parts| ==> parts[i].number == i + 1)
      && currentLba == Current(Extents(), initialLba)
    }

    ghost function Extents(): (e: seq<Extent>)
      reads this
      ensures |e| == |parts| && forall i :: 0 <= i < |e| ==> e[i] == parts[i].extent
    {
      seq(|parts|, i requires 0 <= i < |parts| reads this => parts[i].extent)
    }

    constructor (currentLba: nat)
      ensures Valid() && Extents() == [] && initialLba == currentLba
    {
      this.initialLba, this.currentLba := currentLba, currentLba;
      parts, partIn := [], 1;
    }

    method SavePartProps(pe: Slot, lba: nat)
      requires Valid()
      modifies this
      ensures Valid() && Extents() == old(Extents()) + [Located(pe, lba)]
    {
      var typeByte := None;
      var start := (lba + pe.start) % WORD;
      if pe.kind == 0x93 || pe.kind == 0x83 {
        currentLba := start;
        typeByte := Some(pe.kind);
      } else if pe.kind == 0x0C || pe.kind == 0x0B {
        typeByte := Some(pe.kind);
      }
      parts := parts + [Part(partIn, Extent(typeByte, start, pe.sectors / 2048))];
      partIn := partIn + 1;
      assert Extents()[..|parts| - 1] == old(Extents());
      assert Extents() == old(Extents()) + [Located(pe, lba)];
    }

    /** The recursion over the chain; `temp` is the record it stops at. */
    method GetBootSector(disk: Records, lba: nat, ext: nat, ghost chain: seq<nat>) returns (temp: Record)
      requires Valid() && IsChain(disk, ext, chain) && chain[0] == lba
      modifies this
      ensures Valid() && Extents() == old(Extents()) + Logical(disk, chain)
      ensures temp == LastRecord(disk, chain)
      decreases |chain|
    {
      ChainStep(disk, ext, chain);
      temp := disk(lba);
      if temp.signature != MBR_SIGNATURE {
        return;
      }
      ghost var before := Extents();
      SavePartProps(temp.slots[0], lba);
      if temp.slots[1].kind != 0 {
        Regroup(before, [Located(temp.slots[0], lba)], Logical(disk, chain[1..]));
        temp := GetBootSector(disk, (temp.slots[1].start + ext) % WORD, ext, chain[1..]);
      }
    }

    /** The four primaries, if the boot record is signed. */
    method TraversePrimary(mbr: Record)
      requires Valid()
      modifies this
      ensures Valid() && Extents() == old(Extents()) + Primaries(mbr)
    {
      if mbr.signature == MBR_SIGNATURE {
        SavePartProps(mbr.slots[0], 0);
        SavePartProps(mbr.slots[1], 0);
        SavePartProps(mbr.slots[2], 0);
        SavePartProps(mbr.slots[3], 0);
      }
    }

    /** Follows the chain of an extended slot.  That moves `temp`, so the slots checked next are those of
        the record the chain stopped at. */
    method CheckIfExtended(disk: Records, temp: Record, p: nat, ghost chains: seq<seq<nat>>, ghost total: seq<Extent>)
        returns (temp': Record)
      requires Valid() && p < 4 && LeadsTo(Extents(), disk, temp, p, chains, total)
      modifies this
      ensures Valid() && LeadsTo(Extents(), disk, temp', p + 1, chains, total)
    {
      temp' := temp;
      if IsExtended(temp.slots[p].kind) {
        ghost var before, here := Extents(), Logical(disk, chains[p]);
        temp' := GetBootSector(disk, temp.slots[p].start, temp.slots[p].start, chains[p]);
        Regroup(before, here, ExtendedScan(disk, temp', p + 1, chains));
      }
    }

    method TraverseExtended(disk: Records, mbr: Record, ghost chains: seq<seq<nat>>)
      requires Valid() && |chains| == 4 && ChainsOk(disk, mbr, 0, chains)
      modifies this
      ensures Valid() && Extents() == old(Extents()) + ExtendedScan(disk, mbr, 0, chains)
    {
      ghost var total := Extents() + ExtendedScan(disk, mbr, 0, chains);
      var temp := CheckIfExtended(disk, mbr, 0, chains, total);
      temp := CheckIfExtended(disk, temp, 1, chains, total);
      temp := CheckIfExtended(disk, temp, 2, chains, total);
      temp := CheckIfExtended(disk, temp, 3, chains, total);
      NothingLeft(Extents(), disk, temp, chains, total);
    }

    method ReadRecords(disk: Records, ghost chains: seq<seq<nat>>)
      requires Valid() && DriveOk(disk, chains)
      modifies this
      ensures Valid() && Extents() == old(Extents()) + DriveExtents(disk, chains)
    {
      var mbr := disk(0);
      TraversePrimary(mbr);
      TraverseExtended(disk, mbr, chains);
    }

    /** One drive of read_disk_partitions. */
    method ReadDrive(drive: Disk, ghost chains: seq<seq<nat>>)
      requires Valid() && DriveOk(Decoded(drive), chains)
      modifies this
      ensures Valid() && Extents() == old(Extents()) + DriveExtents(Decoded(drive), chains)
    {
      ReadRecords(Decoded(drive), chains);
    }

    /** All drives in turn; the numbering runs on. */
    method ReadDiskPartitions(disks: seq<Disk>, ghost chains: seq<seq<seq<nat>>>)
      requires Valid() && |chains| == |disks|
      requires forall d :: 0 <= d < |disks| ==> DriveOk(Decoded(disks[d]), chains[d])
      modifies this
      ensures Valid() && Extents() == old(Extents()) + AllExtents(disks, chains)
    {
      var drive := 0;
      assert disks[0..] == disks && chains[0..] == chains;
      while drive < |disks|
        invariant 0 <= drive <= |disks| && Valid()
        invariant Extents() + AllExtents(disks[drive..], chains[drive..]) == old(Extents()) + AllExtents(disks, chains)
      {
        AllExtentsStep(disks, chains, drive);
        Regroup(Extents(), DriveExtents(Decoded(disks[drive]), chains[drive]),
                AllExtents(disks[drive + 1..], chains[drive + 1..]));
        ReadDrive(disks[drive], chains[drive]);
        drive := drive + 1;
      }
      assert Extents() + [] == Extents();
    }

    /** The search of fs_root: the node of that number, or the unused node behind the list. */
    method FindPart(number: nat) returns (at: nat)
      requires Valid()
      ensures at <= |parts|
      ensures 1 <= number <= |parts| ==> at == number - 1 && parts[at].number == number
      ensures !(1 <= number <= |parts|) ==> at == |parts|
    {
      at := 0;
      while at < |parts|
        invariant at <= |parts| && (1 <= number ==> at < number || number > |parts|)
      {
        if parts[at].number == number {
          return;
        }
        at := at + 1;
      }
    }
  }

  // ---------- one drive ----------

  function Primaries(mbr: Record): seq<Extent> {
    if mbr.signature == MBR_SIGNATURE
    then [Located(mbr.slots[0], 0), Located(mbr.slots[1], 0), Located(mbr.slots[2], 0), Located(mbr.slots[3], 0)]
    else []
  }

  /** For each extended slot that is followed, `chains` holds its finite chain. */
  ghost predicate ChainsOk(disk: Records, temp: Record, p: nat, chains: seq<seq<nat>>)
    requires |chains| == 4 && p <= 4
    decreases 4 - p
  {
    p == 4 ||
    if IsExtended(temp.slots[p].kind)
    then IsChain(disk, temp.slots[p].start, chains[p]) && chains[p][0] == temp.slots[p].start &&
         ChainsOk(disk, LastRecord(disk, chains[p]), p + 1, chains)
    else ChainsOk(disk, temp, p + 1, chains)
  }

  function LastRecord(disk: Records, chain: seq<nat>): Record
    requires chain != []
  {
    disk(chain[|chain| - 1])
  }

  /** What the slots from `p` on contribute when `temp` is the record at hand. */
  ghost function ExtendedScan(disk: Records, temp: Record, p: nat, chains: seq<seq<nat>>): seq<Extent>
    requires |chains| == 4 && p <= 4 && ChainsOk(disk, temp, p, chains)
    decreases 4 - p
  {
    if p == 4 then []
    else if IsExtended(temp.slots[p].kind)
    then Logical(disk, chains[p]) + ExtendedScan(disk, LastRecord(disk, chains[p]), p + 1, chains)
    else ExtendedScan(disk, temp, p + 1, chains)
  }

  /** With what the slots from `p` on contribute, `done` becomes `total`. */
  ghost predicate LeadsTo(done: seq<Extent>, disk: Records, temp: Record, p: nat, chains: seq<seq<nat>>,
                          total: seq<Extent>) {
    |chains| == 4 && p <= 4 && ChainsOk(disk, temp, p, chains) &&
    done + ExtendedScan(disk, temp, p, chains) == total
  }

  lemma NothingLeft(done: seq<Extent>, disk: Records, temp: Record, chains: seq<seq<nat>>, total: seq<Extent>)
    requires LeadsTo(done, disk, temp, 4, chains, total)
    ensures done == total
  {
    assert done + [] == done;
  }

  /** Every chain that the scan of the drive follows is finite. */
  ghost predicate DriveOk(disk: Records, chains: seq<seq<nat>>) {
    |chains| == 4 && ChainsOk(disk, disk(0), 0, chains)
  }

  ghost function AllExtents(disks: seq<Disk>, chains: seq<seq<seq<nat>>>): seq<Extent>
    requires |chains| == |disks| && forall d :: 0 <= d < |disks| ==> DriveOk(Decoded(disks[d]), chains[d])
  {
    if disks == [] then [] else DriveExtents(Decoded(disks[0]), chains[0]) + AllExtents(disks[1..], chains[1..])
  }

  lemma AllExtentsStep(disks: seq<Disk>, chains: seq<seq<seq<nat>>>, d: nat)
    requires |chains| == |disks| && d < |disks|
    requires forall e :: 0 <= e < |disks| ==> DriveOk(Decoded(disks[e]), chains[e])
    ensures AllExtents(disks[d..], chains[d..]) ==
            DriveExtents(Decoded(disks[d]), chains[d]) + AllExtents(disks[d + 1..], chains[d + 1..])
  {
    assert disks[d..][1..] == disks[d + 1..] && chains[d..][1..] == chains[d + 1..];
  }

  ghost function DriveExtents(disk: Records, chains: seq<seq<nat>>): seq<Extent>
    requires DriveOk(disk, chains)
  {
    Primaries(disk(0)) + ExtendedScan(disk, disk(0), 0, chains)
  }

  predicate NoneExtended(r: Record, from: nat, upto: nat)
    requires from <= upto <= 4
  {
    forall i :: from <= i < upto ==> !IsExtended(r.slots[i].kind)
  }

  lemma {:induction false} ScanSkips(disk: Records, temp: Record, p: nat, upto: nat, chains: seq<seq<nat>>)
    requires |chains| == 4 && p <= upto <= 4 && NoneExtended(temp, p, upto)
    requires ChainsOk(disk, temp, p, chains)
    ensures ChainsOk(disk, temp, upto, chains)
    ensures ExtendedScan(disk, temp, p, chains) == ExtendedScan(disk, temp, upto, chains)
    decreases upto - p
  {
    if p < upto {
      ScanSkips(disk, temp, p + 1, upto, chains);
    }
  }

  /** The first extended primary decides: its chain is listed, and nothing else, provided the record that
      ends it has no extended slot behind that position. */
  lemma FirstExtendedDecides(disk: Records, mbr: Record, e: nat, chains: seq<seq<nat>>)
    requires |chains| == 4 && e < 4 && ChainsOk(disk, mbr, 0, chains)
    requires NoneExtended(mbr, 0, e) && IsExtended(mbr.slots[e].kind)
    requires chains[e] != [] && NoneExtended(LastRecord(disk, chains[e]), e + 1, 4)
    ensures ExtendedScan(disk, mbr, 0, chains) == Logical(disk, chains[e])
  {
    ScanSkips(disk, mbr, 0, e, chains);
    ScanSkips(disk, LastRecord(disk, chains[e]), e + 1, 4, chains);
    assert Logical(disk, chains[e]) + [] == Logical(disk, chains[e]);
  }

  /** A record without the signature lists nothing, neither as the master record nor in a chain. */
  lemma UnsignedListsNothing(drive: Disk, lba: nat)
    requires !(drive(lba)[510] == 0x55 && drive(lba)[511] == 0xAA)
    ensures Primaries(Decoded(drive)(lba)) == [] && Logical(Decoded(drive), [lba]) == []
  {
    SignatureBytes(drive(lba));
  }

  // ---------- several extended primaries ----------

  /** Each extended slot of the record has its own finite chain. */
  ghost predicate OwnChains(disk: Records, mbr: Record, own: seq<seq<nat>>) {
    |own| == 4 &&
    forall i :: 0 <= i < 4 && IsExtended(mbr.slots[i].kind) ==> IsChainFrom(disk, mbr.slots[i].start, own[i])
  }

  ghost predicate IsChainFrom(disk: Records, start: nat, chain: seq<nat>) {
    IsChain(disk, start, chain) && chain[0] == start
  }

  /** The logical partitions of all extended slots from `p` on, in order. */
  function AllLogical(disk: Records, mbr: Record, p: nat, own: seq<seq<nat>>): seq<Extent>
    requires |own| == 4 && p <= 4
    decreases 4 - p
  {
    if p == 4 then []
    else (if IsExtended(mbr.slots[p].kind) then Logical(disk, own[p]) else []) + AllLogical(disk, mbr, p + 1, own)
  }

  /** The slots from `p` on have no signed chain. */
  predicate NoneSigned(disk: Records, mbr: Record, p: nat)
    requires p <= 4
  {
    forall i :: p <= i < 4 && IsExtended(mbr.slots[i].kind) ==> disk(mbr.slots[i].start).signature != MBR_SIGNATURE
  }

  lemma {:induction false} EmptyIfUnsigned(disk: Records, mbr: Record, p: nat, own: seq<seq<nat>>)
    requires OwnChains(disk, mbr, own) && p <= 4
    ensures AllLogical(disk, mbr, p, own) == [] <==> NoneSigned(disk, mbr, p)
    decreases 4 - p
  {
    if p < 4 {
      EmptyIfUnsigned(disk, mbr, p + 1, own);
      if IsExtended(mbr.slots[p].kind) {
        assert IsChainFrom(disk, mbr.slots[p].start, own[p]);
        ChainStep(disk, mbr.slots[p].start, own[p]);
      }
    }
  }

  lemma {:induction false} LogicalFrom(disk: Records, mbr: Record, p: nat, e: nat, own: seq<seq<nat>>)
    requires |own| == 4 && p <= e < 4 && NoneExtended(mbr, p, e) && IsExtended(mbr.slots[e].kind)
    ensures AllLogical(disk, mbr, p, own) == Logical(disk, own[e]) + AllLogical(disk, mbr, e + 1, own)
    decreases e - p
  {
    if p < e {
      LogicalFrom(disk, mbr, p + 1, e, own);
      assert [] + AllLogical(disk, mbr, p + 1, own) == AllLogical(disk, mbr, p + 1, own);
    }
  }

  /** When the first extended primary decides, the scan lists the logical partitions of all extended primaries if
      and only if the later ones have no signed record. */
  lemma AllAreListed(disk: Records, mbr: Record, e: nat, chains: seq<seq<nat>>, own: seq<seq<nat>>)
    requires |chains| == 4 && e < 4 && ChainsOk(disk, mbr, 0, chains) && OwnChains(disk, mbr, own)
    requires NoneExtended(mbr, 0, e) && IsExtended(mbr.slots[e].kind)
    requires chains[e] != [] && NoneExtended(LastRecord(disk, chains[e]), e + 1, 4)
    ensures ExtendedScan(disk, mbr, 0, chains) == AllLogical(disk, mbr, 0, own) <==> NoneSigned(disk, mbr, e + 1)
  {
    ScanSkips(disk, mbr, 0, e, chains);
    assert IsChainFrom(disk, mbr.slots[e].start, own[e]);
    ChainIsUnique(disk, mbr.slots[e].start, chains[e], own[e]);
    FirstExtendedDecides(disk, mbr, e, chains);
    LogicalFrom(disk, mbr, 0, e, own);
    EmptyIfUnsigned(disk, mbr, e + 1, own);
  }

  /** A drive with two extended primaries, each with one Linux partition. */
  function TwoExtended(sector: nat): Sector {
    seq<Byte>(SECTOR, x requires 0 <= x => if sector == 0 then MasterByte(x) else LogicalByte(x))
  }

  function MasterByte(x: nat): Byte {
    match x
    case 450 => 0x05
    case 454 => 1
    case 466 => 0x05
    case 470 => 2
    case 510 => 0x55
    case 511 => 0xAA
    case _ => 0
  }

  function LogicalByte(x: nat): Byte {
    match x
    case 450 => 0x83
    case 454 => 1
    case 510 => 0x55
    case 511 => 0xAA
    case _ => 0
  }

  lemma TwoRecords(sector: nat)
    ensures Decode(TwoExtended(sector)) ==
            if sector == 0 then Record([Slot(5, 1, 0), Slot(5, 2, 0), Slot(0, 0, 0), Slot(0, 0, 0)], MBR_SIGNATURE)
            else Record([Slot(0x83, 1, 0), Slot(0, 0, 0), Slot(0, 0, 0), Slot(0, 0, 0)], MBR_SIGNATURE)
  {}

  const TWO_CHAINS: seq<seq<nat>> := [[1], [2], [], []]

  /** The records of such a drive. */
  ghost predicate HasTwo(disk: Records) {
    && disk(0) == Record([Slot(5, 1, 0), Slot(5, 2, 0), Slot(0, 0, 0), Slot(0, 0, 0)], MBR_SIGNATURE)
    && disk(1) == disk(2) == Record([Slot(0x83, 1, 0), Slot(0, 0, 0), Slot(0, 0, 0), Slot(0, 0, 0)], MBR_SIGNATURE)
  }

  lemma TwoChains(disk: Records)
    requires HasTwo(disk)
    ensures IsChainFrom(disk, 1, [1]) && IsChainFrom(disk, 2, [2]) && DriveOk(disk, TWO_CHAINS)
    ensures Logical(disk, [1]) == [Extent(Some(0x83), 2, 0)] && Logical(disk, [2]) == [Extent(Some(0x83), 3, 0)]
  {
    assert LastRecord(disk, [1]) == disk(1);
    assert ChainsOk(disk, disk(1), 1, TWO_CHAINS);
  }

  lemma SecondIsLost(disk: Records)
    requires HasTwo(disk)
    ensures DriveOk(disk, TWO_CHAINS) && OwnChains(disk, disk(0), TWO_CHAINS)
    ensures Extent(Some(0x83), 3, 0) in AllLogical(disk, disk(0), 0, TWO_CHAINS)
    ensures Extent(Some(0x83), 3, 0) !in DriveExtents(disk, TWO_CHAINS)
  {
    TwoChains(disk);
    FirstExtendedDecides(disk, disk(0), 0, TWO_CHAINS);
    LogicalFrom(disk, disk(0), 0, 0, TWO_CHAINS);
    LogicalFrom(disk, disk(0), 1, 1, TWO_CHAINS);
  }

  /** The partition in the second one is lost. */
  lemma SecondExtendedIsLost()
    ensures var drive, lost := (sector: nat) => TwoExtended(sector), Extent(Some(0x83), 3, 0);
            && DriveOk(Decoded(drive), TWO_CHAINS) && OwnChains(Decoded(drive), Decoded(drive)(0), TWO_CHAINS)
            && lost in AllLogical(Decoded(drive), Decoded(drive)(0), 0, TWO_CHAINS)
            && lost !in DriveExtents(Decoded(drive), TWO_CHAINS)
  {
    TwoRecords(0);
    TwoRecords(1);
    TwoRecords(2);
    SecondIsLost(Decoded((sector: nat) => TwoExtended(sector)));
  }

  /** In a signed chain the k-th logical partition lies at its own record's sector plus its own start. */
  lemma {:induction false} LogicalAt(disk: Records, chain: seq<nat>, k: nat)
    requires k < |chain| && forall j :: 0 <= j < |chain| ==> disk(chain[j]).signature == MBR_SIGNATURE
    ensures |Logical(disk, chain)| == |chain|
    ensures Logical(disk, chain)[k] == Located(disk(chain[k]).slots[0], chain[k])
    decreases |chain|
  {
    if |chain| > 1 {
      LogicalAt(disk, chain[1..], if k == 0 then 0 else k - 1);
    }
  }

  /** Extended primary `e`, if there is one, is the first, its chain is signed, and no extended slot stands
      behind its position in the record that ends the chain. */
  ghost predicate ProperlyExtended(disk: Records, e: Option<nat>, chains: seq<seq<nat>>)
    requires |chains| == 4
  {
    match e
    case None => NoneExtended(disk(0), 0, 4)
    case Some(i) =>
      && i < 4 && NoneExtended(disk(0), 0, i) && IsExtended(disk(0).slots[i].kind)
      && chains[i] != [] && NoneExtended(LastRecord(disk, chains[i]), i + 1, 4)
      && forall j :: 0 <= j < |chains[i]| ==> disk(chains[i][j]).signature == MBR_SIGNATURE
  }

  /** The chain that is followed, if any. */
  function FollowedChain(e: Option<nat>, chains: seq<seq<nat>>): seq<nat> {
    if e.Some? && e.value < |chains| then chains[e.value] else []
  }

  lemma ScanOfProper(disk: Records, e: Option<nat>, chains: seq<seq<nat>>)
    requires |chains| == 4 && ChainsOk(disk, disk(0), 0, chains) && ProperlyExtended(disk, e, chains)
    ensures ExtendedScan(disk, disk(0), 0, chains) == Logical(disk, FollowedChain(e, chains))
  {
    match e
    case None => ScanSkips(disk, disk(0), 0, 4, chains);
    case Some(i) => FirstExtendedDecides(disk, disk(0), i, chains);
  }

  lemma LogicalIs(disk: Records, chain: seq<nat>)
    requires forall j :: 0 <= j < |chain| ==> disk(chain[j]).signature == MBR_SIGNATURE
    ensures |Logical(disk, chain)| == |chain|
    ensures forall k :: 0 <= k < |chain| ==> Logical(disk, chain)[k] == Located(disk(chain[k]).slots[0], chain[k])
  {
    if chain != [] {
      LogicalAt(disk, chain, 0);
    }
    forall k | 0 <= k < |chain| ensures Logical(disk, chain)[k] == Located(disk(chain[k]).slots[0], chain[k]) {
      LogicalAt(disk, chain, k);
    }
  }

  lemma FollowedIsSigned(disk: Records, e: Option<nat>, chains: seq<seq<nat>>)
    requires |chains| == 4 && ProperlyExtended(disk, e, chains)
    ensures forall j :: 0 <= j < |FollowedChain(e, chains)| ==>
              disk(FollowedChain(e, chains)[j]).signature == MBR_SIGNATURE
  {}

  lemma ProperRecords(disk: Records, e: Option<nat>, chains: seq<seq<nat>>)
    requires DriveOk(disk, chains) && ProperlyExtended(disk, e, chains) && disk(0).signature == MBR_SIGNATURE
    ensures var all, chain := DriveExtents(disk, chains), FollowedChain(e, chains);
            && |all| == 4 + |chain|
            && (forall i :: 0 <= i < 4 ==> all[i] == Located(disk(0).slots[i], 0))
            && (forall k :: 0 <= k < |chain| ==> all[4 + k] == Located(disk(chain[k]).slots[0], chain[k]))
  {
    var chain := FollowedChain(e, chains);
    ScanOfProper(disk, e, chains);
    FollowedIsSigned(disk, e, chains);
    LogicalIs(disk, chain);
    var front, rest := Primaries(disk(0)), Logical(disk, chain);
    assert DriveExtents(disk, chains) == front + rest;
    forall k | 0 <= k < |chain| ensures (front + rest)[4 + k] == Located(disk(chain[k]).slots[0], chain[k]) {
      assert (front + rest)[4 + k] == rest[k];
    }
  }

  lemma FollowedChainIs(drive: Disk, e: nat, chains: seq<seq<nat>>)
    requires DriveOk(Decoded(drive), chains) && ProperlyExtended(Decoded(drive), Some(e), chains)
    ensures var ext := WordAt(drive(0), 454 + 16 * e);
            IsChainOfBytes(drive, ext, chains[e]) && chains[e][0] == ext
  {
    FollowedRecords(Decoded(drive), e, chains);
    SlotBytes(drive(0), e);
    ChainOfBytes(drive, WordAt(drive(0), 454 + 16 * e), chains[e]);
  }

  lemma FollowedRecords(disk: Records, e: nat, chains: seq<seq<nat>>)
    requires DriveOk(disk, chains) && ProperlyExtended(disk, Some(e), chains)
    ensures IsChain(disk, disk(0).slots[e].start, chains[e]) && chains[e][0] == disk(0).slots[e].start
  {
    ScanSkips(disk, disk(0), 0, e, chains);
  }

  lemma ListedBytes(drive: Disk, all: seq<Extent>, chain: seq<nat>)
    requires |all| == 4 + |chain|
    requires forall i :: 0 <= i < 4 ==> all[i] == Located(Decoded(drive)(0).slots[i], 0)
    requires forall k :: 0 <= k < |chain| ==> all[4 + k] == Located(Decoded(drive)(chain[k]).slots[0], chain[k])
    ensures forall i :: 0 <= i < 4 ==> all[i] == ListedAs(drive(0), i, 0)
    ensures forall k :: 0 <= k < |chain| ==> all[4 + k] == ListedAs(drive(chain[k]), 0, chain[k])
  {
    forall i | 0 <= i < 4 ensures all[i] == ListedAs(drive(0), i, 0) { LocatedBytes(drive(0), i, 0); }
    forall k | 0 <= k < |chain| ensures all[4 + k] == ListedAs(drive(chain[k]), 0, chain[k]) {
      LocatedBytes(drive(chain[k]), 0, chain[k]);
    }
  }

  /** Four primaries, then one partition for each record of the chain, as the bytes say. */
  ghost predicate ListedInOrder(drive: Disk, all: seq<Extent>, chain: seq<nat>) {
    && |all| == 4 + |chain|
    && (forall i :: 0 <= i < 4 ==> all[i] == ListedAs(drive(0), i, 0))
    && (forall k :: 0 <= k < |chain| ==> all[4 + k] == ListedAs(drive(chain[k]), 0, chain[k]))
  }

  /** The chain begins at the start of primary `e`, and each link counts from there. */
  ghost predicate BeginsAtPrimary(drive: Disk, e: nat, chain: seq<nat>)
    requires e < 4
  {
    var ext := WordAt(drive(0), 454 + 16 * e);
    IsChainOfBytes(drive, ext, chain) && chain[0] == ext
  }

  lemma ProperListing(drive: Disk, e: Option<nat>, chains: seq<seq<nat>>)
    requires DriveOk(Decoded(drive), chains) && ProperlyExtended(Decoded(drive), e, chains)
    requires Decoded(drive)(0).signature == MBR_SIGNATURE
    ensures ListedInOrder(drive, DriveExtents(Decoded(drive), chains), FollowedChain(e, chains))
  {
    ProperRecords(Decoded(drive), e, chains);
    ListedBytes(drive, DriveExtents(Decoded(drive), chains), FollowedChain(e, chains));
  }

  lemma ProperChain(drive: Disk, e: nat, chains: seq<seq<nat>>)
    requires DriveOk(Decoded(drive), chains) && ProperlyExtended(Decoded(drive), Some(e), chains)
    ensures BeginsAtPrimary(drive, e, chains[e])
  {
    FollowedChainIs(drive, e, chains);
  }

  /** A properly partitioned drive lists as its four primaries, then its logical partitions in order, as they
      stand in the sectors' bytes. */
  lemma ProperDrive(drive: Disk, e: Option<nat>, chains: seq<seq<nat>>)
    requires DriveOk(Decoded(drive), chains) && ProperlyExtended(Decoded(drive), e, chains)
    requires Decoded(drive)(0).signature == MBR_SIGNATURE
    ensures ListedInOrder(drive, DriveExtents(Decoded(drive), chains), FollowedChain(e, chains))
    ensures e.Some? ==> BeginsAtPrimary(drive, e.value, chains[e.value])
  {
    ProperListing(drive, e, chains);
    if e.Some? {
      ProperChain(drive, e.value, chains);
    }
  }

  // ---------- a chain of two records ----------

  /** An extended primary in sector 1000; its record links to sector 1000 + 2000. */
  function TwoLinked(sector: nat): Record {
    var none := Slot(0, 0, 0);
    if sector == 0 then Record([Slot(5, 1000, 8000), none, none, none], MBR_SIGNATURE)
    else if sector == 1000 then Record([Slot(0x83, 63, 4096), Slot(5, 2000, 4000), none, none], MBR_SIGNATURE)
    else Record([Slot(0x83, 63, 2048), none, none, none], MBR_SIGNATURE)
  }

  function LinkedDrive(): Disk {
    (sector: nat) => Written(TwoLinked(sector))
  }

  lemma LinkedRecord(sector: nat)
    ensures Decoded(LinkedDrive())(sector) == TwoLinked(sector)
  {
    RecordReadsBack(TwoLinked(sector));
  }

  const LINKED_CHAINS: seq<seq<nat>> := [[1000, 3000], [], [], []]

  lemma LinkedChain(disk: Records)
    requires forall sector: nat :: disk(sector) == TwoLinked(sector)
    ensures IsChain(disk, 1000, [1000, 3000]) && DriveOk(disk, LINKED_CHAINS)
    ensures ExtendedScan(disk, disk(0), 0, LINKED_CHAINS) ==
            [Extent(Some(0x83), 1063, 2), Extent(Some(0x83), 3063, 1)]
    ensures |Primaries(disk(0))| == 4
  {
    assert Continues(disk, 1000) && NextRecord(disk, 1000, 1000) == 3000 && !Continues(disk, 3000);
    assert LastRecord(disk, [1000, 3000]) == disk(3000);
    ScanSkipsLast(disk);
    assert Logical(disk, [1000, 3000]) == [Extent(Some(0x83), 1063, 2)] + Logical(disk, [3000]);
    FirstExtendedDecides(disk, disk(0), 0, LINKED_CHAINS);
  }

  lemma ScanSkipsLast(disk: Records)
    requires disk(3000) == TwoLinked(3000)
    ensures ChainsOk(disk, disk(3000), 1, LINKED_CHAINS)
  {}

  /** Both logical partitions are listed, at 1000 + 63 and 3000 + 63. */
  lemma BothAreListed()
    ensures DriveOk(Decoded(LinkedDrive()), LINKED_CHAINS)
    ensures |DriveExtents(Decoded(LinkedDrive()), LINKED_CHAINS)| >= 4
    ensures DriveExtents(Decoded(LinkedDrive()), LINKED_CHAINS)[4..] ==
            [Extent(Some(0x83), 1063, 2), Extent(Some(0x83), 3063, 1)]
  {
    forall sector: nat ensures Decoded(LinkedDrive())(sector) == TwoLinked(sector) { LinkedRecord(sector); }
    LinkedChain(Decoded(LinkedDrive()));
    var front, rest := Primaries(Decoded(LinkedDrive())(0)),
                       ExtendedScan(Decoded(LinkedDrive()), Decoded(LinkedDrive())(0), 0, LINKED_CHAINS);
    assert (front + rest)[4..] == rest;
  }
}
