/**
The FAT32 directory reader: which entries of a cluster chain are listed, under their short or long names.
A long name stands in entries in front of its file's entry, last part first; the reader collects it backwards.
*/
module FatDir {
  import opened Options
  import opened Words
  import opened Disks
  import opened Numerals
  import opened Names
  import opened Fat32

  const DIRENT_PER_SECTOR: nat := 16
  const REG_FILE: nat := 1
  const DIRECTORY: nat := 2
  const LONG_ATTRIB: Byte := 0x0F
  const VOLUME_ATTRIB: Byte := 0x08

  // ---------- directory entries ----------

  type DirEntry = e: seq<Byte> | |e| == 32 witness seq(32, _ => 0)

  function EntryIn(buf: Sector, i: nat): DirEntry
    requires i < DIRENT_PER_SECTOR
  {
    buf[32 * i..32 * i + 32]
  }

  function Attrib(e: DirEntry): Byte {
    e[11]
  }

  /** Neither unused nor erased. */
  predicate InUse(e: DirEntry) {
    e[0] != 0 && e[0] != 0xE5 && e[0] != 0x20
  }

  /** What the listing keeps of an entry. */
  datatype File = File(name: CString, kind: nat, cluster: nat, size: nat)

  function Bit(v: nat, mask: nat): bool
    requires mask > 0
  {
    v / mask % 2 == 1
  }

  function KindOf(attrib: Byte): nat {
    if Bit(attrib, 0x10) || Bit(attrib, 0x08) then DIRECTORY
    else if Bit(attrib, 0x01) || Bit(attrib, 0x02) || Bit(attrib, 0x04) || Bit(attrib, 0x20) then REG_FILE
    else attrib
  }

  function StartCluster(e: DirEntry): nat {
    var h0: nat, h1: nat, l0: nat, l1: nat := e[20], e[21], e[26], e[27];
    var c := ((h0 + 0x100 * h1) * 0x1_0000 % WORD + (l0 + 0x100 * l1)) % WORD;
    if c == 0 && Attrib(e) == 0x10 then 2 else c
  }

  /** The file of an entry, under the name given. */
  function Named(name: CString, e: DirEntry): File {
    File(name, KindOf(Attrib(e)), StartCluster(e), EntryAt(e[28..32], 0))
  }

  // ---------- short names ----------

  /** The characters that Check_char keeps of a short name. */
  function Packed(s: seq<Byte>): (r: CString) {
    if s == [] then ""
    else
      var c := s[|s| - 1];
      Packed(s[..|s| - 1]) + if c != 0x20 && c != 0 then [c as char] else ""
  }

  function ShortName(e: DirEntry): CString {
    Packed(e[..8]) + (if e[8] != 0x20 then "." else "") + Packed(e[8..11])
  }

  lemma PackedMore(s: seq<Byte>, j: nat)
    requires j < |s|
    ensures Packed(s[..j + 1]) == Packed(s[..j]) + if s[j] != 0x20 && s[j] != 0 then [s[j] as char] else ""
  {
    assert s[..j + 1][..j] == s[..j];
  }

  method CheckChars(s: seq<Byte>, filename: CString) returns (r: CString)
    ensures r == filename + Packed(s)
  {
    r := filename;
    var j := 0;
    while j < |s|
      invariant 0 <= j <= |s| && r == filename + Packed(s[..j])
    {
      PackedMore(s, j);
      if s[j] != 0x20 && s[j] != 0x00 {
        r := r + [s[j] as char];
      }
      j := j + 1;
    }
    assert s[..j] == s;
  }

  method BuildShortName(e: DirEntry) returns (filename: CString)
    ensures filename == ShortName(e)
  {
    filename := CheckChars(e[..8], "");
    if e[8] != 0x20 {
      filename := filename + ".";
    }
    filename := CheckChars(e[8..11], filename);
  }

  // ---------- long names ----------

  /** The entry holds the last part of a long name; it is the first one on the disk. */
  predicate Flagged(e: DirEntry) {
    Bit(e[0], 0x40)
  }

  /** Where an entry holds character `j` of its 13. */
  function PartOffset(j: nat): (b: nat)
    requires j < 13
    ensures b < 32
  {
    if j < 5 then 1 + 2 * j else if j < 11 then 14 + 2 * (j - 5) else 28 + 2 * (j - 11)
  }

  /** The low bytes of the 13 characters in an entry. */
  function Part(e: DirEntry): string {
    seq(13, j requires 0 <= j < 13 => e[PartOffset(j)] as char)
  }

  /** A name as collected, and the buffer it leaves behind. */
  datatype Long = Long(name: string, buf: Sector)

  function Prepend(s: string, l: Option<Long>): Option<Long> {
    if l.Some? then Some(Long(s + l.value.name, l.value.buf)) else None
  }

  /** Generate_Long_Name from slot `i` backwards.  At the start of the buffer it reads the sector before,
      and at the end, once, the sector after the one reached.  None: the flag is not met within `steps`. */
  function Generated(v: Volume, c: nat, buf: Sector, i: int, k: int, flag: bool, steps: nat): Option<Long>
    requires i <= DIRENT_PER_SECTOR
    decreases steps, 1
  {
    if steps == 0 then None
    else if i <= 0 then Collected(v, c, Loaded(v, c, k - 1), DIRENT_PER_SECTOR, k - 1, true, steps)
    else Collected(v, c, buf, i, k, flag, steps)
  }

  /** The part in slot i - 1, then the rest. */
  function Collected(v: Volume, c: nat, buf: Sector, i: nat, k: int, flag: bool, steps: nat): Option<Long>
    requires 0 < i <= DIRENT_PER_SECTOR && steps > 0
    decreases steps, 0
  {
    var e := EntryIn(buf, i - 1);
    if Flagged(e) then Some(Long(Escape(Part(e)), if flag then Loaded(v, c, k + 1) else buf))
    else Prepend(Escape(Part(e)), Generated(v, c, buf, i - 1, k, flag, steps - 1))
  }

  /** At the start of the buffer the search goes on at the end of the sector before. */
  lemma CrossOver(v: Volume, c: nat, buf: Sector, i: int, k: int, flag: bool, steps: nat)
    requires i <= 0
    ensures Generated(v, c, buf, i, k, flag, steps) ==
            Generated(v, c, Loaded(v, c, k - 1), DIRENT_PER_SECTOR, k - 1, true, steps)
  {}

  /** One more part behind those in `name`. */
  lemma CollectPart(all: Option<Long>, name: string, v: Volume, c: nat, buf: Sector, i: nat, k: int, flag: bool,
                    steps: nat)
    requires 0 < i <= DIRENT_PER_SECTOR
    requires all.Some? && all == Prepend(name, Generated(v, c, buf, i, k, flag, steps))
    ensures var e := EntryIn(buf, i - 1);
            steps > 0 && all ==
            if Flagged(e) then Some(Long(name + Escape(Part(e)), if flag then Loaded(v, c, k + 1) else buf))
            else Prepend(name + Escape(Part(e)), Generated(v, c, buf, i - 1, k, flag, steps - 1))
  {
    if steps > 0 {
      PrependTwice(name, Escape(Part(EntryIn(buf, i - 1))), Generated(v, c, buf, i - 1, k, flag, steps - 1));
    }
  }

  method GenerateLongName(v: Volume, c: nat, buf0: Sector, i0: nat, k0: int, ghost steps: nat)
      returns (filename: string, buf: Sector)
    requires 0 < i0 <= DIRENT_PER_SECTOR && Generated(v, c, buf0, i0, k0, false, steps).Some?
    ensures Generated(v, c, buf0, i0, k0, false, steps) == Some(Long(filename, buf))
  {
    ghost var all, n := Generated(v, c, buf0, i0, k0, false, steps), steps;
    var flag, i, k, done := false, i0, k0, false;
    filename, buf := "", buf0;
    PrependNothing(all);
    while !done
      invariant i <= DIRENT_PER_SECTOR
      invariant if done then all == Some(Long(filename, if flag then Loaded(v, c, k + 1) else buf))
                else all == Prepend(filename, Generated(v, c, buf, i, k, flag, n))
      decreases !done, n
    {
      if i <= 0 {
        CrossOver(v, c, buf, i, k, flag, n);
        flag, i, k := true, DIRENT_PER_SECTOR, k - 1;
        buf := Loaded(v, c, k);
      }
      CollectPart(all, filename, v, c, buf, i, k, flag, n);
      var e := EntryIn(buf, i - 1);
      var part := EscapeName(Part(e));
      filename := filename + part;
      i := i - 1;
      done := Flagged(e);
      n := n - 1;
    }
    if flag {
      k := k + 1;
      buf := Loaded(v, c, k);
    }
  }

  lemma PrependNothing(l: Option<Long>)
    ensures Prepend("", l) == l
  {
    if l.Some? {
      assert "" + l.value.name == l.value.name;
    }
  }

  lemma PrependTwice(a: string, b: string, l: Option<Long>)
    ensures Prepend(a, Prepend(b, l)) == Prepend(a + b, l)
  {
    if l.Some? {
      assert a + (b + l.value.name) == a + b + l.value.name;
    }
  }

  // ---------- the entry loop ----------

  /** The list so far, the attribute of the last entry in use, and the sector buffer. */
  datatype Scan = Scan(files: seq<File>, prev: Byte, buf: Sector)

  /** The long name in front of slot `i` of sector `k`, and the buffer after the search. */
  function LongAt(v: Volume, c: nat, k: nat, i: nat, buf: Sector, steps: nat): Option<Long>
    requires i < DIRENT_PER_SECTOR
  {
    if i > 0 then Generated(v, c, buf, i, k, false, steps)
    else
      var l := Generated(v, c, Loaded(v, c, k - 1), DIRENT_PER_SECTOR, k, false, steps);
      if l.Some? then Some(Long(l.value.name, Loaded(v, c, k))) else None
  }

  /** What an entry adds to the list. */
  function Added(v: Volume, c: nat, k: nat, i: nat, s: Scan, steps: nat): Option<Scan>
    requires i < DIRENT_PER_SECTOR
  {
    var e := EntryIn(s.buf, i);
    if Attrib(e) == LONG_ATTRIB || Attrib(e) == VOLUME_ATTRIB then Some(s)
    else if s.prev == LONG_ATTRIB then
      var l := LongAt(v, c, k, i, s.buf, steps);
      if l.Some? then Some(Scan(s.files + [Named(Visible(l.value.name), e)], 0, l.value.buf)) else None
    else if InUse(e) then Some(s.(files := s.files + [Named(ShortName(e), e)]))
    else Some(s)
  }

  function Remembered(s: Scan, i: nat): Scan
    requires i < DIRENT_PER_SECTOR
  {
    var e := EntryIn(s.buf, i);
    if InUse(e) then s.(prev := Attrib(e)) else s
  }

  function Slot(v: Volume, c: nat, k: nat, i: nat, s: Scan, steps: nat): Option<Scan>
    requires i < DIRENT_PER_SECTOR
  {
    var s1 := Added(v, c, k, i, s, steps);
    if s1.Some? then Some(Remembered(s1.value, i)) else None
  }

  /** The sector is read when its first slot is reached. */
  function AtSlot(v: Volume, c: nat, g: nat, s: Scan): Scan {
    if g % DIRENT_PER_SECTOR == 0 then s.(buf := Loaded(v, c, g / DIRENT_PER_SECTOR)) else s
  }

  /** The slots of a cluster from number `g` up to `end`. */
  function Scanned(v: Volume, c: nat, g: nat, end: nat, s: Scan, steps: nat): Option<Scan>
    decreases end - g
  {
    if g >= end then Some(s)
    else
      var s1 := Slot(v, c, g / DIRENT_PER_SECTOR, g % DIRENT_PER_SECTOR, AtSlot(v, c, g, s), steps);
      if s1.Some? then Scanned(v, c, g + 1, end, s1.value, steps) else None
  }

  lemma ScannedSlot(v: Volume, c: nat, g: nat, end: nat, s: Scan, s': Scan, steps: nat)
    requires g < end
    requires Slot(v, c, g / DIRENT_PER_SECTOR, g % DIRENT_PER_SECTOR, AtSlot(v, c, g, s), steps) == Some(s')
    ensures Scanned(v, c, g, end, s, steps) == Scanned(v, c, g + 1, end, s', steps)
  {}

  type Loop = (nat, Scan) -> Option<Scan>

  /** `loop` is the scan up to `end`.  Where only this name is used, the definition behind it stays folded. */
  ghost predicate IsScan(loop: Loop, v: Volume, c: nat, end: nat, steps: nat) {
    forall g: nat, s {:trigger Scanned(v, c, g, end, s, steps)} :: loop(g, s) == Scanned(v, c, g, end, s, steps)
  }

  lemma NamedScan(v: Volume, c: nat, end: nat, steps: nat) returns (loop: Loop)
    ensures IsScan(loop, v, c, end, steps)
  {
    loop := (g: nat, s: Scan) => Scanned(v, c, g, end, s, steps);
  }

  /** The slots from `g` on lead to the outcome `all`. */
  ghost predicate Leads(loop: Loop, g: nat, s: Scan, all: Option<Scan>) {
    loop(g, s) == all && all.Some?
  }

  lemma SlotNumber(k: int, i: nat)
    requires i < DIRENT_PER_SECTOR
    ensures (DIRENT_PER_SECTOR * k + i) / DIRENT_PER_SECTOR == k && (DIRENT_PER_SECTOR * k + i) % DIRENT_PER_SECTOR == i
  {}

  lemma LeadsOverSlot(loop: Loop, v: Volume, c: nat, k: nat, i: nat, end: nat, s: Scan, steps: nat, all: Option<Scan>)
    requires IsScan(loop, v, c, end, steps)
    requires i < DIRENT_PER_SECTOR && DIRENT_PER_SECTOR * k + i < end && (i == 0 ==> s.buf == Loaded(v, c, k))
    requires Leads(loop, DIRENT_PER_SECTOR * k + i, s, all)
    ensures Slot(v, c, k, i, s, steps).Some?
    ensures Leads(loop, DIRENT_PER_SECTOR * k + (i + 1), Slot(v, c, k, i, s, steps).value, all)
  {
    var g := DIRENT_PER_SECTOR * k + i;
    SlotNumber(k, i);
    assert AtSlot(v, c, g, s) == s;
    assert Scanned(v, c, g, end, s, steps) == all;
    assert Scanned(v, c, g + 1, end, Slot(v, c, k, i, s, steps).value, steps) == all;
  }

  /** The slots of one sector. */
  function SectorScanned(v: Volume, c: nat, k: nat, s: Scan, steps: nat): Option<Scan> {
    Scanned(v, c, DIRENT_PER_SECTOR * k, DIRENT_PER_SECTOR * (k + 1), s, steps)
  }

  lemma {:induction false} ScanSplits(v: Volume, c: nat, g: nat, mid: nat, end: nat, s: Scan, steps: nat)
    requires g <= mid <= end
    ensures var s1 := Scanned(v, c, g, mid, s, steps);
            Scanned(v, c, g, end, s, steps) == if s1.Some? then Scanned(v, c, mid, end, s1.value, steps) else None
    decreases mid - g
  {
    if g < mid {
      var s1 := Slot(v, c, g / DIRENT_PER_SECTOR, g % DIRENT_PER_SECTOR, AtSlot(v, c, g, s), steps);
      if s1.Some? {
        ScanSplits(v, c, g + 1, mid, end, s1.value, steps);
      }
    }
  }

  /** The first slot of a sector loads the buffer. */
  lemma FirstSlotLoads(v: Volume, c: nat, k: nat, end: nat, s: Scan, steps: nat)
    requires DIRENT_PER_SECTOR * k < end
    ensures Scanned(v, c, DIRENT_PER_SECTOR * k, end, s, steps) ==
            Scanned(v, c, DIRENT_PER_SECTOR * k, end, s.(buf := Loaded(v, c, k)), steps)
  {
    SlotNumber(k, 0);
  }

  lemma LeadsOverSector(loop: Loop, v: Volume, c: nat, k: nat, end: nat, s: Scan, steps: nat, all: Option<Scan>)
    requires IsScan(loop, v, c, end, steps)
    requires DIRENT_PER_SECTOR * (k + 1) <= end && Leads(loop, DIRENT_PER_SECTOR * k, s, all)
    ensures var s1 := SectorScanned(v, c, k, s.(buf := Loaded(v, c, k)), steps);
            s1.Some? && Leads(loop, DIRENT_PER_SECTOR * (k + 1), s1.value, all)
  {
    var loaded, g, mid := s.(buf := Loaded(v, c, k)), DIRENT_PER_SECTOR * k, DIRENT_PER_SECTOR * (k + 1);
    FirstSlotLoads(v, c, k, end, s, steps);
    ScanSplits(v, c, g, mid, end, loaded, steps);
  }

  /** A cluster: nothing is remembered from the cluster before. */
  function ClusterScanned(v: Volume, c: nat, files: seq<File>, steps: nat): Option<Scan> {
    Scanned(v, c, 0, DIRENT_PER_SECTOR * v.sectorsPerCluster, Scan(files, 0, Loaded(v, c, 0)), steps)
  }

  function ChainScanned(v: Volume, chain: seq<nat>, files: seq<File>, steps: nat): Option<seq<File>> {
    if chain == [] then Some(files)
    else
      var s := ClusterScanned(v, chain[0], files, steps);
      if s.Some? then ChainScanned(v, chain[1..], s.value.files, steps) else None
  }

  class DirectoryList {
    var files: seq<File>

    constructor ()
      ensures files == []
    {
      files := [];
    }

    /** The long name in front of an entry, with the detour for the first slot of a sector. */
    method FindLongName(v: Volume, c: nat, k: nat, i: nat, direntry: Sector, ghost steps: nat)
        returns (filename: string, direntry': Sector)
      requires i < DIRENT_PER_SECTOR && LongAt(v, c, k, i, direntry, steps).Some?
      ensures LongAt(v, c, k, i, direntry, steps) == Some(Long(filename, direntry'))
    {
      if i == 0 {
        direntry' := Loaded(v, c, k - 1);
        filename, direntry' := GenerateLongName(v, c, direntry', DIRENT_PER_SECTOR, k, steps);
        direntry' := Loaded(v, c, k);
      } else {
        filename, direntry' := GenerateLongName(v, c, direntry, i, k, steps);
      }
    }

    /** One slot of the entry loop. */
    method ListSlot(v: Volume, c: nat, k: nat, i: nat, prev: Byte, direntry: Sector, ghost steps: nat)
        returns (prev': Byte, direntry': Sector)
      requires i < DIRENT_PER_SECTOR && Slot(v, c, k, i, Scan(files, prev, direntry), steps).Some?
      modifies this
      ensures Slot(v, c, k, i, Scan(old(files), prev, direntry), steps) == Some(Scan(files, prev', direntry'))
    {
      prev', direntry' := prev, direntry;
      var e := EntryIn(direntry, i);
      if e[11] != 0x0F && e[11] != 0x08 {
        if prev == 0x0F {
          var filename;
          filename, direntry' := FindLongName(v, c, k, i, direntry, steps);
          files := files + [Named(Visible(filename), e)];
          prev' := 0x00;
        } else if e[0] != 0 && e[0] != 0xE5 && e[0] != 0x20 {
          var filename := BuildShortName(e);
          files := files + [Named(filename, e)];
        }
      }
      e := EntryIn(direntry', i);
      if e[0] != 0 && e[0] != 0xE5 && e[0] != 0x20 {
        prev' := e[11];
      }
    }

    /** One round of the entry loop: what is left of the cluster still leads to `all`. */
    method NextSlot(v: Volume, c: nat, k: nat, i: nat, prev: Byte, direntry: Sector, ghost loop: Loop, ghost end: nat,
                    ghost steps: nat, ghost all: Option<Scan>) returns (prev': Byte, direntry': Sector)
      requires IsScan(loop, v, c, end, steps)
      requires i < DIRENT_PER_SECTOR && DIRENT_PER_SECTOR * k + i < end && (i == 0 ==> direntry == Loaded(v, c, k))
      requires Leads(loop, DIRENT_PER_SECTOR * k + i, Scan(files, prev, direntry), all)
      modifies this
      ensures Leads(loop, DIRENT_PER_SECTOR * k + (i + 1), Scan(files, prev', direntry'), all)
    {
      LeadsOverSlot(loop, v, c, k, i, end, Scan(files, prev, direntry), steps, all);
      prev', direntry' := ListSlot(v, c, k, i, prev, direntry, steps);
    }

    /** The entry loop over one sector. */
    method ListSector(v: Volume, c: nat, k: nat, prev: Byte, direntry: Sector, ghost steps: nat)
        returns (prev': Byte, direntry': Sector)
      requires direntry == Loaded(v, c, k) && SectorScanned(v, c, k, Scan(files, prev, direntry), steps).Some?
      modifies this
      ensures SectorScanned(v, c, k, Scan(old(files), prev, direntry), steps) == Some(Scan(files, prev', direntry'))
    {
      ghost var end, all := DIRENT_PER_SECTOR * (k + 1), SectorScanned(v, c, k, Scan(files, prev, direntry), steps);
      ghost var loop := NamedScan(v, c, end, steps);
      prev', direntry' := prev, direntry;
      var i := 0;
      while i < DIRENT_PER_SECTOR
        invariant 0 <= i <= DIRENT_PER_SECTOR
        invariant Leads(loop, DIRENT_PER_SECTOR * k + i, Scan(files, prev', direntry'), all)
        invariant i == 0 ==> direntry' == Loaded(v, c, k)
      {
        prev', direntry' := NextSlot(v, c, k, i, prev', direntry', loop, end, steps, all);
        i := i + 1;
      }
      assert Scanned(v, c, end, end, Scan(files, prev', direntry'), steps) == all;
    }

    /** The sector loop over one cluster. */
    method ListCluster(v: Volume, c: nat, ghost steps: nat)
      requires ClusterScanned(v, c, files, steps).Some?
      modifies this
      ensures ClusterScanned(v, c, old(files), steps).value.files == files
    {
      ghost var end := DIRENT_PER_SECTOR * v.sectorsPerCluster;
      ghost var all := ClusterScanned(v, c, files, steps);
      ghost var loop := NamedScan(v, c, end, steps);
      var k, prev, direntry := 0, 0x00, Loaded(v, c, 0);
      while k < v.sectorsPerCluster
        invariant 0 <= k <= v.sectorsPerCluster
        invariant Leads(loop, DIRENT_PER_SECTOR * k, Scan(files, prev, direntry), all)
      {
        LeadsOverSector(loop, v, c, k, end, Scan(files, prev, direntry), steps, all);
        direntry := Loaded(v, c, k);
        prev, direntry := ListSector(v, c, k, prev, direntry, steps);
        k := k + 1;
      }
      assert Scanned(v, c, end, end, Scan(files, prev, direntry), steps) == all;
    }

    /** fat32_rd_cluster: this cluster, then the rest of its chain. */
    method RdCluster(v: Volume, c: nat, ghost chain: seq<nat>, ghost steps: nat) returns (status: nat)
      requires IsChain(v, chain) && chain[0] == c && ChainScanned(v, chain, files, steps).Some?
      modifies this
      ensures ChainScanned(v, chain, old(files), steps) == Some(files)
      ensures status == if IsErrorCode(v.link(c)) then v.link(c) else 1
      decreases |chain|
    {
      ChainStep(v, chain);
      ListCluster(v, c, steps);
      var next := v.link(c);
      if IsErrorCode(next) {
        return next;
      }
      if next != 0 {
        var _ := RdCluster(v, next, chain[1..], steps);
      }
      status := 1;
    }
  }
}
