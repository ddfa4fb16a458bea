/** Long names that are split between two clusters of a chain, and a volume on which they are lost. */
module FatSplit {
  import opened Options
  import opened Disks
  import opened Numerals
  import opened Names
  import opened Words
  import opened Fat32
  import opened FatDir
  import opened FatListing

  /** The parts `before` end cluster `p` and `here` begins its successor `c`, where the entry `e` follows. */
  ghost predicate Split(v: Volume, p: nat, c: nat, before: seq<DirEntry>, here: seq<DirEntry>, e: DirEntry) {
    && v.link(p) == c && LeadsOn(v, p) && v.sectorsPerCluster > 0
    && before != [] && ItemOk(Item(before + here, e))
    && Holds(v, p, DIRENT_PER_SECTOR * v.sectorsPerCluster - |before|, before)
    && Holds(v, c, 0, here) && EntryNumber(v, c, |here|) == e
  }

  /** If the scan of the cluster ends, the first file it adds is `f`. */
  ghost predicate AddsFirst(v: Volume, c: nat, files: seq<File>, steps: nat, f: File) {
    ClusterScanned(v, c, files, steps).Some? ==>
      files + [f] <= ClusterScanned(v, c, files, steps).value.files
  }

  lemma SlotGrows(v: Volume, c: nat, k: nat, i: nat, s: Scan, steps: nat)
    requires i < DIRENT_PER_SECTOR && Slot(v, c, k, i, s, steps).Some?
    ensures s.files <= Slot(v, c, k, i, s, steps).value.files
  {}

  lemma StepGrows(loop: Loop, v: Volume, c: nat, g: nat, end: nat, s: Scan, steps: nat) returns (s1: Scan)
    requires IsScan(loop, v, c, end, steps) && g < end && loop(g, s).Some?
    ensures loop(g, s) == loop(g + 1, s1) && s.files <= s1.files
  {
    assert Scanned(v, c, g, end, s, steps).Some?;
    var k, i := g / DIRENT_PER_SECTOR, g % DIRENT_PER_SECTOR;
    s1 := Slot(v, c, k, i, AtSlot(v, c, g, s), steps).value;
    SlotGrows(v, c, k, i, AtSlot(v, c, g, s), steps);
    ScannedSlot(v, c, g, end, s, s1, steps);
  }

  /** The list only grows. */
  lemma {:induction false} ScanGrows(loop: Loop, v: Volume, c: nat, g: nat, end: nat, s: Scan, steps: nat)
    requires IsScan(loop, v, c, end, steps) && loop(g, s).Some?
    ensures s.files <= loop(g, s).value.files
    decreases end - g
  {
    if g < end {
      var s1 := StepGrows(loop, v, c, g, end, s, steps);
      ScanGrows(loop, v, c, g + 1, end, s1, steps);
    } else {
      assert Scanned(v, c, g, end, s, steps) == Some(s);
    }
  }

  /** Parts at the start of the cluster, then an entry for which the search finds `name`. */
  lemma FirstIsLong(v: Volume, c: nat, here: seq<DirEntry>, e: DirEntry, name: string, files: seq<File>, steps: nat)
    requires v.sectorsPerCluster > 0 && 0 < |here| < DIRENT_PER_SECTOR && LongParts(here) && Holds(v, c, 0, here)
    requires EntryNumber(v, c, |here|) == e && Attrib(e) != LONG_ATTRIB && Attrib(e) != VOLUME_ATTRIB
    requires Finds(v, c, 0, |here|, name, 0, steps)
    ensures AddsFirst(v, c, files, steps, Named(Visible(name), e))
  {
    var end := DIRENT_PER_SECTOR * v.sectorsPerCluster;
    var loop := NamedScan(v, c, end, steps);
    var s := Scan(files, 0, Loaded(v, c, 0));
    var s' := LongScanned(loop, v, c, here, e, name, s, end, steps);
    ComesToEnd(loop, v, c, s, |here| + 1, s', end, steps);
  }

  lemma LongScanned(loop: Loop, v: Volume, c: nat, here: seq<DirEntry>, e: DirEntry, name: string, s: Scan, end: nat,
                    steps: nat)
      returns (s': Scan)
    requires IsScan(loop, v, c, end, steps) && 0 < |here| < DIRENT_PER_SECTOR && |here| < end
    requires LongParts(here) && Holds(v, c, 0, here) && EntryNumber(v, c, |here|) == e
    requires Attrib(e) != LONG_ATTRIB && Attrib(e) != VOLUME_ATTRIB && Finds(v, c, 0, |here|, name, 0, steps)
    ensures ComesTo(loop, v, c, 0, s, |here| + 1, s')
    ensures s'.files == s.files + [Named(Visible(name), e)] && s'.prev != LONG_ATTRIB
  {
    var s1 := RunScanned(loop, v, c, 0, here, s, end, steps);
    s' := LongEntryScanned(loop, v, c, |here|, e, name, s1, end, steps);
  }

  lemma ComesToEnd(loop: Loop, v: Volume, c: nat, s: Scan, g: nat, s': Scan, end: nat, steps: nat)
    requires IsScan(loop, v, c, end, steps) && ComesTo(loop, v, c, 0, s, g, s')
    ensures Scanned(v, c, 0, end, s, steps).Some? ==>
              s'.files <= Scanned(v, c, 0, end, s, steps).value.files
  {
    assert Scanned(v, c, 0, end, s, steps) == loop(g, s');
    if loop(g, s').Some? {
      ScanGrows(loop, v, c, g, end, s', steps);
    }
  }

  lemma NeighboursAreFound(v: Volume, p: nat, before: seq<DirEntry>, here: seq<DirEntry>, steps: nat)
    requires LongRun(before + here) && Holds(v, p + 1, 0, here) && steps >= 3 * DIRENT_PER_SECTOR
    requires Holds(v, p, DIRENT_PER_SECTOR * v.sectorsPerCluster - |before|, before)
    requires |before| <= DIRENT_PER_SECTOR && 0 < |here| < DIRENT_PER_SECTOR
    ensures Finds(v, p + 1, 0, |here|, RunName(before + here), 0, steps)
  {
    EndIsInFront(v, p, before);
    HoldsBoth(v, p + 1, -|before|, before, here);
    assert -|before| == |here| - |before + here|;
    FoundLongName(v, p + 1, 0, |here|, before + here, steps);
  }

  /** Between neighbours on the disk a split name is listed. */
  lemma NeighboursAreListed(v: Volume, p: nat, before: seq<DirEntry>, here: seq<DirEntry>, e: DirEntry,
                            files: seq<File>, steps: nat)
    requires Split(v, p, p + 1, before, here, e) && steps >= 3 * DIRENT_PER_SECTOR
    requires |before| <= DIRENT_PER_SECTOR && 0 < |here| < DIRENT_PER_SECTOR
    ensures AddsFirst(v, p + 1, files, steps, Named(Visible(RunName(before + here)), e))
  {
    LongPartsOf(before, here);
    NeighboursAreFound(v, p, before, here, steps);
    FirstIsLong(v, p + 1, here, e, RunName(before + here), files, steps);
  }

  // ---------- names of one letter ----------

  predicate Only(s: string, ch: char) {
    forall x :: x in s ==> x == ch
  }

  lemma {:induction false} VisibleText(s: string)
    requires '\0' !in s
    ensures Visible(s) == s
  {}

  lemma {:induction false} OnlyEscaped(s: string, ch: char)
    requires Only(s, ch) && ch != ' '
    ensures Escape(s) == s
  {
    if s != "" {
      assert s[0] in s && forall x :: x in s[1..] ==> x in s;
      OnlyEscaped(s[1..], ch);
      assert s == [s[0]] + s[1..];
    }
  }

  /** Every part holds the letter only. */
  ghost predicate PartsOf(run: seq<DirEntry>, ch: char) {
    forall j :: 0 <= j < |run| ==> Only(Part(run[j]), ch)
  }

  lemma {:induction false} OnlyRunName(run: seq<DirEntry>, ch: char)
    requires PartsOf(run, ch) && ch != ' '
    ensures Only(RunName(run), ch) && |RunName(run)| == 13 * |run|
  {
    if run != [] {
      assert PartsOf(run[1..], ch) by {
        forall j | 0 <= j < |run| - 1 ensures Only(Part(run[1..][j]), ch) { assert run[1..][j] == run[j + 1]; }
      }
      OnlyRunName(run[1..], ch);
      OnlyEscaped(Part(run[0]), ch);
      OnlyConcat(RunName(run[1..]), Part(run[0]), ch);
    }
  }

  lemma OnlyConcat(a: string, b: string, ch: char)
    requires Only(a, ch) && Only(b, ch)
    ensures Only(a + b, ch)
  {}

  lemma {:induction false} PackedLength(s: seq<Byte>)
    ensures |Packed(s)| <= |s|
  {
    if s != [] {
      PackedLength(s[..|s| - 1]);
    }
  }

  lemma ShortNameLength(e: DirEntry)
    ensures |ShortName(e)| <= 12
  {
    PackedLength(e[..8]);
    PackedLength(e[8..11]);
  }

  // ---------- a volume with a split name ----------

  function BytesOf(f: nat -> Byte): DirEntry {
    seq(32, x requires 0 <= x => f(x))
  }

  /** A part of a long name, all of whose characters are `ch`. */
  function PartEntry(flag: bool, ch: Byte): DirEntry {
    BytesOf((x: nat) => PartByte(flag, ch, x))
  }

  function PartByte(flag: bool, ch: Byte, x: nat): Byte {
    if x == 0 then (if flag then 0x41 else 0x01) else if x == 11 then LONG_ATTRIB else ch
  }

  function FileEntry(): DirEntry {
    BytesOf((x: nat) => if x == 11 then 0x20 else 0x43)
  }

  function FreeEntry(): DirEntry {
    BytesOf((x: nat) => 0)
  }

  lemma PartEntryIs(flag: bool, ch: Byte)
    ensures var e := PartEntry(flag, ch);
            InUse(e) && Attrib(e) == LONG_ATTRIB && (Flagged(e) <==> flag) && Only(Part(e), ch as char)
  {
    var e := PartEntry(flag, ch);
    assert Bit(0x41, 0x40) && !Bit(0x01, 0x40);
  }

  function SectorFrom(f: nat -> DirEntry): Sector {
    seq(SECTOR, x requires 0 <= x => f(x / 32)[x % 32])
  }

  lemma SectorFromAt(f: nat -> DirEntry, i: nat)
    requires i < DIRENT_PER_SECTOR
    ensures EntryIn(SectorFrom(f), i) == f(i)
  {
    forall x | 0 <= x < 32 ensures EntryIn(SectorFrom(f), i)[x] == f(i)[x] {
      assert (32 * i + x) / 32 == i && (32 * i + x) % 32 == x;
    }
  }

  lemma EntryFrom(v: Volume, c: nat, f: nat -> DirEntry, j: nat)
    requires Loaded(v, c, 0) == SectorFrom(f) && j < DIRENT_PER_SECTOR
    ensures EntryNumber(v, c, j) == f(j)
  {
    SectorFromAt(f, j);
    assert j / DIRENT_PER_SECTOR == 0 && j % DIRENT_PER_SECTOR == j;
  }

  /** Entry `j` of a sector whose last `m` entries are the beginning of a name. */
  function EndingEntry(m: nat, j: nat): DirEntry {
    if j + m < DIRENT_PER_SECTOR then FreeEntry() else PartEntry(j + m == DIRENT_PER_SECTOR, 0x41)
  }

  /** Entry `j` of a sector whose first `n` entries are the end of that name, and a file follows. */
  function BeginningEntry(n: nat, j: nat): DirEntry {
    if j < n then PartEntry(false, 0x41) else if j == n then FileEntry() else FreeEntry()
  }

  /** Clusters of one sector, `p` followed by `c`; all other sectors are full of other names. */
  function SplitSector(p: nat, c: nat, m: nat, n: nat, s: nat): Sector {
    if s + 2 == p then SectorFrom((j: nat) => EndingEntry(m, j))
    else if s + 2 == c then SectorFrom((j: nat) => BeginningEntry(n, j))
    else SectorFrom((j: nat) => PartEntry(true, 0x42))
  }

  function SplitVolume(p: nat, c: nat, m: nat, n: nat): Volume {
    Volume((s: nat) => SplitSector(p, c, m, n, s), (x: nat) => if x == p then c else 0, 1, 0)
  }

  function Beginning(m: nat): (r: seq<DirEntry>)
    ensures |r| == m && forall j :: 0 <= j < m ==> r[j] == PartEntry(j == 0, 0x41)
  {
    seq<DirEntry>(m, j => PartEntry(j == 0, 0x41))
  }

  function End(n: nat): (r: seq<DirEntry>)
    ensures |r| == n && forall j :: 0 <= j < n ==> r[j] == PartEntry(false, 0x41)
  {
    seq<DirEntry>(n, _ => PartEntry(false, 0x41))
  }

  lemma NameIsLong(m: nat, n: nat)
    requires m > 0
    ensures LongRun(Beginning(m) + End(n)) && PartsOf(Beginning(m) + End(n), 'A') && LongParts(End(n))
    ensures PartsOf(End(n), 'A')
  {
    PartEntryIs(true, 0x41);
    PartEntryIs(false, 0x41);
  }

  lemma LoadedIs(p: nat, c: nat, m: nat, n: nat, x: nat, k: int)
    requires x < WORD && 0 <= x - 2 + k
    ensures x - 2 + k < WORD ==> Loaded(SplitVolume(p, c, m, n), x, k) == SplitSector(p, c, m, n, x - 2 + k)
  {}

  lemma EndingIs(p: nat, c: nat, m: nat, n: nat, j: nat)
    requires IsCluster(p) && j < DIRENT_PER_SECTOR
    ensures EntryNumber(SplitVolume(p, c, m, n), p, j) == EndingEntry(m, j)
  {
    LoadedIs(p, c, m, n, p, 0);
    EntryFrom(SplitVolume(p, c, m, n), p, (j: nat) => EndingEntry(m, j), j);
  }

  lemma EndingHeld(p: nat, c: nat, m: nat, n: nat)
    requires IsCluster(p) && m <= DIRENT_PER_SECTOR
    ensures Holds(SplitVolume(p, c, m, n), p, DIRENT_PER_SECTOR - m, Beginning(m))
  {
    var v := SplitVolume(p, c, m, n);
    forall j | 0 <= j < m ensures EntryNumber(v, p, DIRENT_PER_SECTOR - m + j) == Beginning(m)[j] {
      var g := DIRENT_PER_SECTOR - m + j;
      EndingIs(p, c, m, n, g);
      assert EndingEntry(m, g) == PartEntry(j == 0, 0x41);
    }
  }

  lemma BeginningHeld(p: nat, c: nat, m: nat, n: nat, j: nat)
    requires IsCluster(c) && p != c && j < DIRENT_PER_SECTOR
    ensures EntryNumber(SplitVolume(p, c, m, n), c, j) == BeginningEntry(n, j)
  {
    LoadedIs(p, c, m, n, c, 0);
    EntryFrom(SplitVolume(p, c, m, n), c, (j: nat) => BeginningEntry(n, j), j);
  }

  lemma SplitVolumeIsSplit(p: nat, c: nat, m: nat, n: nat)
    requires IsCluster(p) && IsCluster(c) && p != c && 0 < m <= DIRENT_PER_SECTOR && n < DIRENT_PER_SECTOR
    ensures Split(SplitVolume(p, c, m, n), p, c, Beginning(m), End(n), FileEntry())
  {
    var v := SplitVolume(p, c, m, n);
    NameIsLong(m, n);
    EndingHeld(p, c, m, n);
    EndHeld(p, c, m, n);
  }

  // ---------- what becomes of the name ----------

  /** Whatever stands in front of `c` on the disk is taken for the beginning of the name. */
  lemma FoundInFront(v: Volume, c: nat, before: seq<DirEntry>, here: seq<DirEntry>, steps: nat)
    requires before != [] && LongRun(before + here) && |before| + |here| <= steps
    requires 0 < |here| < DIRENT_PER_SECTOR && Holds(v, c, 0, here)
    requires InFront(Loaded(v, c, -1), DIRENT_PER_SECTOR, before)
    ensures Finds(v, c, 0, |here|, RunName(before + here), 0, steps)
  {
    HeldInFront(v, c, |here|, here, 0, |here|);
    CollectAcross(v, c, Loaded(v, c, 0), 0, false, steps, before, here);
  }

  lemma OtherNameIsLong(n: nat)
    ensures LongRun([PartEntry(true, 0x42)] + End(n))
  {
    PartEntryIs(true, 0x42);
    PartEntryIs(false, 0x41);
  }

  lemma EndHeld(p: nat, c: nat, m: nat, n: nat)
    requires IsCluster(c) && p != c && n < DIRENT_PER_SECTOR
    ensures Holds(SplitVolume(p, c, m, n), c, 0, End(n)) && EntryNumber(SplitVolume(p, c, m, n), c, n) == FileEntry()
  {
    forall j | 0 <= j < n ensures EntryNumber(SplitVolume(p, c, m, n), c, 0 + j) == End(n)[j] {
      BeginningHeld(p, c, m, n, j);
    }
    BeginningHeld(p, c, m, n, n);
  }

  lemma ForeignIsFound(p: nat, c: nat, m: nat, n: nat, steps: nat)
    requires IsCluster(p) && IsCluster(c) && p != c && c != p + 1 && 0 < n < DIRENT_PER_SECTOR < steps
    ensures Finds(SplitVolume(p, c, m, n), c, 0, n, RunName([PartEntry(true, 0x42)] + End(n)), 0, steps)
  {
    OtherNameIsLong(n);
    EndHeld(p, c, m, n);
    ForeignIsInFront(p, c, m, n);
    FoundInFront(SplitVolume(p, c, m, n), c, [PartEntry(true, 0x42)], End(n), steps);
  }

  lemma ForeignIsInFront(p: nat, c: nat, m: nat, n: nat)
    requires IsCluster(p) && IsCluster(c) && p != c && c != p + 1
    ensures InFront(Loaded(SplitVolume(p, c, m, n), c, -1), DIRENT_PER_SECTOR, [PartEntry(true, 0x42)])
  {
    var v := SplitVolume(p, c, m, n);
    assert SectorOf(v, c, -1) == if c == 2 then WORD - 1 else c - 3;
    SectorFromAt((j: nat) => PartEntry(true, 0x42), DIRENT_PER_SECTOR - 1);
  }

  lemma OtherLetterShows(right: string, here: string, other: string)
    requires Only(right, 'A') && Only(here, 'A') && Only(other, 'B') && other != ""
    ensures Visible(here + other) != Visible(right)
  {
    var wrong := here + other;
    assert other[0] in other && wrong[|here|] == other[0];
    VisibleText(right);
    VisibleText(wrong);
    assert wrong[|here|] in wrong;
  }

  lemma PartsOfOther()
    ensures PartsOf([PartEntry(true, 0x42)], 'B')
  {
    PartEntryIs(true, 0x42);
  }

  lemma NamesDiffer(m: nat, n: nat)
    requires m > 0
    ensures Visible(RunName([PartEntry(true, 0x42)] + End(n))) != Visible(RunName(Beginning(m) + End(n)))
  {
    var other := [PartEntry(true, 0x42)];
    NameIsLong(m, n);
    PartsOfOther();
    OnlyRunName(Beginning(m) + End(n), 'A');
    OnlyRunName(End(n), 'A');
    OnlyRunName(other, 'B');
    BackwardsConcat(EscapedPart, other, End(n));
    OtherLetterShows(RunName(Beginning(m) + End(n)), RunName(End(n)), RunName(other));
  }

  lemma ShortNameDiffers(m: nat)
    requires m > 0
    ensures ShortName(FileEntry()) != Visible(RunName(Beginning(m) + End(0)))
  {
    NameIsLong(m, 0);
    OnlyRunName(Beginning(m) + End(0), 'A');
    VisibleText(RunName(Beginning(m) + End(0)));
    ShortNameLength(FileEntry());
  }

  /** On this volume the file is not listed by its long name, unless both clusters are neighbours and the second
      one holds a part of it. */
  lemma NameIsLost(p: nat, c: nat, m: nat, n: nat, files: seq<File>, steps: nat)
    requires IsCluster(p) && IsCluster(c) && p != c && 0 < m <= DIRENT_PER_SECTOR && n < DIRENT_PER_SECTOR < steps
    requires n == 0 || c != p + 1
    ensures !AddsFirst(SplitVolume(p, c, m, n), c, files, steps,
                       Named(Visible(RunName(Beginning(m) + End(n))), FileEntry()))
  {
    var v, wanted := SplitVolume(p, c, m, n), Named(Visible(RunName(Beginning(m) + End(n))), FileEntry());
    var r: Scan, name: CString;
    if n == 0 {
      name := ShortName(FileEntry());
      ShortNameDiffers(m);
    } else {
      name := Visible(RunName([PartEntry(true, 0x42)] + End(n)));
      NamesDiffer(m, n);
    }
    r := ListsAs(p, c, m, n, name, files, steps);
    assert r.files[|files|] == Named(name, FileEntry());
  }

  /** The scan of the file behind the parts. */
  lemma FileScanned(loop: Loop, p: nat, c: nat, m: nat, n: nat, s: Scan, steps: nat) returns (s': Scan)
    requires IsCluster(p) && IsCluster(c) && p != c && c != p + 1 && 0 < m <= DIRENT_PER_SECTOR
    requires 0 < n < DIRENT_PER_SECTOR < steps && IsScan(loop, SplitVolume(p, c, m, n), c, DIRENT_PER_SECTOR, steps)
    ensures ComesTo(loop, SplitVolume(p, c, m, n), c, 0, s, n + 1, s') && s'.prev != LONG_ATTRIB
    ensures s'.files == s.files + [Named(Visible(RunName([PartEntry(true, 0x42)] + End(n))), FileEntry())]
  {
    var v := SplitVolume(p, c, m, n);
    EndHeld(p, c, m, n);
    NameIsLong(m, n);
    ForeignIsFound(p, c, m, n, steps);
    s' := LongScanned(loop, v, c, End(n), FileEntry(), RunName([PartEntry(true, 0x42)] + End(n)), s,
                      DIRENT_PER_SECTOR, steps);
  }

  lemma FileItem()
    ensures ItemOk(Item([], FileEntry()))
    ensures FilesOf(Item([], FileEntry())) == [Named(ShortName(FileEntry()), FileEntry())]
  {}

  lemma FirstFileScanned(list: Listed, loop: Loop, p: nat, c: nat, m: nat, s: Scan, steps: nat) returns (s': Scan)
    requires IsCluster(p) && IsCluster(c) && p != c && s.prev != LONG_ATTRIB
    requires IsLoop(list, loop, SplitVolume(p, c, m, 0), c, DIRENT_PER_SECTOR, steps)
    ensures ComesTo(loop, SplitVolume(p, c, m, 0), c, 0, s, 1, s') && s'.prev != LONG_ATTRIB
    ensures s'.files == s.files + list(Item([], FileEntry()))
  {
    EndHeld(p, c, m, 0);
    FileItem();
    s' := EntryScanned(list, loop, SplitVolume(p, c, m, 0), c, 0, Item([], FileEntry()), s, DIRENT_PER_SECTOR, steps);
  }

  lemma ScanEnds(loop: Loop, p: nat, c: nat, m: nat, n: nat, s: Scan, s1: Scan, steps: nat) returns (r: Scan)
    requires IsCluster(c) && p != c && n < DIRENT_PER_SECTOR && s1.prev != LONG_ATTRIB
    requires IsScan(loop, SplitVolume(p, c, m, n), c, DIRENT_PER_SECTOR, steps)
    requires ComesTo(loop, SplitVolume(p, c, m, n), c, 0, s, n + 1, s1)
    ensures Scanned(SplitVolume(p, c, m, n), c, 0, DIRENT_PER_SECTOR, s, steps) == Some(r) && r.files == s1.files
  {
    var v := SplitVolume(p, c, m, n);
    r := FreeScanned(loop, p, c, m, n, n + 1, s1, steps);
    assert Scanned(v, c, DIRENT_PER_SECTOR, DIRENT_PER_SECTOR, r, steps) == Some(r);
    assert Scanned(v, c, 0, DIRENT_PER_SECTOR, s, steps) == Some(r);
  }

  /** What the cluster adds first, and that its scan ends. */
  lemma ListsAs(p: nat, c: nat, m: nat, n: nat, name: CString, files: seq<File>, steps: nat) returns (r: Scan)
    requires IsCluster(p) && IsCluster(c) && p != c && 0 < m <= DIRENT_PER_SECTOR && n < DIRENT_PER_SECTOR < steps
    requires if n == 0 then name == ShortName(FileEntry())
             else c != p + 1 && name == Visible(RunName([PartEntry(true, 0x42)] + End(n)))
    ensures ClusterScanned(SplitVolume(p, c, m, n), c, files, steps) == Some(r)
    ensures files + [Named(name, FileEntry())] == r.files
  {
    var s := Scan(files, 0, Loaded(SplitVolume(p, c, m, n), c, 0));
    var s1: Scan;
    var loop := NamedScan(SplitVolume(p, c, m, n), c, DIRENT_PER_SECTOR, steps);
    if n == 0 {
      FileItem();
      s1 := FirstFileScanned(FilesOf, loop, p, c, m, s, steps);
    } else {
      s1 := FileScanned(loop, p, c, m, n, s, steps);
    }
    r := ScanEnds(loop, p, c, m, n, s, s1, steps);
  }

  /** Behind the file there are free entries only. */
  lemma {:induction false} FreeScanned(loop: Loop, p: nat, c: nat, m: nat, n: nat, g: nat, s: Scan, steps: nat)
      returns (r: Scan)
    requires IsCluster(c) && p != c && n < g <= DIRENT_PER_SECTOR && s.prev != LONG_ATTRIB
    requires IsScan(loop, SplitVolume(p, c, m, n), c, DIRENT_PER_SECTOR, steps)
    requires BufferOk(SplitVolume(p, c, m, n), c, g, s)
    ensures loop(g, s) == loop(DIRENT_PER_SECTOR, r) && r.files == s.files
    decreases DIRENT_PER_SECTOR - g
  {
    r := s;
    if g < DIRENT_PER_SECTOR {
      BeginningHeld(p, c, m, n, g);
      var s1 := EntryScanned(FilesOf, loop, SplitVolume(p, c, m, n), c, g, Item([], FreeEntry()), s,
                             DIRENT_PER_SECTOR, steps);
      r := FreeScanned(loop, p, c, m, n, g + 1, s1, steps);
    }
  }

  /** A name with `m` parts at the end of cluster `p` and `n` at the start of the next cluster `c` of the chain is
      listed on every volume if and only if `n` is not zero and the clusters are neighbours on the disk. */
  lemma SplitNamesAreListed(p: nat, c: nat, m: nat, n: nat, files: seq<File>, steps: nat)
    requires IsCluster(p) && IsCluster(c) && p != c && steps >= 3 * DIRENT_PER_SECTOR
    requires 0 < m <= DIRENT_PER_SECTOR && n < DIRENT_PER_SECTOR
    ensures (forall v: Volume, before: seq<DirEntry>, here: seq<DirEntry>, e: DirEntry ::
              |before| == m && |here| == n && Split(v, p, c, before, here, e) ==>
              AddsFirst(v, c, files, steps, Named(Visible(RunName(before + here)), e))) <==>
            n > 0 && c == p + 1
  {
    if n > 0 && c == p + 1 {
      forall v: Volume, before: seq<DirEntry>, here: seq<DirEntry>, e: DirEntry
          | |before| == m && |here| == n && Split(v, p, c, before, here, e)
        ensures AddsFirst(v, c, files, steps, Named(Visible(RunName(before + here)), e))
      {
        NeighboursAreListed(v, p, before, here, e, files, steps);
      }
    } else {
      SplitVolumeIsSplit(p, c, m, n);
      NameIsLost(p, c, m, n, files, steps);
    }
  }

  // ---------- a run out of reach ----------

  /** A name of 17 parts in front of the file in entry 32. */
  function FarEntry(g: nat): DirEntry {
    if g < 15 || g > 32 then FreeEntry() else if g == 32 then FileEntry() else PartEntry(g == 15, 0x41)
  }

  function FarSector(k: nat): Sector {
    SectorFrom((j: nat) => FarEntry(DIRENT_PER_SECTOR * k + j))
  }

  /** Cluster 2 begins in sector 0. */
  function FarVolume(): Volume {
    Volume((k: nat) => FarSector(k), (x: nat) => 0, 3, 0)
  }

  lemma FarEntryAt(k: nat, j: nat)
    requires k < 3 && j < DIRENT_PER_SECTOR
    ensures EntryNumber(FarVolume(), 2, DIRENT_PER_SECTOR * k + j) == FarEntry(DIRENT_PER_SECTOR * k + j)
    ensures EntryIn(Loaded(FarVolume(), 2, k), j) == FarEntry(DIRENT_PER_SECTOR * k + j)
  {
    SlotNumber(k, j);
    assert SectorOf(FarVolume(), 2, k) == k;
    SectorFromAt((j: nat) => FarEntry(DIRENT_PER_SECTOR * k + j), j);
  }

  lemma FarPart(j: nat)
    requires j < 17
    ensures EntryNumber(FarVolume(), 2, 15 + j) == PartEntry(j == 0, 0x41)
  {
    if j == 0 {
      FarEntryAt(0, 15);
    } else {
      FarEntryAt(1, j - 1);
    }
  }

  lemma FarHeld()
    ensures LongRun(Beginning(17)) && Holds(FarVolume(), 2, 15, Beginning(17))
    ensures EntryNumber(FarVolume(), 2, 32) == FileEntry() == EntryIn(Loaded(FarVolume(), 2, 2), 0)
  {
    NameIsLong(17, 0);
    assert Beginning(17) + End(0) == Beginning(17);
    forall j | 0 <= j < 17 ensures EntryNumber(FarVolume(), 2, 15 + j) == Beginning(17)[j] { FarPart(j); }
    FarEntryAt(2, 0);
  }

  /** Here the first sector of the name is read twice, and the name found is another one. */
  lemma RunOutOfReach()
    ensures var v, run := FarVolume(), Beginning(17);
            && LongRun(run) && Holds(v, 2, 15, run) && EntryNumber(v, 2, 32) == FileEntry()
            && !Finds(v, 2, 2, 0, RunName(run), 2, 3 * DIRENT_PER_SECTOR)
            && Finds(v, 2, 2, 0, RunName(FullSector(0, run)) + RunName(run), 2, 3 * DIRENT_PER_SECTOR)
  {
    var v, run := FarVolume(), Beginning(17);
    FarHeld();
    OutOfReach(v, 2, run);
  }

  lemma OutOfReach(v: Volume, c: nat, run: seq<DirEntry>)
    requires |run| == 17 && LongRun(run) && Holds(v, c, 15, run)
    requires Attrib(EntryIn(Loaded(v, c, 2), 0)) != LONG_ATTRIB
    ensures !Finds(v, c, 2, 0, RunName(run), 2, 3 * DIRENT_PER_SECTOR)
    ensures Finds(v, c, 2, 0, RunName(FullSector(0, run)) + RunName(run), 2, 3 * DIRENT_PER_SECTOR)
  {
    FoundLongName(v, c, 2, 0, run, 3 * DIRENT_PER_SECTOR);
    LongNamesInReachAreFound(v, c, 2, 0, run, 3 * DIRENT_PER_SECTOR);
  }
}
