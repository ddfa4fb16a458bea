/** What the FAT32 directory reader lists, said in terms of directory items: files with short or long names. */
module FatListing {
  import opened Options
  import opened Sequences
  import opened Disks
  import opened Numerals
  import opened Names
  import opened Fat32
  import opened FatDir

  // ---------- directory items ----------

  /** The parts of a long name, in the order of the disk, and the entry they belong to. */
  datatype Item = Item(run: seq<DirEntry>, entry: DirEntry)

  /** Parts in use, of which exactly the first one carries the flag. */
  predicate LongRun(run: seq<DirEntry>) {
    forall j :: 0 <= j < |run| ==>
      InUse(run[j]) && Attrib(run[j]) == LONG_ATTRIB && (Flagged(run[j]) <==> j == 0)
  }

  /** Parts of a long name, flagged or not. */
  predicate LongParts(run: seq<DirEntry>) {
    forall j :: 0 <= j < |run| ==> InUse(run[j]) && Attrib(run[j]) == LONG_ATTRIB
  }

  /** An entry that is no part of a long name, or a file with the parts of its name in front of it. */
  predicate ItemOk(it: Item) {
    if it.run == [] then !(InUse(it.entry) && Attrib(it.entry) == LONG_ATTRIB)
    else
      && LongRun(it.run)
      && Attrib(it.entry) != LONG_ATTRIB && Attrib(it.entry) != VOLUME_ATTRIB
  }

  /** The pieces of a sequence one behind the other, from first to last. */
  function Forwards<A, B>(f: A -> seq<B>, xs: seq<A>): seq<B> {
    if xs == [] then [] else f(xs[0]) + Forwards(f, xs[1..])
  }

  /** The same from last to first. */
  function Backwards<A, B>(f: A -> seq<B>, xs: seq<A>): seq<B> {
    if xs == [] then [] else Backwards(f, xs[1..]) + f(xs[0])
  }

  lemma {:induction false} BackwardsConcat<A, B>(f: A -> seq<B>, a: seq<A>, b: seq<A>)
    ensures Backwards(f, a + b) == Backwards(f, b) + Backwards(f, a)
  {
    if a == [] {
      assert a + b == b;
    } else {
      assert (a + b)[1..] == a[1..] + b;
      BackwardsConcat(f, a[1..], b);
    }
  }

  function EscapedPart(e: DirEntry): string {
    Escape(Part(e))
  }

  /** The characters of a long name: the parts from the last entry to the first. */
  function Spelled(run: seq<DirEntry>): string {
    Backwards(Part, run)
  }

  /** The name as the code collects it. */
  function RunName(run: seq<DirEntry>): string {
    Backwards(EscapedPart, run)
  }

  /** What an item is listed as: a file by its long name, an entry in use by its short one. */
  function FilesOf(it: Item): seq<File> {
    if it.run != [] then [Named(Visible(RunName(it.run)), it.entry)]
    else if InUse(it.entry) && Attrib(it.entry) != VOLUME_ATTRIB && Attrib(it.entry) != LONG_ATTRIB
    then [Named(ShortName(it.entry), it.entry)]
    else []
  }

  function AllFiles(items: seq<Item>): seq<File> {
    Forwards(FilesOf, items)
  }

  /** The number of entries. */
  function Size(items: seq<Item>): (n: nat) {
    if items == [] then 0 else |items[0].run| + 1 + Size(items[1..])
  }

  /** Entry number `g` of a cluster; those of negative numbers stand in front of it on the disk. */
  function EntryNumber(v: Volume, c: nat, g: int): DirEntry {
    EntryIn(Loaded(v, c, g / DIRENT_PER_SECTOR), g % DIRENT_PER_SECTOR)
  }

  /** The cluster holds these entries from number `g` on. */
  ghost predicate Holds(v: Volume, c: nat, g: int, entries: seq<DirEntry>) {
    forall j :: 0 <= j < |entries| ==> EntryNumber(v, c, g + j) == entries[j]
  }

  /** The parts in front of slot `i` begin in the same sector or in the one before. */
  predicate InReach(i: nat, run: seq<DirEntry>) {
    |run| <= i + DIRENT_PER_SECTOR
  }

  /** A proper item stands from entry `g` on. */
  ghost predicate ItemAt(v: Volume, c: nat, g: nat, it: Item) {
    && ItemOk(it) && InReach((g + |it.run|) % DIRENT_PER_SECTOR, it.run)
    && Holds(v, c, g, it.run) && EntryNumber(v, c, g + |it.run|) == it.entry
  }

  /** One item behind the other from entry `g` on. */
  ghost predicate ItemsAt(v: Volume, c: nat, g: nat, items: seq<Item>)
    decreases |items|
  {
    items == [] || (ItemAt(v, c, g, items[0]) && ItemsAt(v, c, g + |items[0].run| + 1, items[1..]))
  }

  lemma HoldsParts(v: Volume, c: nat, g: int, a: seq<DirEntry>, b: seq<DirEntry>)
    requires Holds(v, c, g, a + b)
    ensures Holds(v, c, g, a) && Holds(v, c, g + |a|, b)
  {
    forall j | 0 <= j < |a| ensures EntryNumber(v, c, g + j) == a[j] { assert (a + b)[j] == a[j]; }
    forall j | 0 <= j < |b| ensures EntryNumber(v, c, g + |a| + j) == b[j] {
      assert (a + b)[|a| + j] == b[j] && EntryNumber(v, c, g + (|a| + j)) == b[j];
    }
  }

  lemma LongPartsOf(a: seq<DirEntry>, b: seq<DirEntry>)
    requires LongRun(a + b)
    ensures LongParts(b)
  {
    forall j | 0 <= j < |b| ensures InUse(b[j]) && Attrib(b[j]) == LONG_ATTRIB { assert (a + b)[|a| + j] == b[j]; }
  }

  lemma HoldsBoth(v: Volume, c: nat, g: int, a: seq<DirEntry>, b: seq<DirEntry>)
    requires Holds(v, c, g, a) && Holds(v, c, g + |a|, b)
    ensures Holds(v, c, g, a + b)
  {
    forall j | 0 <= j < |a + b| ensures EntryNumber(v, c, g + j) == (a + b)[j] {
      if j >= |a| {
        assert EntryNumber(v, c, (g + |a|) + (j - |a|)) == b[j - |a|];
      }
    }
  }

  // ---------- collecting a long name ----------

  /** The buffer holds the entries in front of slot `i`. */
  ghost predicate InFront(buf: Sector, i: nat, run: seq<DirEntry>) {
    |run| <= i <= DIRENT_PER_SECTOR && forall j :: 0 <= j < |run| ==> EntryIn(buf, i - |run| + j) == run[j]
  }

  type Parts = DirEntry -> string
  type Search = (Sector, int, int, bool, nat) -> Option<Long>

  /** `search` is the search in cluster `c`.  Where only this name is used, the definition behind it stays folded. */
  ghost predicate IsSearch(search: Search, v: Volume, c: nat) {
    forall buf: Sector, i: int, k: int, flag: bool, n: nat {:trigger Generated(v, c, buf, i, k, flag, n)} |
      i <= DIRENT_PER_SECTOR :: search(buf, i, k, flag, n) == Generated(v, c, buf, i, k, flag, n)
  }

  lemma NamedSearch(v: Volume, c: nat) returns (search: Search)
    ensures IsSearch(search, v, c)
  {
    search := (buf: Sector, i: int, k: int, flag: bool, n: nat) =>
      if i <= DIRENT_PER_SECTOR then Generated(v, c, buf, i, k, flag, n) else None;
  }

  /** `part(e)` is what an entry contributes; the inductions use this name and `search` only. */
  ghost predicate Collects(part: Parts, search: Search, v: Volume, c: nat) {
    (forall e {:trigger EscapedPart(e)} :: part(e) == EscapedPart(e)) && IsSearch(search, v, c)
  }

  /** One part without a flag. */
  lemma CollectOne(part: Parts, search: Search, v: Volume, c: nat, buf: Sector, i: nat, k: int, flag: bool, steps: nat,
                   e: DirEntry)
    requires Collects(part, search, v, c)
    requires 0 < i <= DIRENT_PER_SECTOR && steps > 0 && e == EntryIn(buf, i - 1) && !Flagged(e)
    ensures search(buf, i, k, flag, steps) == Prepend(part(e), search(buf, i - 1, k, flag, steps - 1))
  {
    assert Generated(v, c, buf, i, k, flag, steps) ==
           Prepend(EscapedPart(e), Generated(v, c, buf, i - 1, k, flag, steps - 1));
  }

  lemma PrependRun(part: Parts, front: seq<DirEntry>, last: DirEntry, l: Option<Long>)
    ensures Prepend(part(last), Prepend(Backwards(part, front), l)) == Prepend(Backwards(part, front + [last]), l)
  {
    BackwardsConcat(part, front, [last]);
    assert Backwards(part, [last]) == [] + part(last) == part(last);
    PrependTwice(part(last), Backwards(part, front), l);
  }

  lemma InFrontButLast(buf: Sector, i: nat, run: seq<DirEntry>)
    requires InFront(buf, i, run) && run != []
    ensures EntryIn(buf, i - 1) == run[|run| - 1] && InFront(buf, i - 1, run[..|run| - 1])
  {
    var front := run[..|run| - 1];
    assert EntryIn(buf, i - |run| + (|run| - 1)) == run[|run| - 1];
    forall j | 0 <= j < |front| ensures EntryIn(buf, i - 1 - |front| + j) == front[j] {
      assert EntryIn(buf, i - |run| + j) == run[j];
    }
  }

  ghost predicate Unflagged(run: seq<DirEntry>) {
    forall j :: 0 <= j < |run| ==> !Flagged(run[j])
  }

  /** Parts without a flag are collected one by one. */
  lemma {:induction false} CollectOnes(part: Parts, search: Search, v: Volume, c: nat, buf: Sector, i: nat, k: int,
                                       flag: bool, steps: nat, run: seq<DirEntry>)
    requires Collects(part, search, v, c)
    requires InFront(buf, i, run) && |run| < steps && Unflagged(run)
    ensures search(buf, i, k, flag, steps) ==
            Prepend(Backwards(part, run), search(buf, i - |run|, k, flag, steps - |run|))
    decreases |run|
  {
    var l := search(buf, i - |run|, k, flag, steps - |run|);
    if run == [] {
      PrependNothing(l);
    } else {
      var front, last := run[..|run| - 1], run[|run| - 1];
      InFrontButLast(buf, i, run);
      assert run == front + [last];
      CollectOne(part, search, v, c, buf, i, k, flag, steps, last);
      CollectOnes(part, search, v, c, buf, i - 1, k, flag, steps - 1, front);
      PrependRun(part, front, last, l);
    }
  }

  lemma CollectParts(v: Volume, c: nat, buf: Sector, i: nat, k: int, flag: bool, steps: nat, run: seq<DirEntry>)
    requires InFront(buf, i, run) && |run| < steps && Unflagged(run)
    ensures Generated(v, c, buf, i, k, flag, steps) ==
            Prepend(RunName(run), Generated(v, c, buf, i - |run|, k, flag, steps - |run|))
  {
    var search := NamedSearch(v, c);
    CollectOnes(EscapedPart, search, v, c, buf, i, k, flag, steps, run);
  }

  /** A run inside the buffer is collected up to its flag. */
  lemma CollectRun(v: Volume, c: nat, buf: Sector, i: nat, k: int, flag: bool, steps: nat, run: seq<DirEntry>)
    requires InFront(buf, i, run) && run != [] && |run| <= steps && LongRun(run)
    ensures Generated(v, c, buf, i, k, flag, steps) ==
            Some(Long(RunName(run), if flag then Loaded(v, c, k + 1) else buf))
  {
    var first, rest := run[0], run[1..];
    assert InFront(buf, i, rest) by {
      forall j | 0 <= j < |rest| ensures EntryIn(buf, i - |rest| + j) == rest[j] {
        assert EntryIn(buf, i - |run| + (j + 1)) == run[j + 1];
      }
    }
    CollectParts(v, c, buf, i, k, flag, steps, rest);
    assert EntryIn(buf, i - |run| + 0) == first && Flagged(first);
  }

  lemma SplitRun(before: seq<DirEntry>, here: seq<DirEntry>)
    requires before != [] && LongRun(before + here)
    ensures LongRun(before) && Unflagged(here)
  {
    var run := before + here;
    forall j | 0 <= j < |before|
      ensures InUse(before[j]) && Attrib(before[j]) == LONG_ATTRIB && (Flagged(before[j]) <==> j == 0)
    {
      assert run[j] == before[j];
    }
    forall j | 0 <= j < |here| ensures !Flagged(here[j]) { assert run[|before| + j] == here[j]; }
  }

  /** Parts at the start of the buffer: the search goes on at the end of the sector before. */
  lemma CollectAndCross(v: Volume, c: nat, buf: Sector, k: int, flag: bool, steps: nat, here: seq<DirEntry>)
    requires InFront(buf, |here|, here) && |here| < steps && Unflagged(here)
    ensures Generated(v, c, buf, |here|, k, flag, steps) ==
            Prepend(RunName(here), Generated(v, c, Loaded(v, c, k - 1), DIRENT_PER_SECTOR, k - 1, true, steps - |here|))
  {
    CollectParts(v, c, buf, |here|, k, flag, steps, here);
  }

  /** What is found behind the crossing goes behind the parts in front of it. */
  lemma CollectBeyond(v: Volume, c: nat, buf: Sector, k: int, flag: bool, steps: nat, before: seq<DirEntry>,
                      here: seq<DirEntry>, last: Sector)
    requires InFront(buf, |here|, here) && |here| < steps && Unflagged(here)
    requires Generated(v, c, Loaded(v, c, k - 1), DIRENT_PER_SECTOR, k - 1, true, steps - |here|) ==
             Some(Long(RunName(before), last))
    ensures Generated(v, c, buf, |here|, k, flag, steps) == Some(Long(RunName(before + here), last))
  {
    CollectAndCross(v, c, buf, k, flag, steps, here);
    BackwardsConcat(EscapedPart, before, here);
  }

  /** A run that begins in the sector before: the search crosses over once and comes back. */
  lemma CollectAcross(v: Volume, c: nat, buf: Sector, k: int, flag: bool, steps: nat, before: seq<DirEntry>,
                      here: seq<DirEntry>)
    requires before != [] && |before| + |here| <= steps && LongRun(before + here)
    requires InFront(buf, |here|, here) && InFront(Loaded(v, c, k - 1), DIRENT_PER_SECTOR, before)
    ensures Generated(v, c, buf, |here|, k, flag, steps) == Some(Long(RunName(before + here), Loaded(v, c, k)))
  {
    SplitRun(before, here);
    CollectRun(v, c, Loaded(v, c, k - 1), DIRENT_PER_SECTOR, k - 1, true, steps - |here|, before);
    CollectBeyond(v, c, buf, k, flag, steps, before, here, Loaded(v, c, k));
  }

  /** A run that fills the sector before and begins in front of it: the search comes back one sector too early. */
  lemma CollectAcrossTwice(v: Volume, c: nat, buf: Sector, k: int, flag: bool, steps: nat, before: seq<DirEntry>,
                           full: seq<DirEntry>, here: seq<DirEntry>)
    requires before != [] && |full| == DIRENT_PER_SECTOR && |before| + |full| + |here| <= steps
    requires LongRun(before + full + here) && InFront(buf, |here|, here)
    requires InFront(Loaded(v, c, k - 1), DIRENT_PER_SECTOR, full)
    requires InFront(Loaded(v, c, k - 2), DIRENT_PER_SECTOR, before)
    ensures Generated(v, c, buf, |here|, k, flag, steps) ==
            Some(Long(RunName(before + full + here), Loaded(v, c, k - 1)))
  {
    SplitRun(before + full, here);
    CollectAcross(v, c, Loaded(v, c, k - 1), k - 1, true, steps - |here|, before, full);
    CollectBeyond(v, c, buf, k, flag, steps, before + full, here, Loaded(v, c, k - 1));
  }

  /** From the first slot of a sector, the search reads a full sector in front of it twice. */
  lemma CollectFullTwice(v: Volume, c: nat, k: int, steps: nat, before: seq<DirEntry>, full: seq<DirEntry>)
    requires before != [] && |full| == DIRENT_PER_SECTOR && |before| + 2 * |full| <= steps && LongRun(before + full)
    requires InFront(Loaded(v, c, k - 1), DIRENT_PER_SECTOR, full)
    requires InFront(Loaded(v, c, k - 2), DIRENT_PER_SECTOR, before)
    ensures Generated(v, c, Loaded(v, c, k - 1), DIRENT_PER_SECTOR, k, false, steps) ==
            Some(Long(RunName(full) + RunName(before + full), Loaded(v, c, k - 1)))
  {
    SplitRun(before, full);
    CollectAndCross(v, c, Loaded(v, c, k - 1), k, false, steps, full);
    CollectAcross(v, c, Loaded(v, c, k - 1), k - 1, true, steps - |full|, before, full);
  }

  /** Entries of a cluster, as slots of the buffer that holds them. */
  lemma HeldInFront(v: Volume, c: nat, g: int, run: seq<DirEntry>, k: int, i: nat)
    requires |run| <= i <= DIRENT_PER_SECTOR && DIRENT_PER_SECTOR * k + i == g
    requires Holds(v, c, g - |run|, run)
    ensures InFront(Loaded(v, c, k), i, run)
  {
    forall j | 0 <= j < |run| ensures EntryIn(Loaded(v, c, k), i - |run| + j) == run[j] {
      SlotNumber(k, i - |run| + j);
      assert g - |run| + j == DIRENT_PER_SECTOR * k + (i - |run| + j);
      assert EntryNumber(v, c, g - |run| + j) == run[j];
    }
  }

  lemma HeldInTwo(v: Volume, c: nat, g: int, a: seq<DirEntry>, b: seq<DirEntry>, k: int, i: nat)
    requires |b| == i <= DIRENT_PER_SECTOR && |a| <= DIRENT_PER_SECTOR && DIRENT_PER_SECTOR * k + i == g
    requires Holds(v, c, g - (|a| + |b|), a + b)
    ensures InFront(Loaded(v, c, k), i, b) && InFront(Loaded(v, c, k - 1), DIRENT_PER_SECTOR, a)
  {
    HoldsParts(v, c, g - (|a| + |b|), a, b);
    HeldInFront(v, c, g, b, k, i);
    HeldInFront(v, c, g - i, a, k - 1, DIRENT_PER_SECTOR);
  }

  lemma HeldInThree(v: Volume, c: nat, g: int, a: seq<DirEntry>, b: seq<DirEntry>, d: seq<DirEntry>, k: int, i: nat)
    requires |d| == i < DIRENT_PER_SECTOR == |b| && |a| <= DIRENT_PER_SECTOR && DIRENT_PER_SECTOR * k + i == g
    requires Holds(v, c, g - (|a| + |b| + |d|), a + b + d)
    ensures InFront(Loaded(v, c, k), i, d) && InFront(Loaded(v, c, k - 1), DIRENT_PER_SECTOR, b)
    ensures InFront(Loaded(v, c, k - 2), DIRENT_PER_SECTOR, a)
  {
    HoldsParts(v, c, g - (|a| + |b| + |d|), a + b, d);
    HeldInFront(v, c, g, d, k, i);
    HeldInTwo(v, c, g - i, a, b, k - 1, DIRENT_PER_SECTOR);
  }

  /** The outcome of the search from slot `i` of sector `k`: the name and the sector it comes back to. */
  ghost predicate Finds(v: Volume, c: nat, k: nat, i: nat, name: string, sector: int, steps: nat) {
    i < DIRENT_PER_SECTOR && LongAt(v, c, k, i, Loaded(v, c, k), steps) == Some(Long(name, Loaded(v, c, sector)))
  }

  /** A run in the same sector or in the whole of the one before. */
  lemma FoundInOne(v: Volume, c: nat, k: nat, i: nat, run: seq<DirEntry>, steps: nat)
    requires 0 < |run| <= steps && LongRun(run) && i < DIRENT_PER_SECTOR && (|run| <= i || i == 0)
    requires |run| <= DIRENT_PER_SECTOR && Holds(v, c, DIRENT_PER_SECTOR * k + i - |run|, run)
    ensures Finds(v, c, k, i, RunName(run), k, steps)
  {
    if i == 0 {
      HeldInFront(v, c, DIRENT_PER_SECTOR * k, run, k - 1, DIRENT_PER_SECTOR);
      CollectRun(v, c, Loaded(v, c, k - 1), DIRENT_PER_SECTOR, k, false, steps, run);
    } else {
      HeldInFront(v, c, DIRENT_PER_SECTOR * k + i, run, k, i);
      CollectRun(v, c, Loaded(v, c, k), i, k, false, steps, run);
    }
  }

  /** A run in two sectors. */
  lemma FoundInTwo(v: Volume, c: nat, k: nat, i: nat, a: seq<DirEntry>, b: seq<DirEntry>, steps: nat)
    requires 0 < i == |b| < DIRENT_PER_SECTOR && 0 < |a| <= DIRENT_PER_SECTOR && |a| + |b| <= steps && LongRun(a + b)
    requires Holds(v, c, DIRENT_PER_SECTOR * k + i - (|a| + |b|), a + b)
    ensures Finds(v, c, k, i, RunName(a + b), k, steps)
  {
    HeldInTwo(v, c, DIRENT_PER_SECTOR * k + i, a, b, k, i);
    CollectAcross(v, c, Loaded(v, c, k), k, false, steps, a, b);
  }

  /** A run in three sectors, or in two behind each other in front of the first slot. */
  lemma FoundInThree(v: Volume, c: nat, k: nat, i: nat, a: seq<DirEntry>, b: seq<DirEntry>, d: seq<DirEntry>,
                     steps: nat)
    requires i == |d| < DIRENT_PER_SECTOR == |b| && 0 < |a| <= DIRENT_PER_SECTOR && LongRun(a + b + d)
    requires |a| + 2 * |b| + |d| <= steps
    requires Holds(v, c, DIRENT_PER_SECTOR * k + i - (|a| + |b| + |d|), a + b + d)
    ensures if i == 0 then Finds(v, c, k, i, RunName(b) + RunName(a + b + d), k, steps)
            else Finds(v, c, k, i, RunName(a + b + d), k - 1, steps)
  {
    HeldInThree(v, c, DIRENT_PER_SECTOR * k + i, a, b, d, k, i);
    if i == 0 {
      assert a + b + d == a + b;
      CollectFullTwice(v, c, k, steps, a, b);
    } else {
      CollectAcrossTwice(v, c, Loaded(v, c, k), k, false, steps, a, b, d);
    }
  }

  /** Parts of the run that fill the sector before slot `i`'s. */
  function FullSector(i: nat, run: seq<DirEntry>): seq<DirEntry>
    requires |run| >= i + DIRENT_PER_SECTOR
  {
    run[|run| - i - DIRENT_PER_SECTOR..|run| - i]
  }

  /** What the search finds in front of slot `i` of sector `k`, for every run of at most two sectors (the format
      allows 20 parts).  Out of reach, it repeats a sector of the name or comes back to the wrong sector. */
  lemma FoundLongName(v: Volume, c: nat, k: nat, i: nat, run: seq<DirEntry>, steps: nat)
    requires i < DIRENT_PER_SECTOR && 0 < |run| <= 2 * DIRENT_PER_SECTOR && steps >= 3 * DIRENT_PER_SECTOR
    requires LongRun(run)
    requires Holds(v, c, DIRENT_PER_SECTOR * k + i - |run|, run)
    ensures if InReach(i, run) then Finds(v, c, k, i, RunName(run), k, steps)
            else if i == 0 then Finds(v, c, k, i, RunName(FullSector(i, run)) + RunName(run), k, steps)
            else Finds(v, c, k, i, RunName(run), k - 1, steps)
  {
    var m := |run| - i;
    if m <= 0 || (i == 0 && m <= DIRENT_PER_SECTOR) {
      FoundInOne(v, c, k, i, run, steps);
    } else if m <= DIRENT_PER_SECTOR {
      assert run == run[..m] + run[m..];
      FoundInTwo(v, c, k, i, run[..m], run[m..], steps);
    } else {
      var a, b, d := run[..m - DIRENT_PER_SECTOR], FullSector(i, run), run[m..];
      assert run == a + b + d;
      FoundInThree(v, c, k, i, a, b, d, steps);
    }
  }

  /** A long name is found, and the scan goes on in its sector, exactly when the name begins no further back than
      in the sector before. */
  lemma LongNamesInReachAreFound(v: Volume, c: nat, k: nat, i: nat, run: seq<DirEntry>, steps: nat)
    requires i < DIRENT_PER_SECTOR && 0 < |run| <= 2 * DIRENT_PER_SECTOR && steps >= 3 * DIRENT_PER_SECTOR
    requires LongRun(run) && Attrib(EntryIn(Loaded(v, c, k), i)) != LONG_ATTRIB
    requires Holds(v, c, DIRENT_PER_SECTOR * k + i - |run|, run)
    ensures Finds(v, c, k, i, RunName(run), k, steps) <==> InReach(i, run)
  {
    FoundLongName(v, c, k, i, run, steps);
    if !InReach(i, run) {
      if i == 0 {
        RunNameLength(FullSector(i, run));
      } else {
        SectorBeforeDiffers(v, c, k, i, run);
      }
    }
  }

  lemma RunNameLength(run: seq<DirEntry>)
    requires run != []
    ensures RunName(run) != ""
  {
    assert EscapedPart(run[0]) != "";
  }

  /** In the sector before, slot `i` holds a part of the name. */
  lemma SectorBeforeDiffers(v: Volume, c: nat, k: nat, i: nat, run: seq<DirEntry>)
    requires i < DIRENT_PER_SECTOR && !InReach(i, run) && LongRun(run)
    requires Attrib(EntryIn(Loaded(v, c, k), i)) != LONG_ATTRIB
    requires Holds(v, c, DIRENT_PER_SECTOR * k + i - |run|, run)
    ensures Loaded(v, c, k - 1) != Loaded(v, c, k)
  {
    var j := |run| - DIRENT_PER_SECTOR;
    assert Attrib(run[j]) == LONG_ATTRIB;
    assert EntryNumber(v, c, DIRENT_PER_SECTOR * k + i - |run| + j) == run[j];
    assert DIRENT_PER_SECTOR * k + i - |run| + j == DIRENT_PER_SECTOR * (k - 1) + i;
    SlotNumber(k - 1, i);
  }

  // ---------- scanning items ----------

  /** Between two sectors the buffer does not matter; inside one it is that sector. */
  ghost predicate BufferOk(v: Volume, c: nat, g: nat, s: Scan) {
    g % DIRENT_PER_SECTOR != 0 ==> s.buf == Loaded(v, c, g / DIRENT_PER_SECTOR)
  }

  /** At entry `g` the buffer is its sector. */
  lemma AtSlotIs(v: Volume, c: nat, g: nat, s: Scan)
    requires BufferOk(v, c, g, s)
    ensures AtSlot(v, c, g, s) == s.(buf := Loaded(v, c, g / DIRENT_PER_SECTOR))
    ensures EntryIn(AtSlot(v, c, g, s).buf, g % DIRENT_PER_SECTOR) == EntryNumber(v, c, g)
  {}

  type Listed = Item -> seq<File>

  /** `list` says what an item is listed as and `loop` what the entry loop of the cluster does, again by name only. */
  ghost predicate IsLoop(list: Listed, loop: Loop, v: Volume, c: nat, end: nat, steps: nat) {
    && (forall it {:trigger FilesOf(it)} :: list(it) == FilesOf(it))
    && IsScan(loop, v, c, end, steps)
  }

  /** From `s` at entry `g` the loop comes to `s'` at entry `g'`. */
  ghost predicate ComesTo(loop: Loop, v: Volume, c: nat, g: nat, s: Scan, g': nat, s': Scan) {
    loop(g, s) == loop(g', s') && BufferOk(v, c, g', s')
  }

  lemma NextBufferOk(v: Volume, c: nat, g: nat, s: Scan)
    requires s.buf == Loaded(v, c, g / DIRENT_PER_SECTOR)
    ensures BufferOk(v, c, g + 1, s)
  {}

  lemma SlotScanned(loop: Loop, v: Volume, c: nat, g: nat, s: Scan, s': Scan, end: nat, steps: nat)
    requires IsScan(loop, v, c, end, steps) && g < end && s'.buf == Loaded(v, c, g / DIRENT_PER_SECTOR)
    requires Slot(v, c, g / DIRENT_PER_SECTOR, g % DIRENT_PER_SECTOR, AtSlot(v, c, g, s), steps) == Some(s')
    ensures ComesTo(loop, v, c, g, s, g + 1, s')
  {
    NextBufferOk(v, c, g, s');
    ScannedSlot(v, c, g, end, s, s', steps);
  }

  /** A part of a long name is only remembered. */
  lemma PartScanned(loop: Loop, v: Volume, c: nat, g: nat, s: Scan, end: nat, steps: nat)
      returns (s': Scan)
    requires IsScan(loop, v, c, end, steps)
    requires g < end && BufferOk(v, c, g, s)
    requires InUse(EntryNumber(v, c, g)) && Attrib(EntryNumber(v, c, g)) == LONG_ATTRIB
    ensures ComesTo(loop, v, c, g, s, g + 1, s') && s'.files == s.files && s'.prev == LONG_ATTRIB
  {
    AtSlotIs(v, c, g, s);
    s' := Scan(s.files, LONG_ATTRIB, Loaded(v, c, g / DIRENT_PER_SECTOR));
    SlotScanned(loop, v, c, g, s, s', end, steps);
  }

  lemma {:induction false} RunScanned(loop: Loop, v: Volume, c: nat, g: nat, run: seq<DirEntry>,
                                      s: Scan, end: nat, steps: nat)
      returns (s': Scan)
    requires IsScan(loop, v, c, end, steps)
    requires g + |run| <= end && BufferOk(v, c, g, s) && Holds(v, c, g, run)
    requires LongParts(run)
    ensures ComesTo(loop, v, c, g, s, g + |run|, s') && s'.files == s.files
    ensures s'.prev == if run == [] then s.prev else LONG_ATTRIB
    decreases |run|
  {
    s' := s;
    if run != [] {
      assert EntryNumber(v, c, g + 0) == run[0];
      var s1 := PartScanned(loop, v, c, g, s, end, steps);
      assert Holds(v, c, g + 1, run[1..]) by {
        assert run == run[..1] + run[1..];
        HoldsParts(v, c, g, run[..1], run[1..]);
      }
      s' := RunScanned(loop, v, c, g + 1, run[1..], s1, end, steps);
    }
  }

  /** An entry without a long name in front of it. */
  lemma EntryScanned(list: Listed, loop: Loop, v: Volume, c: nat, g: nat, it: Item, s: Scan, end: nat, steps: nat)
      returns (s': Scan)
    requires IsLoop(list, loop, v, c, end, steps)
    requires g < end && BufferOk(v, c, g, s) && s.prev != LONG_ATTRIB
    requires it.run == [] && ItemOk(it) && EntryNumber(v, c, g) == it.entry
    ensures ComesTo(loop, v, c, g, s, g + 1, s')
    ensures s'.files == s.files + list(it) && s'.prev != LONG_ATTRIB
  {
    AtSlotIs(v, c, g, s);
    s' := Scan(s.files + FilesOf(it), if InUse(it.entry) then Attrib(it.entry) else s.prev,
               Loaded(v, c, g / DIRENT_PER_SECTOR));
    assert s.files + [] == s.files;
    SlotScanned(loop, v, c, g, s, s', end, steps);
  }

  /** The entry behind a run, under the name that the search finds. */
  lemma LongEntryScanned(loop: Loop, v: Volume, c: nat, g: nat, e: DirEntry, name: string, s: Scan, end: nat,
                         steps: nat)
      returns (s': Scan)
    requires IsScan(loop, v, c, end, steps)
    requires g < end && BufferOk(v, c, g, s) && s.prev == LONG_ATTRIB && EntryNumber(v, c, g) == e
    requires Attrib(e) != LONG_ATTRIB && Attrib(e) != VOLUME_ATTRIB
    requires Finds(v, c, g / DIRENT_PER_SECTOR, g % DIRENT_PER_SECTOR, name, g / DIRENT_PER_SECTOR, steps)
    ensures ComesTo(loop, v, c, g, s, g + 1, s')
    ensures s'.files == s.files + [Named(Visible(name), e)] && s'.prev != LONG_ATTRIB
  {
    AtSlotIs(v, c, g, s);
    s' := Scan(s.files + [Named(Visible(name), e)], if InUse(e) then Attrib(e) else 0,
               Loaded(v, c, g / DIRENT_PER_SECTOR));
    SlotScanned(loop, v, c, g, s, s', end, steps);
  }

  /** The search at entry `g` finds the run and comes back. */
  ghost predicate IsFoundAt(v: Volume, c: nat, g: nat, run: seq<DirEntry>, steps: nat) {
    Finds(v, c, g / DIRENT_PER_SECTOR, g % DIRENT_PER_SECTOR, RunName(run), g / DIRENT_PER_SECTOR, steps)
  }

  /** A run in front of entry `g`. */
  lemma RunFound(v: Volume, c: nat, g: nat, run: seq<DirEntry>, steps: nat)
    requires run != [] && LongRun(run) && steps >= 3 * DIRENT_PER_SECTOR
    requires Holds(v, c, g - |run|, run) && InReach(g % DIRENT_PER_SECTOR, run)
    ensures IsFoundAt(v, c, g, run, steps)
  {
    var k, i := g / DIRENT_PER_SECTOR, g % DIRENT_PER_SECTOR;
    assert g - |run| == DIRENT_PER_SECTOR * k + i - |run|;
    FoundLongName(v, c, k, i, run, steps);
  }

  /** The parts `here` of a run that is found, and its entry. */
  lemma RestScanned(list: Listed, loop: Loop, v: Volume, c: nat, from: nat, here: seq<DirEntry>, it: Item, s: Scan,
                    end: nat, steps: nat)
      returns (s': Scan)
    requires IsLoop(list, loop, v, c, end, steps)
    requires here != [] && from + |here| < end && BufferOk(v, c, from, s) && LongParts(here) && Holds(v, c, from, here)
    requires it.run != [] && ItemOk(it) && EntryNumber(v, c, from + |here|) == it.entry
    requires IsFoundAt(v, c, from + |here|, it.run, steps)
    ensures ComesTo(loop, v, c, from, s, from + |here| + 1, s')
    ensures s'.files == s.files + list(it) && s'.prev != LONG_ATTRIB
  {
    var s1 := RunScanned(loop, v, c, from, here, s, end, steps);
    s' := LongEntryScanned(loop, v, c, from + |here|, it.entry, RunName(it.run), s1, end, steps);
    assert FilesOf(it) == [Named(Visible(RunName(it.run)), it.entry)];
  }

  lemma LongItemScanned(list: Listed, loop: Loop, v: Volume, c: nat, g: nat, it: Item, s: Scan, end: nat, steps: nat)
      returns (s': Scan)
    requires IsLoop(list, loop, v, c, end, steps) && steps >= 3 * DIRENT_PER_SECTOR
    requires it.run != [] && g + |it.run| < end && BufferOk(v, c, g, s) && ItemAt(v, c, g, it)
    ensures ComesTo(loop, v, c, g, s, g + |it.run| + 1, s')
    ensures s'.files == s.files + list(it) && s'.prev != LONG_ATTRIB
  {
    RunFound(v, c, g + |it.run|, it.run, steps);
    s' := RestScanned(list, loop, v, c, g, it.run, it, s, end, steps);
  }

  lemma ItemScanned(list: Listed, loop: Loop, v: Volume, c: nat, g: nat, it: Item, s: Scan, end: nat, steps: nat)
      returns (s': Scan)
    requires IsLoop(list, loop, v, c, end, steps)
    requires g + |it.run| < end && BufferOk(v, c, g, s) && s.prev != LONG_ATTRIB && steps >= 3 * DIRENT_PER_SECTOR
    requires ItemAt(v, c, g, it)
    ensures ComesTo(loop, v, c, g, s, g + |it.run| + 1, s')
    ensures s'.files == s.files + list(it) && s'.prev != LONG_ATTRIB
  {
    if it.run == [] {
      s' := EntryScanned(list, loop, v, c, g, it, s, end, steps);
    } else {
      s' := LongItemScanned(list, loop, v, c, g, it, s, end, steps);
    }
  }

  lemma {:induction false} ItemsScanned(list: Listed, loop: Loop, v: Volume, c: nat, g: nat, items: seq<Item>,
                                        s: Scan, end: nat, steps: nat)
      returns (s': Scan)
    requires IsLoop(list, loop, v, c, end, steps)
    requires g + Size(items) <= end && BufferOk(v, c, g, s) && s.prev != LONG_ATTRIB
    requires steps >= 3 * DIRENT_PER_SECTOR && ItemsAt(v, c, g, items)
    ensures ComesTo(loop, v, c, g, s, g + Size(items), s')
    ensures s'.files == s.files + Forwards(list, items)
    decreases |items|
  {
    s' := s;
    if items == [] {
      assert s.files + [] == s.files;
    } else {
      var it, rest := items[0], items[1..];
      var h := g + |it.run| + 1;
      var s1 := ItemScanned(list, loop, v, c, g, it, s, end, steps);
      s' := ItemsScanned(list, loop, v, c, h, rest, s1, end, steps);
      Regroup(s.files, list(it), Forwards(list, rest));
    }
  }

  // ---------- clusters and chains ----------

  /** What a cluster holds: items, and behind them the first parts of a name that goes on in the next cluster.
      `before` are the parts of this kind at the end of the cluster before. */
  datatype Content = Content(before: seq<DirEntry>, items: seq<Item>, after: seq<DirEntry>) {
    /** The first file has parts in both clusters. */
    predicate IsSplit() {
      before != [] && items != [] && items[0].run != []
    }

    /** The items, the first one with all of its parts.  A file without parts in its own cluster has none. */
    function Joined(): seq<Item> {
      if IsSplit() then [Item(before + items[0].run, items[0].entry)] + items[1..] else items
    }
  }

  /** The entries of the cluster are these, and a split name is in reach. */
  ghost predicate ConsistsOf(v: Volume, c: nat, q: Content) {
    && Size(q.items) + |q.after| == DIRENT_PER_SECTOR * v.sectorsPerCluster
    && LongParts(q.after) && Holds(v, c, Size(q.items), q.after)
    && if q.IsSplit() then FirstAt(v, c, q.before, q.items[0]) && ItemsAt(v, c, |q.items[0].run| + 1, q.items[1..])
       else ItemsAt(v, c, 0, q.items)
  }

  /** An item at the start of a cluster, with parts in front of it. */
  ghost predicate FirstAt(v: Volume, c: nat, before: seq<DirEntry>, it: Item) {
    && ItemOk(Item(before + it.run, it.entry)) && InReach(|it.run| % DIRENT_PER_SECTOR, before + it.run)
    && Holds(v, c, 0, it.run) && EntryNumber(v, c, |it.run|) == it.entry
  }

  /** The parts in front of a split name's cluster stand there on the disk. */
  ghost predicate InPlace(v: Volume, c: nat, q: Content) {
    q.IsSplit() ==> Holds(v, c, -|q.before|, q.before)
  }

  lemma JoinedFiles(list: Listed, q: Content)
    requires q.IsSplit()
    ensures Forwards(list, q.Joined()) ==
            list(Item(q.before + q.items[0].run, q.items[0].entry)) + Forwards(list, q.items[1..])
  {
    assert q.Joined()[1..] == q.items[1..];
  }

  /** A file with parts in front of the cluster. */
  lemma FirstScanned(list: Listed, loop: Loop, v: Volume, c: nat, before: seq<DirEntry>, it: Item, s: Scan, end: nat,
                     steps: nat)
      returns (s': Scan)
    requires IsLoop(list, loop, v, c, end, steps) && steps >= 3 * DIRENT_PER_SECTOR && BufferOk(v, c, 0, s)
    requires it.run != [] && FirstAt(v, c, before, it) && Holds(v, c, -|before|, before) && |it.run| < end
    ensures ComesTo(loop, v, c, 0, s, |it.run| + 1, s')
    ensures s'.files == s.files + list(Item(before + it.run, it.entry)) && s'.prev != LONG_ATTRIB
  {
    HoldsBoth(v, c, -|before|, before, it.run);
    LongPartsOf(before, it.run);
    RunFound(v, c, |it.run|, before + it.run, steps);
    s' := RestScanned(list, loop, v, c, 0, it.run, Item(before + it.run, it.entry), s, end, steps);
  }

  lemma SplitScanned(list: Listed, loop: Loop, v: Volume, c: nat, before: seq<DirEntry>, it: Item, rest: seq<Item>,
                     s: Scan, end: nat, steps: nat)
      returns (s': Scan)
    requires IsLoop(list, loop, v, c, end, steps) && steps >= 3 * DIRENT_PER_SECTOR && BufferOk(v, c, 0, s)
    requires it.run != [] && FirstAt(v, c, before, it) && Holds(v, c, -|before|, before)
    requires ItemsAt(v, c, |it.run| + 1, rest) && |it.run| + 1 + Size(rest) <= end
    ensures ComesTo(loop, v, c, 0, s, |it.run| + 1 + Size(rest), s')
    ensures s'.files == s.files + list(Item(before + it.run, it.entry)) + Forwards(list, rest)
  {
    var s1 := FirstScanned(list, loop, v, c, before, it, s, end, steps);
    s' := ItemsScanned(list, loop, v, c, |it.run| + 1, rest, s1, end, steps);
  }

  /** The items of a cluster, the first of them possibly split. */
  lemma ContentScanned(list: Listed, loop: Loop, v: Volume, c: nat, q: Content, s: Scan, end: nat, steps: nat)
      returns (s': Scan)
    requires IsLoop(list, loop, v, c, end, steps) && steps >= 3 * DIRENT_PER_SECTOR
    requires ConsistsOf(v, c, q) && InPlace(v, c, q) && Size(q.items) <= end
    requires BufferOk(v, c, 0, s) && s.prev != LONG_ATTRIB
    ensures ComesTo(loop, v, c, 0, s, Size(q.items), s') && s'.files == s.files + Forwards(list, q.Joined())
  {
    if q.IsSplit() {
      var it, rest := q.items[0], q.items[1..];
      s' := SplitScanned(list, loop, v, c, q.before, it, rest, s, end, steps);
      JoinedFiles(list, q);
      Regroup(s.files, list(Item(q.before + it.run, it.entry)), Forwards(list, rest));
    } else {
      s' := ItemsScanned(list, loop, v, c, 0, q.items, s, end, steps);
    }
  }

  /** A cluster lists the files of its items in order, each by its long name if it has one. */
  lemma ClusterIsListed(v: Volume, c: nat, q: Content, files: seq<File>, steps: nat)
    requires ConsistsOf(v, c, q) && InPlace(v, c, q) && steps >= 3 * DIRENT_PER_SECTOR
    ensures ClusterScanned(v, c, files, steps).Some?
    ensures ClusterScanned(v, c, files, steps).value.files == files + AllFiles(q.Joined())
  {
    var end := DIRENT_PER_SECTOR * v.sectorsPerCluster;
    var loop := NamedScan(v, c, end, steps);
    var s1 := ContentScanned(FilesOf, loop, v, c, q, Scan(files, 0, Loaded(v, c, 0)), end, steps);
    var s2 := RunScanned(loop, v, c, Size(q.items), q.after, s1, end, steps);
    assert Scanned(v, c, end, end, s2, steps) == Some(s2);
  }

  /** A name that is split between two clusters needs them to be neighbours on the disk. */
  ghost predicate Follows(p: nat, q: Content, c: nat, r: Content) {
    r.before == q.after && (r.IsSplit() ==> c == p + 1)
  }

  ghost predicate ChainConsistsOf(v: Volume, chain: seq<nat>, contents: seq<Content>) {
    && |contents| == |chain| && (forall j :: 0 <= j < |chain| ==> ConsistsOf(v, chain[j], contents[j]))
    && forall j :: 0 <= j < |chain| - 1 ==> Follows(chain[j], contents[j], chain[j + 1], contents[j + 1])
  }

  function ChainFiles(contents: seq<Content>): seq<File> {
    if contents == [] then [] else AllFiles(contents[0].Joined()) + ChainFiles(contents[1..])
  }

  /** Neighbouring clusters are neighbours on the disk. */
  lemma EntriesBefore(v: Volume, p: nat, g: int)
    ensures EntryNumber(v, p + 1, g) == EntryNumber(v, p, g + DIRENT_PER_SECTOR * v.sectorsPerCluster)
  {
    var k := g / DIRENT_PER_SECTOR;
    assert (g + DIRENT_PER_SECTOR * v.sectorsPerCluster) / DIRENT_PER_SECTOR == k + v.sectorsPerCluster;
    assert (p + 1 - 2) * v.sectorsPerCluster + v.firstSector + k ==
           (p - 2) * v.sectorsPerCluster + v.firstSector + (k + v.sectorsPerCluster);
  }

  lemma EndIsInFront(v: Volume, p: nat, after: seq<DirEntry>)
    requires Holds(v, p, DIRENT_PER_SECTOR * v.sectorsPerCluster - |after|, after)
    ensures Holds(v, p + 1, -|after|, after)
  {
    var end := DIRENT_PER_SECTOR * v.sectorsPerCluster;
    forall j | 0 <= j < |after| ensures EntryNumber(v, p + 1, -|after| + j) == after[j] {
      EntriesBefore(v, p, -|after| + j);
      assert EntryNumber(v, p, end - |after| + j) == after[j];
    }
  }

  lemma ChainTail(v: Volume, chain: seq<nat>, contents: seq<Content>)
    requires ChainConsistsOf(v, chain, contents) && |chain| > 0
    ensures ChainConsistsOf(v, chain[1..], contents[1..]) && ConsistsOf(v, chain[0], contents[0])
    ensures |chain| > 1 ==> Follows(chain[0], contents[0], chain[1], contents[1])
  {
    forall j | 0 <= j < |chain| - 1 ensures ConsistsOf(v, chain[1..][j], contents[1..][j]) {
      assert ConsistsOf(v, chain[j + 1], contents[j + 1]);
    }
    forall j | 0 <= j < |chain| - 2
      ensures Follows(chain[1..][j], contents[1..][j], chain[1..][j + 1], contents[1..][j + 1])
    {
      assert Follows(chain[j + 1], contents[j + 1], chain[j + 2], contents[j + 2]);
    }
  }

  lemma NextInPlace(v: Volume, p: nat, q: Content, c: nat, r: Content)
    requires ConsistsOf(v, p, q) && Follows(p, q, c, r)
    ensures InPlace(v, c, r)
  {
    if r.IsSplit() {
      EndIsInFront(v, p, q.after);
    }
  }

  /** So does a chain of clusters; a name split between two of them is listed when they are neighbours on the disk,
      and otherwise when no part of it stands in the cluster of its entry, which is listed by its short name. */
  lemma {:induction false} ChainIsListed(v: Volume, chain: seq<nat>, contents: seq<Content>, files: seq<File>,
                                         steps: nat)
    requires ChainConsistsOf(v, chain, contents) && steps >= 3 * DIRENT_PER_SECTOR
    requires chain != [] ==> InPlace(v, chain[0], contents[0])
    ensures ChainScanned(v, chain, files, steps) == Some(files + ChainFiles(contents))
    decreases |chain|
  {
    if chain == [] {
      assert files + [] == files;
    } else {
      var here := AllFiles(contents[0].Joined());
      ChainTail(v, chain, contents);
      ClusterIsListed(v, chain[0], contents[0], files, steps);
      if |chain| > 1 {
        NextInPlace(v, chain[0], contents[0], chain[1], contents[1]);
      }
      ChainIsListed(v, chain[1..], contents[1..], files + here, steps);
      Regroup(files, here, ChainFiles(contents[1..]));
    }
  }

  /** Nothing carries over from one cluster to the next: a file whose entry begins a cluster is listed by its
      short name, whatever stands before. */
  lemma FirstEntryIsShort(v: Volume, c: nat, files: seq<File>, steps: nat)
    requires v.sectorsPerCluster > 0
    requires var e := EntryNumber(v, c, 0);
             InUse(e) && Attrib(e) != LONG_ATTRIB && Attrib(e) != VOLUME_ATTRIB
    ensures var e, end := EntryNumber(v, c, 0), DIRENT_PER_SECTOR * v.sectorsPerCluster;
            ClusterScanned(v, c, files, steps) ==
            Scanned(v, c, 1, end, Scan(files + [Named(ShortName(e), e)], Attrib(e), Loaded(v, c, 0)), steps)
  {
    AtSlotIs(v, c, 0, Scan(files, 0, Loaded(v, c, 0)));
  }

  // ---------- long names as they are written ----------

  lemma {:induction false} RunNameIsEscaped(run: seq<DirEntry>)
    ensures RunName(run) == Escape(Spelled(run))
  {
    if run != [] {
      RunNameIsEscaped(run[1..]);
      EscapeConcat(Spelled(run[1..]), Part(run[0]));
    }
  }

  lemma {:induction false} VisibleStops(a: CString, b: string)
    requires b == "" || b[0] == '\0'
    ensures Visible(a + b) == a
  {
    if a == "" {
      assert a + b == b;
    } else {
      assert (a + b)[1..] == a[1..] + b;
      VisibleStops(a[1..], b);
    }
  }

  lemma {:induction false} EscapeHasNoNul(name: CString)
    ensures '\0' !in Escape(name)
  {
    if name != "" {
      EscapeHasNoNul(name[1..]);
    }
  }

  /** The run spells the name: its characters are the name, filled up behind a NUL if there is room. */
  predicate Spells(run: seq<DirEntry>, name: CString) {
    name <= Spelled(run) && (|name| < |Spelled(run)| ==> Spelled(run)[|name|] == '\0')
  }

  /** A file is listed by the name its long entries spell, with its spaces escaped. */
  lemma LongNameIsListed(it: Item, name: CString)
    requires it.run != [] && Spells(it.run, name)
    ensures '\0' !in Escape(name) && FilesOf(it) == [Named(Escape(name), it.entry)]
  {
    var fill := Spelled(it.run)[|name|..];
    assert Spelled(it.run) == name + fill;
    RunNameIsEscaped(it.run);
    EscapeConcat(name, fill);
    EscapeHasNoNul(name);
    VisibleStops(Escape(name), Escape(fill));
  }
}
