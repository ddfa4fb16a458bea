/** FAT32 directory entries as the format writes them, byte by byte, and what the reader makes of them. */
module FatLayout {
  import opened Disks
  import opened Numerals
  import opened Names
  import opened Fat32
  import opened FatDir
  import opened FatListing

  // ---------- long-name entries ----------

  predicate Latin(s: string) {
    forall j :: 0 <= j < |s| ==> s[j] < 256 as char
  }

  /** Characters of 16 bits, low byte first. */
  function Wide(s: string): (b: seq<Byte>)
    requires Latin(s)
    ensures |b| == 2 * |s| && forall j :: 0 <= j < |s| ==> b[2 * j] == s[j] as nat
  {
    if s == "" then []
    else
      assert Latin(s[..|s| - 1]);
      Wide(s[..|s| - 1]) + [s[|s| - 1] as nat, 0]
  }

  lemma LatinParts(s: string)
    requires |s| == 13 && Latin(s)
    ensures Latin(s[..5]) && Latin(s[5..11]) && Latin(s[11..])
  {
    forall j | 0 <= j < 6 ensures s[5..11][j] < 256 as char { assert s[5..11][j] == s[5 + j]; }
    forall j | 0 <= j < 2 ensures s[11..][j] < 256 as char { assert s[11..][j] == s[11 + j]; }
  }

  /** Ordinal, five characters, attribute, type and checksum, six characters, a zero word, two characters. */
  function LongEntry(ordinal: Byte, sum: Byte, chars: string): DirEntry
    requires |chars| == 13 && Latin(chars)
  {
    LatinParts(chars);
    [ordinal] + Wide(chars[..5]) + [0x0F, 0, sum] + Wide(chars[5..11]) + [0, 0] + Wide(chars[11..])
  }

  lemma LongEntryByte(ordinal: Byte, sum: Byte, chars: string, j: nat)
    requires |chars| == 13 && Latin(chars) && j < 13
    ensures LongEntry(ordinal, sum, chars)[PartOffset(j)] == chars[j] as nat
  {
    LatinParts(chars);
    var a, b, d := Wide(chars[..5]), Wide(chars[5..11]), Wide(chars[11..]);
    if j < 5 {
      assert a[2 * j] == chars[..5][j] as nat;
    } else if j < 11 {
      assert b[2 * (j - 5)] == chars[5..11][j - 5] as nat;
    } else {
      assert d[2 * (j - 11)] == chars[11..][j - 11] as nat;
    }
  }

  /** The reader gets the characters back in their order. */
  lemma LongEntryReadsBack(ordinal: Byte, sum: Byte, chars: string)
    requires |chars| == 13 && Latin(chars)
    ensures var e := LongEntry(ordinal, sum, chars);
            && Part(e) == chars && Attrib(e) == 0x0F && e[0] == ordinal
            && (Flagged(e) <==> ordinal / 64 % 2 == 1)
  {
    var e := LongEntry(ordinal, sum, chars);
    forall j | 0 <= j < 13 ensures Part(e)[j] == chars[j] { LongEntryByte(ordinal, sum, chars, j); }
  }

  /** A name in pieces of 13 characters. */
  predicate Pieces(chunks: seq<string>) {
    |chunks| <= 20 && forall j :: 0 <= j < |chunks| ==> |chunks[j]| == 13 && Latin(chunks[j])
  }

  /** On the disk the last piece comes first, with 0x40 added to its number. */
  function Ordinal(n: nat, number: nat): Byte
    requires 1 <= number <= n <= 20
  {
    if number == n then 0x40 + number else number
  }

  function RunOf(chunks: seq<string>, sum: Byte, upto: nat): (run: seq<DirEntry>)
    requires Pieces(chunks) && upto <= |chunks|
    ensures |run| == upto
  {
    if upto == 0 then []
    else [LongEntry(Ordinal(|chunks|, upto), sum, chunks[upto - 1])] + RunOf(chunks, sum, upto - 1)
  }

  function Joined(chunks: seq<string>): string {
    if chunks == [] then "" else Joined(chunks[..|chunks| - 1]) + chunks[|chunks| - 1]
  }

  lemma {:induction false} RunSpells(chunks: seq<string>, sum: Byte, upto: nat)
    requires Pieces(chunks) && upto <= |chunks|
    ensures Spelled(RunOf(chunks, sum, upto)) == Joined(chunks[..upto])
  {
    if upto > 0 {
      RunSpells(chunks, sum, upto - 1);
      LongEntryReadsBack(Ordinal(|chunks|, upto), sum, chunks[upto - 1]);
      assert chunks[..upto][..upto - 1] == chunks[..upto - 1];
    }
  }

  lemma {:induction false} RunEntry(chunks: seq<string>, sum: Byte, upto: nat, j: nat)
    requires Pieces(chunks) && j < upto <= |chunks|
    ensures RunOf(chunks, sum, upto)[j] == LongEntry(Ordinal(|chunks|, upto - j), sum, chunks[upto - j - 1])
  {
    if j > 0 {
      RunEntry(chunks, sum, upto - 1, j - 1);
    }
  }

  /** A long name written this way is a run, and spells the name. */
  lemma WrittenRun(chunks: seq<string>, sum: Byte)
    requires Pieces(chunks)
    ensures var run := RunOf(chunks, sum, |chunks|);
            LongRun(run) && Spelled(run) == Joined(chunks)
  {
    var n := |chunks|;
    var run := RunOf(chunks, sum, n);
    RunSpells(chunks, sum, n);
    assert chunks[..n] == chunks;
    forall j | 0 <= j < n
      ensures InUse(run[j]) && Attrib(run[j]) == LONG_ATTRIB && (Flagged(run[j]) <==> j == 0)
    {
      RunEntry(chunks, sum, n, j);
      LongEntryReadsBack(Ordinal(n, n - j), sum, chunks[n - j - 1]);
    }
  }

  /** So a file is listed by the name that was written, with its spaces escaped; a name that does not fill its last
      piece ends with a NUL. */
  lemma WrittenNameIsListed(name: CString, fill: string, chunks: seq<string>, sum: Byte, entry: DirEntry)
    requires Pieces(chunks) && chunks != [] && Joined(chunks) == name + fill && (fill == "" || fill[0] == '\0')
    ensures '\0' !in Escape(name)
    ensures FilesOf(Item(RunOf(chunks, sum, |chunks|), entry)) == [Named(Escape(name), entry)]
  {
    var run := RunOf(chunks, sum, |chunks|);
    WrittenRun(chunks, sum);
    assert Spelled(run)[..|name|] == name;
    LongNameIsListed(Item(run, entry), name);
  }

  // ---------- where entries stand ----------

  /** Entry `g` of a cluster are its bytes from 32 * g on. */
  lemma EntryBytes(v: Volume, c: nat, g: nat, j: nat)
    requires j < 32
    ensures EntryNumber(v, c, g)[j] == Loaded(v, c, (32 * g + j) / 512)[(32 * g + j) % 512]
  {
    var k, i := g / 16, g % 16;
    assert 32 * g + j == 512 * k + (32 * i + j);
  }

  /** An entry is in use unless it begins with a zero, 0xE5 or a space. */
  lemma InUseIs(e: DirEntry)
    ensures InUse(e) <==> e[0] as nat !in {0, 229, 32}
  {}

  // ---------- file entries ----------

  /** A short name has no spaces and no NULs inside its bytes. */
  predicate Packable(s: string) {
    Latin(s) && ' ' !in s && '\0' !in s
  }

  /** The characters, then spaces. */
  function Padded(s: string, n: nat): (b: seq<Byte>)
    requires Packable(s) && |s| <= n
    ensures |b| == n
  {
    seq<Byte>(n, j requires 0 <= j < n => if j < |s| then s[j] as nat else 0x20)
  }

  /** Name, extension, attributes, the cluster in two halves, and the size. */
  ghost predicate IsEntry(e: DirEntry, base: string, ext: string, attrib: Byte, cluster: nat, size: nat) {
    && Packable(base) && |base| <= 8 && Packable(ext) && |ext| <= 3
    && cluster < 0x1_0000_0000 && size < 0x1_0000_0000
    && e[..8] == Padded(base, 8) && e[8..11] == Padded(ext, 3) && e[11] == attrib
    && e[26..28] + e[20..22] == WordBytes(cluster) && e[28..32] == WordBytes(size)
  }

  lemma PackedSpace(s: seq<Byte>)
    requires s != [] && s[|s| - 1] == 0x20
    ensures Packed(s) == Packed(s[..|s| - 1])
  {}

  lemma {:induction false} PackedPadded(s: string, n: nat)
    requires Packable(s) && |s| <= n
    ensures Packed(Padded(s, n)) == s
    decreases n
  {
    var b := Padded(s, n);
    if n > |s| {
      assert b[..n - 1] == Padded(s, n - 1);
      PackedPadded(s, n - 1);
    } else if n > 0 {
      var front := s[..n - 1];
      assert Packable(front);
      assert s[n - 1] in s && b[..n - 1] == Padded(front, n - 1);
      PackedPadded(front, n - 1);
      assert s == front + [s[n - 1]];
    }
  }

  /** The name is the base, with a dot and the extension if there is one. */
  lemma ShortNameIs(e: DirEntry, base: string, ext: string, attrib: Byte, cluster: nat, size: nat)
    requires IsEntry(e, base, ext, attrib, cluster, size)
    ensures ShortName(e) == if ext == "" then base else base + "." + ext
  {
    PackedPadded(base, 8);
    PackedPadded(ext, 3);
    assert e[8] == Padded(ext, 3)[0] by { assert e[8..11][0] == e[8]; }
    if ext != "" { assert ext[0] in ext; }
  }

  lemma TwoHalves(low: nat, high: nat)
    requires low < 0x1_0000 && high < 0x1_0000
    ensures (high * 0x1_0000 % 0x1_0000_0000 + low) % 0x1_0000_0000 == high * 0x1_0000 + low
  {
    assert high * 0x1_0000 + low < 0x1_0000_0000;
  }

  lemma ClusterIs(e: DirEntry, cluster: nat)
    requires cluster < 0x1_0000_0000 && e[26..28] + e[20..22] == WordBytes(cluster)
    ensures StartCluster(e) == if cluster == 0 && Attrib(e) == 0x10 then 2 else cluster
  {
    var b := e[26..28] + e[20..22];
    assert b == [e[26], e[27], e[20], e[21]];
    WordOfBytes(e[26], e[27], e[20], e[21], cluster);
    TwoHalves(e[26] as nat + 0x100 * e[27] as nat, e[20] as nat + 0x100 * e[21] as nat);
  }

  /** What is listed of such an entry. */
  lemma EntryReadsBack(e: DirEntry, base: string, ext: string, attrib: Byte, cluster: nat, size: nat, name: CString)
    requires IsEntry(e, base, ext, attrib, cluster, size)
    ensures Named(name, e) ==
            File(name, KindOf(attrib), if cluster == 0 && attrib == 0x10 then 2 else cluster, size)
  {
    ClusterIs(e, cluster);
    assert e[28..32][4 * 0..4 * 0 + 4] == e[28..32];
    WordReadsBack(e[28..32], 0, size);
  }

  function Flag(on: bool, bit: nat): nat {
    if on then bit else 0
  }

  /** The attribute bits: a directory or volume label is listed as a directory, a file with any of the other
      attributes as a regular file, and a file with none as kind 0. */
  lemma KindIs(readOnly: bool, hidden: bool, system: bool, volume: bool, directory: bool, archive: bool)
    ensures KindOf(Flag(readOnly, 0x01) + Flag(hidden, 0x02) + Flag(system, 0x04) + Flag(volume, 0x08) +
                   Flag(directory, 0x10) + Flag(archive, 0x20)) ==
            if directory || volume then 2 else if readOnly || hidden || system || archive then 1 else 0
  {}
}
