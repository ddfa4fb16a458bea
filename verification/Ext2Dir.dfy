/** ext2_rd_dir: the list of entries that the code builds from the direct blocks of a directory. */
module Ext2Dir {
  import opened Disks
  import opened Numerals
  import opened Names

  const BUFFER: nat := 4096
  const TYPE_DIRECTORY: nat := 2

  /** The buffer after a block has been read to its front. */
  type DirBlock = s: seq<Byte> | |s| == BUFFER witness seq(BUFFER, _ => 0)

  datatype Kind = Directory | OtherFile

  /** A node of the list, as far as path resolution looks at it. */
  datatype Entry = Entry(name: CString, inode: nat, kind: Kind)

  // ---------- directory records ----------

  datatype Record = Record(inode: nat, recLen: nat, name: string, fileType: nat)

  /** The fixed part and the name of a record lie inside the buffer. */
  predicate Fits(buf: DirBlock, at: nat) {
    at + 8 <= BUFFER && at + 8 + buf[at + 6] as nat <= BUFFER
  }

  function Text(bytes: seq<Byte>): (s: string)
    ensures |s| == |bytes|
  {
    seq(|bytes|, j requires 0 <= j < |bytes| => bytes[j] as char)
  }

  function RecordAt(buf: DirBlock, at: nat): Record
    requires Fits(buf, at)
  {
    var b0: nat, b1: nat, b2: nat, b3: nat := buf[at], buf[at + 1], buf[at + 2], buf[at + 3];
    var l0: nat, l1: nat, n: nat := buf[at + 4], buf[at + 5], buf[at + 6];
    Record(b0 + 0x100 * b1 + 0x1_0000 * b2 + 0x100_0000 * b3, l0 + 0x100 * l1,
           Text(buf[at + 8..at + 8 + n]), buf[at + 7])
  }

  function EntryOf(r: Record): Entry {
    Entry(Visible(Escape(r.name)), r.inode, if r.fileType == TYPE_DIRECTORY then Directory else OtherFile)
  }

  /** The fields of a record fit their places. */
  predicate Writable(r: Record) {
    r.inode < 0x1_0000_0000 && r.recLen < 0x1_0000 && |r.name| < 0x100 && r.fileType < 0x100 &&
    forall j :: 0 <= j < |r.name| ==> r.name[j] < 256 as char
  }

  function NameBytes(name: string): (b: seq<Byte>)
    requires forall j :: 0 <= j < |name| ==> name[j] < 256 as char
    ensures |b| == |name| && Text(b) == name
  {
    seq<Byte>(|name|, j requires 0 <= j < |name| => name[j] as nat)
  }

  function FieldBytes(recLen: nat, nameLen: nat, fileType: nat): (b: seq<Byte>)
    requires recLen < 0x1_0000 && nameLen < 0x100 && fileType < 0x100
    ensures |b| == 4
  {
    [recLen % 0x100, recLen / 0x100, nameLen, fileType]
  }

  /** A record as the ext2 format writes it: inode, record length, name length, file type, name. */
  function RecordBytes(r: Record): (b: seq<Byte>)
    requires Writable(r)
    ensures |b| == 8 + |r.name|
  {
    WordBytes(r.inode) + FieldBytes(r.recLen, |r.name|, r.fileType) + NameBytes(r.name)
  }

  lemma PartsOfRecord(r: Record)
    requires Writable(r)
    ensures var b := RecordBytes(r);
            && b[8..] == NameBytes(r.name) && [b[0], b[1], b[2], b[3]] == WordBytes(r.inode)
            && [b[4], b[5], b[6], b[7]] == FieldBytes(r.recLen, |r.name|, r.fileType)
  {}

  lemma FieldOfBytes(b0: nat, b1: nat, b2: nat, b3: nat, recLen: nat, nameLen: nat, fileType: nat)
    requires recLen < 0x1_0000 && nameLen < 0x100 && fileType < 0x100
    requires [b0, b1, b2, b3] == FieldBytes(recLen, nameLen, fileType)
    ensures b0 + 0x100 * b1 == recLen && b2 == nameLen && b3 == fileType
  {
    var b := FieldBytes(recLen, nameLen, fileType);
    assert b0 == b[0] && b1 == b[1] && b2 == b[2] && b3 == b[3];
  }

  /** Bytes of a slice, in the buffer. */
  lemma Placed(buf: DirBlock, at: nat, b: seq<Byte>)
    requires |b| >= 8 && at + |b| <= BUFFER && buf[at..at + |b|] == b
    ensures forall j :: 0 <= j < 8 ==> buf[at + j] == b[j]
    ensures buf[at + 8..at + |b|] == b[8..]
  {
    var whole := buf[at..at + |b|];
    assert whole[8..] == buf[at + 8..at + |b|];
    forall j | 0 <= j < 8 ensures buf[at + j] == b[j] { assert whole[j] == b[j]; }
  }

  /** Such a record is read back. */
  lemma RecordReadsBack(buf: DirBlock, at: nat, r: Record)
    requires Writable(r) && at + 8 + |r.name| <= BUFFER && buf[at..at + 8 + |r.name|] == RecordBytes(r)
    ensures Fits(buf, at) && RecordAt(buf, at) == r
  {
    var b := RecordBytes(r);
    Placed(buf, at, b);
    PartsOfRecord(r);
    WordOfBytes(b[0], b[1], b[2], b[3], r.inode);
    FieldOfBytes(b[4], b[5], b[6], b[7], r.recLen, |r.name|, r.fileType);
    assert buf[at] == buf[at + 0];
  }

  /** Its entry: the name with its spaces escaped, the inode, and a directory for file type 2. */
  lemma EntryIs(r: Record)
    requires '\0' !in r.name && '\0' !in Escape(r.name)
    ensures EntryOf(r) == Entry(Escape(r.name), r.inode, if r.fileType == 2 then Directory else OtherFile)
  {}

  /** The record at `at` is the last one read of a block. */
  predicate EndsBlock(r: Record, at: nat, bs: nat) {
    r.recLen + at >= bs
  }

  /** Every record that the loop reads lies inside the buffer. */
  predicate Readable(buf: DirBlock, at: nat, bs: nat)
    decreases BUFFER - at
  {
    Fits(buf, at) &&
    var r := RecordAt(buf, at);
    EndsBlock(r, at, bs) || r.recLen == 0 || Readable(buf, at + r.recLen, bs)
  }

  // ---------- the list the code builds ----------

  /** The list, whose last node is the one filled next, after the records from `at` on.  `blank` is what
      a node holds before it is filled. */
  function Scanned(buf: DirBlock, at: nat, bs: nat, list: seq<Entry>, blank: Entry): (r: seq<Entry>)
    requires Readable(buf, at, bs) && list != []
    ensures r != []
    decreases BUFFER - at
  {
    var r := RecordAt(buf, at);
    var filled := list[|list| - 1 := EntryOf(r)];
    if EndsBlock(r, at, bs) then filled
    else if r.recLen == 0 then filled + [blank]
    else Scanned(buf, at + r.recLen, bs, filled + [blank], blank)
  }

  /** A record that reaches or passes the end of the block is the last one; one of length zero is, too, but leaves a
      new node behind; after any other one the next record is read into a new node. */
  lemma RecordByRecord(buf: DirBlock, at: nat, bs: nat, list: seq<Entry>, blank: Entry)
    requires Readable(buf, at, bs) && list != []
    ensures var r := RecordAt(buf, at);
            var filled := list[|list| - 1 := EntryOf(r)];
            && (at + r.recLen >= bs ==> Scanned(buf, at, bs, list, blank) == filled)
            && (at + r.recLen < bs && r.recLen == 0 ==> Scanned(buf, at, bs, list, blank) == filled + [blank])
            && (at + r.recLen < bs && r.recLen > 0 ==>
                  Readable(buf, at + r.recLen, bs) &&
                  Scanned(buf, at, bs, list, blank) == Scanned(buf, at + r.recLen, bs, filled + [blank], blank))
  {}

  predicate AllReadable(blocks: seq<DirBlock>, bs: nat) {
    blocks == [] || (Readable(blocks[0], 0, bs) && AllReadable(blocks[1..], bs))
  }

  function ScannedAll(blocks: seq<DirBlock>, bs: nat, list: seq<Entry>, blank: Entry): (r: seq<Entry>)
    requires AllReadable(blocks, bs) && list != []
    ensures r != []
  {
    if blocks == [] then list else ScannedAll(blocks[1..], bs, Scanned(blocks[0], 0, bs, list, blank), blank)
  }

  /** The whole directory: the list starts with one node. */
  function DirListing(blocks: seq<DirBlock>, bs: nat, blank: Entry): seq<Entry>
    requires AllReadable(blocks, bs)
  {
    ScannedAll(blocks, bs, [blank], blank)
  }

  method FillEntry(r: Record) returns (e: Entry)
    ensures e == EntryOf(r)
  {
    var filename := EscapeName(r.name);
    e := Entry(Visible(filename), r.inode, if r.fileType == TYPE_DIRECTORY then Directory else OtherFile);
  }

  /** What is left of the loop over a block makes `r` of the list. */
  ghost predicate Leads(buf: DirBlock, at: nat, bs: nat, list: seq<Entry>, blank: Entry, done: bool, r: seq<Entry>) {
    list != [] && if done then list == r else Readable(buf, at, bs) && Scanned(buf, at, bs, list, blank) == r
  }

  lemma RecordStep(buf: DirBlock, at: nat, bs: nat, list: seq<Entry>, blank: Entry, r: seq<Entry>)
    requires Leads(buf, at, bs, list, blank, false, r)
    ensures var rec := RecordAt(buf, at);
            var filled := list[|list| - 1 := EntryOf(rec)];
            if EndsBlock(rec, at, bs) then Leads(buf, at, bs, filled, blank, true, r)
            else Leads(buf, at + rec.recLen, bs, filled + [blank], blank, rec.recLen == 0, r)
  {}

  /** The loop over the records of one block. */
  method RdRecords(buf: DirBlock, bs: nat, list: seq<Entry>, blank: Entry) returns (r: seq<Entry>)
    requires Readable(buf, 0, bs) && list != []
    ensures r == Scanned(buf, 0, bs, list, blank)
  {
    r := list;
    ghost var result := Scanned(buf, 0, bs, list, blank);
    var prevRecLen: nat, done := 0, false;
    while !done
      invariant Leads(buf, prevRecLen, bs, r, blank, done, result)
      decreases !done, BUFFER - prevRecLen
    {
      RecordStep(buf, prevRecLen, bs, r, blank, result);
      var direntry := RecordAt(buf, prevRecLen);
      var e := FillEntry(direntry);
      r := r[|r| - 1 := e];
      if direntry.recLen + prevRecLen >= bs {
        done := true;
      } else {
        prevRecLen := direntry.recLen + prevRecLen;
        r := r + [blank];
        done := direntry.recLen == 0;
      }
    }
  }

  /** ext2_rd_dir over the direct blocks present. */
  method RdDir(blocks: seq<DirBlock>, bs: nat, blank: Entry) returns (list: seq<Entry>)
    requires AllReadable(blocks, bs)
    ensures list == DirListing(blocks, bs, blank)
  {
    list := [blank];
    var k := 0;
    assert blocks[0..] == blocks;
    while k < |blocks|
      invariant 0 <= k <= |blocks| && list != [] && AllReadable(blocks[k..], bs)
      invariant ScannedAll(blocks[k..], bs, list, blank) == DirListing(blocks, bs, blank)
    {
      assert blocks[k..][1..] == blocks[k + 1..];
      list := RdRecords(blocks[k], bs, list, blank);
      k := k + 1;
    }
  }

  // ---------- what the list holds ----------

  /** Records of a block of the ext2 format: each leads on to the next, the last one to the end. */
  predicate WellFormed(buf: DirBlock, at: nat, bs: nat)
    decreases BUFFER - at
  {
    Fits(buf, at) &&
    var r := RecordAt(buf, at);
    r.recLen > 0 && (r.recLen + at == bs || (r.recLen + at < bs && WellFormed(buf, at + r.recLen, bs)))
  }

  /** The entries of a block, one for each record. */
  function BlockEntries(buf: DirBlock, at: nat, bs: nat): (r: seq<Entry>)
    requires WellFormed(buf, at, bs)
    ensures r != []
    decreases BUFFER - at
  {
    var r := RecordAt(buf, at);
    [EntryOf(r)] + if r.recLen + at == bs then [] else BlockEntries(buf, at + r.recLen, bs)
  }

  /** The last node gives way to what follows. */
  lemma GiveWay(a: seq<Entry>, b: seq<Entry>, c: seq<Entry>)
    requires b != []
    ensures (a + b)[..|a + b| - 1] + c == a + (b[..|b| - 1] + c)
  {
    assert (a + b)[..|a + b| - 1] == a + b[..|b| - 1];
  }

  /** Filling the last node and adding another. */
  lemma FillAndAdd(list: seq<Entry>, e: Entry, blank: Entry, rest: seq<Entry>)
    requires list != []
    ensures list[|list| - 1 := e] == list[..|list| - 1] + [e]
    ensures (list[|list| - 1 := e] + [blank])[..|list|] + rest == list[..|list| - 1] + ([e] + rest)
  {
    assert (list[|list| - 1 := e] + [blank])[..|list|] == list[..|list| - 1] + [e];
  }

  lemma {:induction false} ScannedIs(buf: DirBlock, at: nat, bs: nat, list: seq<Entry>, blank: Entry)
    requires WellFormed(buf, at, bs) && list != []
    ensures Readable(buf, at, bs)
    ensures Scanned(buf, at, bs, list, blank) == list[..|list| - 1] + BlockEntries(buf, at, bs)
    decreases BUFFER - at
  {
    var r := RecordAt(buf, at);
    var rest := if r.recLen + at < bs then BlockEntries(buf, at + r.recLen, bs) else [];
    FillAndAdd(list, EntryOf(r), blank, rest);
    if r.recLen + at < bs {
      ScannedIs(buf, at + r.recLen, bs, list[|list| - 1 := EntryOf(r)] + [blank], blank);
    }
  }

  predicate AllWellFormed(blocks: seq<DirBlock>, bs: nat) {
    blocks == [] || (WellFormed(blocks[0], 0, bs) && AllWellFormed(blocks[1..], bs))
  }

  /** The entries of each block. */
  function EntryLists(blocks: seq<DirBlock>, bs: nat): seq<seq<Entry>>
    requires AllWellFormed(blocks, bs)
  {
    if blocks == [] then [] else [BlockEntries(blocks[0], 0, bs)] + EntryLists(blocks[1..], bs)
  }

  predicate NoneEmpty(lists: seq<seq<Entry>>) {
    lists == [] || (lists[0] != [] && NoneEmpty(lists[1..]))
  }

  lemma {:induction false} EntryListsShape(blocks: seq<DirBlock>, bs: nat)
    requires AllWellFormed(blocks, bs)
    ensures |EntryLists(blocks, bs)| == |blocks| && NoneEmpty(EntryLists(blocks, bs))
  {
    if blocks != [] {
      EntryListsShape(blocks[1..], bs);
    }
  }

  /** All entries of a directory. */
  function AllEntries(lists: seq<seq<Entry>>): seq<Entry> {
    if lists == [] then [] else lists[0] + AllEntries(lists[1..])
  }

  /** The entries that survive: each block's first entry overwrites the last one of the block before. */
  function Surviving(lists: seq<seq<Entry>>): seq<Entry>
    requires NoneEmpty(lists)
  {
    if |lists| <= 1 then AllEntries(lists) else lists[0][..|lists[0]| - 1] + Surviving(lists[1..])
  }

  /** The list when each block puts its entries in the place of the last node. */
  function Overwritten(lists: seq<seq<Entry>>, list: seq<Entry>): seq<Entry>
    requires NoneEmpty(lists) && list != []
  {
    if lists == [] then list else Overwritten(lists[1..], list[..|list| - 1] + lists[0])
  }

  lemma {:induction false} ScannedAllIs(blocks: seq<DirBlock>, bs: nat, list: seq<Entry>, blank: Entry)
    requires AllWellFormed(blocks, bs) && list != []
    ensures AllReadable(blocks, bs) && NoneEmpty(EntryLists(blocks, bs))
    ensures ScannedAll(blocks, bs, list, blank) == Overwritten(EntryLists(blocks, bs), list)
    decreases |blocks|
  {
    EntryListsShape(blocks, bs);
    if blocks != [] {
      ScannedIs(blocks[0], 0, bs, list, blank);
      ScannedAllIs(blocks[1..], bs, list[..|list| - 1] + BlockEntries(blocks[0], 0, bs), blank);
      assert EntryLists(blocks, bs)[1..] == EntryLists(blocks[1..], bs);
    }
  }

  lemma {:induction false} OverwrittenIs(lists: seq<seq<Entry>>, list: seq<Entry>)
    requires NoneEmpty(lists) && list != []
    ensures Overwritten(lists, list) == if lists == [] then list else list[..|list| - 1] + Surviving(lists)
    decreases |lists|
  {
    if lists != [] {
      var front := list[..|list| - 1];
      OverwrittenIs(lists[1..], front + lists[0]);
      if |lists| == 1 {
        assert AllEntries(lists) == lists[0];
      } else {
        GiveWay(front, lists[0], Surviving(lists[1..]));
      }
    }
  }

  lemma {:induction false} OneLostPerBlock(lists: seq<seq<Entry>>)
    requires NoneEmpty(lists) && lists != []
    ensures |Surviving(lists)| + (|lists| - 1) == |AllEntries(lists)|
  {
    if |lists| > 1 {
      OneLostPerBlock(lists[1..]);
    }
  }

  /** The listing of a directory in the ext2 format holds the surviving entries, and these are all entries
      if and only if the directory has one block. */
  lemma ListingIsCompleteForOneBlock(blocks: seq<DirBlock>, bs: nat, blank: Entry)
    requires AllWellFormed(blocks, bs) && blocks != []
    ensures AllReadable(blocks, bs) && NoneEmpty(EntryLists(blocks, bs))
    ensures DirListing(blocks, bs, blank) == Surviving(EntryLists(blocks, bs))
    ensures DirListing(blocks, bs, blank) == AllEntries(EntryLists(blocks, bs)) <==> |blocks| == 1
  {
    var lists := EntryLists(blocks, bs);
    EntryListsShape(blocks, bs);
    ScannedAllIs(blocks, bs, [blank], blank);
    OverwrittenIs(lists, [blank]);
    assert [blank][..0] + Surviving(lists) == Surviving(lists);
    OneLostPerBlock(lists);
  }

  /** A block of one record: a file `a` in inode 12, up to the end of the block. */
  function OneRecordByte(x: nat): Byte {
    match x
    case 0 => 12
    case 5 => 4
    case 6 => 1
    case 7 => 1
    case 8 => 'a' as nat
    case _ => 0
  }

  function OneRecord(): DirBlock {
    seq<Byte>(BUFFER, x requires 0 <= x => OneRecordByte(x))
  }

  lemma OneRecordIs()
    ensures WellFormed(OneRecord(), 0, 1024)
    ensures BlockEntries(OneRecord(), 0, 1024) == [EntryOf(RecordAt(OneRecord(), 0))]
  {
    assert RecordAt(OneRecord(), 0).recLen == 1024;
  }

  /** Of two such blocks, one entry is listed. */
  lemma SecondBlockOverwrites(blank: Entry)
    ensures var blocks := [OneRecord(), OneRecord()];
            && AllWellFormed(blocks, 1024) && |AllEntries(EntryLists(blocks, 1024))| == 2
            && AllReadable(blocks, 1024) && |DirListing(blocks, 1024, blank)| == 1
  {
    var blocks := [OneRecord(), OneRecord()];
    OneRecordIs();
    assert blocks[1..] == [OneRecord()] && blocks[1..][1..] == [];
    var one := BlockEntries(OneRecord(), 0, 1024);
    assert EntryLists(blocks[1..], 1024) == [one] && EntryLists(blocks, 1024) == [one, one];
    ListingIsCompleteForOneBlock(blocks, 1024, blank);
    OneLostPerBlock([one, one]);
    assert AllEntries([one, one]) == one + AllEntries([one]) && AllEntries([one]) == one + [];
  }
}
