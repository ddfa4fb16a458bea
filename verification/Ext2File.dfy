/**
ext2_rd_file: copying the blocks of a file to memory, for the three block sizes and with the doubly indirect
branch as it is written.  A block is read into the front of a 4096-byte buffer and the whole buffer is copied.
*/
module Ext2File {
  import opened Disks

  const BUFFER: nat := 4096
  const DIRECT: nat := 12

  type BlockSize = n: nat | n == 1024 || n == 2048 || n == 4096 witness 1024

  /** Block numbers that one block holds. */
  function PerBlock(bs: BlockSize): (n: nat)
    ensures 256 <= n <= 1024 && 4 * n == bs
  {
    bs / 4
  }

  // Multiples and quotients of the block size, by cases to keep them linear.

  /** (bs / 512) * b */
  function FirstSector(bs: BlockSize, b: nat): nat {
    if bs == 1024 then 2 * b else if bs == 2048 then 4 * b else 8 * b
  }

  /** x / bs */
  function BlockOf(bs: BlockSize, x: nat): (k: nat)
    ensures k == 0 <==> x < bs
  {
    if bs == 1024 then x / 1024 else if bs == 2048 then x / 2048 else x / 4096
  }

  /** x % bs */
  function OffsetOf(bs: BlockSize, x: nat): (r: nat)
    ensures r < bs && (x < bs ==> r == x) && r == x % bs
  {
    if bs == 1024 then x % 1024 else if bs == 2048 then x % 2048 else x % 4096
  }

  /** The inode fields in use: size in bytes, block numbers, zero for none. */
  datatype RawInode = Inode(size: nat, blocks: seq<nat>)

  type Inode = i: RawInode | |i.blocks| == 15 witness Inode(0, seq(15, _ => 0))

  /** A file system: the drive, its first sector there, and its block size. */
  datatype Partition = Partition(disk: Disk, lba: nat, blockSize: BlockSize)

  /** Block `b`: two, four or eight consecutive sectors. */
  function Block(p: Partition, b: nat): (s: seq<Byte>)
    ensures |s| == p.blockSize
  {
    seq(p.blockSize, x requires 0 <= x => p.disk(p.lba + FirstSector(p.blockSize, b) + x / SECTOR)[x % SECTOR])
  }

  /** Byte `y` of the partition. */
  function PartitionByte(p: Partition, y: nat): Byte {
    p.disk(p.lba + y / 512)[y % 512]
  }

  /** Block `b` holds the bytes of the partition from b * blockSize on. */
  lemma BlockByte(p: Partition, b: nat, x: nat)
    requires x < p.blockSize
    ensures Block(p, b)[x] == PartitionByte(p, b * p.blockSize + x)
  {
    SectorOfByte(p.blockSize, b, x);
  }

  lemma SectorOfByte(bs: BlockSize, b: nat, x: nat)
    requires x < bs
    ensures (b * bs + x) / 512 == FirstSector(bs, b) + x / 512 && (b * bs + x) % 512 == x % 512
  {
    if bs == 1024 {
      assert b * bs + x == 512 * (2 * b) + x;
    } else if bs == 2048 {
      assert b * bs + x == 512 * (4 * b) + x;
    } else {
      assert b * bs + x == 512 * (8 * b) + x;
    }
  }

  lemma BlockOfIs(bs: BlockSize, x: nat)
    ensures BlockOf(bs, x) == x / bs && OffsetOf(bs, x) == x % bs
  {}

  /** The block numbers in block `b`. */
  function Entries(p: Partition, b: nat): (r: seq<nat>)
    ensures |r| == PerBlock(p.blockSize)
  {
    WordsOf(Block(p, b), PerBlock(p.blockSize))
  }

  /** The first `n` little-endian words of a table. */
  function WordsOf(table: seq<Byte>, n: nat): (r: seq<nat>)
    requires 4 * n <= |table|
    ensures |r| == n
  {
    if n == 0 then [] else WordsOf(table, n - 1) + [EntryAt(table, n - 1)]
  }

  lemma {:induction false} WordsAt(table: seq<Byte>, n: nat, j: nat)
    requires 4 * n <= |table| && j < n
    ensures WordsOf(table, n)[j] == EntryAt(table, j)
  {
    if j < n - 1 {
      WordsAt(table, n - 1, j);
    }
  }

  function Repeat(b: nat, n: nat): (r: seq<nat>)
    ensures |r| == n && forall j :: 0 <= j < n ==> r[j] == b
  {
    seq(n, _ => b)
  }

  // ---------- the file ----------

  /** The part of a block map behind a table pointer; no pointer stands for holes. */
  function Mapped(p: Partition, b: nat): (r: seq<nat>)
    ensures |r| == PerBlock(p.blockSize)
  {
    if b == 0 then Repeat(0, PerBlock(p.blockSize)) else Entries(p, b)
  }

  function MappedTwice(p: Partition, tables: seq<nat>): seq<nat> {
    if tables == [] then [] else Mapped(p, tables[0]) + MappedTwice(p, tables[1..])
  }

  /** The ext2 block map: direct, singly and doubly indirect block numbers in logical order. */
  function BlockMap(p: Partition, i: Inode): (r: seq<nat>)
    ensures |r| >= DIRECT + PerBlock(p.blockSize)
  {
    i.blocks[..DIRECT] + Mapped(p, i.blocks[DIRECT]) + MappedTwice(p, Mapped(p, i.blocks[DIRECT + 1]))
  }

  /** Blocks that can be reached without triple indirection. */
  function MapLength(bs: BlockSize): nat {
    DIRECT + PerBlock(bs) + if bs == 1024 then 0x1_0000 else if bs == 2048 then 0x4_0000 else 0x10_0000
  }

  function Product(a: nat, n: nat): nat {
    if a == 0 then 0 else Product(a - 1, n) + n
  }

  lemma {:induction false} ProductIs(a: nat, n: nat)
    ensures Product(a, n) == a * n
  {
    if a > 0 {
      ProductIs(a - 1, n);
    }
  }

  lemma {:induction false} MappedTwiceLength(p: Partition, tables: seq<nat>)
    ensures |MappedTwice(p, tables)| == Product(|tables|, PerBlock(p.blockSize))
  {
    if tables != [] {
      MappedTwiceLength(p, tables[1..]);
    }
  }

  lemma SquareIs(n: nat)
    requires n == 256 || n == 512 || n == 1024
    ensures Product(n, n) == if n == 256 then 0x1_0000 else if n == 512 then 0x4_0000 else 0x10_0000
  {
    ProductIs(n, n);
  }

  lemma BlockMapLength(p: Partition, i: Inode)
    ensures |BlockMap(p, i)| == MapLength(p.blockSize)
  {
    var twice := MappedTwice(p, Mapped(p, i.blocks[DIRECT + 1]));
    MappedTwiceLength(p, Mapped(p, i.blocks[DIRECT + 1]));
    SquareIs(PerBlock(p.blockSize));
    assert |BlockMap(p, i)| == DIRECT + PerBlock(p.blockSize) + |twice|;
  }

  /** Blocks a size takes. */
  function BlocksFor(bs: BlockSize, size: nat): nat {
    BlockOf(bs, size + bs - 1)
  }

  /** Up to the end of the file exactly these blocks are holes. */
  ghost predicate HolesAre(p: Partition, i: Inode, holes: set<nat>) {
    var numbers, n := BlockMap(p, i), BlocksFor(p.blockSize, i.size);
    n <= |numbers| && forall k :: 0 <= k < n ==> (numbers[k] == 0 <==> k in holes)
  }

  ghost predicate MappedUpTo(numbers: seq<nat>, n: nat) {
    n <= |numbers| && forall k :: 0 <= k < n ==> numbers[k] != 0
  }

  /** Byte `x` of the file, under its block map; holes read as zeros. */
  function FileByte(p: Partition, numbers: seq<nat>, x: nat): Byte
    requires BlockOf(p.blockSize, x) < |numbers|
  {
    var b := numbers[BlockOf(p.blockSize, x)];
    if b == 0 then 0 else Block(p, b)[OffsetOf(p.blockSize, x)]
  }

  // ---------- what the code copies ----------

  /** What stands in the buffer behind a block; no read ever reaches it. */
  predicate TailOk(p: Partition, tail: seq<Byte>) {
    |tail| == BUFFER - p.blockSize
  }

  /** The buffer after each of the reads, one after the other. */
  function Data(p: Partition, tail: seq<Byte>, numbers: seq<nat>): (s: seq<Byte>)
    requires TailOk(p, tail)
    ensures |s| == BUFFER * |numbers|
  {
    if numbers == [] then []
    else Data(p, tail, numbers[..|numbers| - 1]) + (Block(p, numbers[|numbers| - 1]) + tail)
  }

  /** The direct blocks that are there, in order; missing ones are skipped. */
  function Present(blocks: seq<nat>): (r: seq<nat>)
    ensures |r| <= |blocks|
  {
    if blocks == [] then []
    else
      var last := blocks[|blocks| - 1];
      Present(blocks[..|blocks| - 1]) + if last != 0 then [last] else []
  }

  /** Every slot of the table, if there is one. */
  function Slots(p: Partition, b: nat): (r: seq<nat>)
    ensures |r| <= PerBlock(p.blockSize)
  {
    if b == 0 then [] else Entries(p, b)
  }

  /** Each block of the list, n times. */
  function EachTimes(tables: seq<nat>, n: nat): seq<nat> {
    if tables == [] then []
    else EachTimes(tables[..|tables| - 1], n) + Repeat(tables[|tables| - 1], n)
  }

  /** The blocks the code copies.  In the doubly indirect branch it reads the second-level table itself,
      once for each of its slots, where the data block belongs. */
  function ReadOrder(p: Partition, i: Inode): seq<nat> {
    Present(i.blocks[..DIRECT]) + Slots(p, i.blocks[DIRECT]) +
    EachTimes(Slots(p, i.blocks[DIRECT + 1]), PerBlock(p.blockSize))
  }

  // ---------- the code ----------

  /** ext2_rd_block into the front of a buffer. */
  method RdBlock(p: Partition, b: nat, buf: array<Byte>)
    requires buf.Length == BUFFER
    modifies buf
    ensures buf[..] == Block(p, b) + old(buf[p.blockSize..])
  {
    var block := Block(p, b);
    forall x | 0 <= x < |block| {
      buf[x] := block[x];
    }
  }

  /** The loop that copies the buffer to memory. */
  method CopyBuffer(mem: array<Byte>, at: nat, databuf: array<Byte>)
    requires databuf.Length == BUFFER && at + BUFFER <= mem.Length && mem != databuf
    modifies mem
    ensures mem[at..at + BUFFER] == databuf[..]
    ensures forall j :: 0 <= j < mem.Length && !(at <= j < at + BUFFER) ==> mem[j] == old(mem[j])
  {
    var index := 0;
    while index < BUFFER
      invariant 0 <= index <= BUFFER
      invariant forall j :: 0 <= j < index ==> mem[at + j] == databuf[j]
      invariant forall j :: 0 <= j < mem.Length && !(at <= j < at + index) ==> mem[j] == old(mem[j])
    {
      mem[at + index] := databuf[index];
      index := index + 1;
    }
  }

  /** Memory up to `at` holds the blocks copied so far, and the buffer still ends in its first tail. */
  ghost predicate Copied(p: Partition, tail: seq<Byte>, mem: seq<Byte>, databuf: seq<Byte>, at: nat, order: seq<nat>) {
    && TailOk(p, tail) && |databuf| == BUFFER && databuf[p.blockSize..] == tail
    && at == BUFFER * |order| <= |mem| && mem[..at] == Data(p, tail, order)
  }

  /** Reads one more block behind those already in memory. */
  method AppendBlock(p: Partition, b: nat, databuf: array<Byte>, mem: array<Byte>, at: nat,
                     ghost tail: seq<Byte>, ghost order: seq<nat>) returns (next: nat)
    requires Copied(p, tail, mem[..], databuf[..], at, order) && at + BUFFER <= mem.Length && mem != databuf
    modifies mem, databuf
    ensures Copied(p, tail, mem[..], databuf[..], next, order + [b])
  {
    RdBlock(p, b, databuf);
    ghost var done := mem[..at];
    CopyBuffer(mem, at, databuf);
    next := at + BUFFER;
    assert (order + [b])[..|order|] == order;
    assert mem[..next] == done + mem[at..next];
    assert databuf[..][p.blockSize..] == tail;
  }

  method RdDirect(p: Partition, intab: Inode, databuf: array<Byte>, mem: array<Byte>, ghost tail: seq<Byte>)
      returns (memloc: nat)
    requires Copied(p, tail, mem[..], databuf[..], 0, []) && mem != databuf
    requires mem.Length >= BUFFER * |Present(intab.blocks[..DIRECT])|
    modifies mem, databuf
    ensures Copied(p, tail, mem[..], databuf[..], memloc, Present(intab.blocks[..DIRECT]))
  {
    memloc := 0;
    ghost var direct, order: seq<nat> := intab.blocks[..DIRECT], [];
    var k := 0;
    while k < DIRECT
      invariant 0 <= k <= DIRECT && order == Present(direct[..k])
      invariant Copied(p, tail, mem[..], databuf[..], memloc, order)
    {
      PresentStep(direct, k);
      if intab.blocks[k] != 0 {
        memloc := AppendBlock(p, intab.blocks[k], databuf, mem, memloc, tail, order);
        order := order + [intab.blocks[k]];
      }
      k := k + 1;
    }
    assert direct[..k] == direct;
  }

  lemma {:induction false} PresentStep(blocks: seq<nat>, k: nat)
    requires k < |blocks|
    ensures Present(blocks[..k + 1]) == Present(blocks[..k]) + if blocks[k] != 0 then [blocks[k]] else []
    ensures |Present(blocks[..k + 1])| <= |Present(blocks)|
    decreases |blocks|
  {
    assert blocks[..k + 1][..k] == blocks[..k];
    if k + 1 == |blocks| {
      assert blocks[..k + 1] == blocks;
    } else {
      var front := blocks[..|blocks| - 1];
      PresentStep(front, k);
      assert front[..k + 1] == blocks[..k + 1] && front[..k] == blocks[..k];
    }
  }

  /** Reads the blocks of an indirect table, all of its slots. */
  method RdIndirect(p: Partition, entries: seq<nat>, databuf: array<Byte>, mem: array<Byte>, at: nat,
                    ghost tail: seq<Byte>, ghost before: seq<nat>) returns (memloc: nat)
    requires Copied(p, tail, mem[..], databuf[..], at, before) && mem != databuf
    requires mem.Length >= BUFFER * |before + entries|
    modifies mem, databuf
    ensures Copied(p, tail, mem[..], databuf[..], memloc, before + entries)
  {
    memloc := at;
    var j := 0;
    assert before + entries[..0] == before;
    while j < |entries|
      invariant 0 <= j <= |entries|
      invariant Copied(p, tail, mem[..], databuf[..], memloc, before + entries[..j])
    {
      assert before + entries[..j + 1] == before + entries[..j] + [entries[j]];
      memloc := AppendBlock(p, entries[j], databuf, mem, memloc, tail, before + entries[..j]);
      j := j + 1;
    }
    assert entries[..j] == entries;
  }

  /** The inner loop of the doubly indirect branch: `dind` moves through the table just read, but the
      block read next is that of `sind`, which stays. */
  method RdSameBlock(p: Partition, siblock: nat, indirect2buf: seq<Byte>, diblock0: nat, databuf: array<Byte>,
                     mem: array<Byte>, at: nat, ghost tail: seq<Byte>, ghost before: seq<nat>)
      returns (memloc: nat, diblock: nat)
    requires Copied(p, tail, mem[..], databuf[..], at, before) && mem != databuf && |indirect2buf| == p.blockSize
    requires mem.Length >= BUFFER * |before + Repeat(siblock, PerBlock(p.blockSize))|
    modifies mem, databuf
    ensures Copied(p, tail, mem[..], databuf[..], memloc, before + Repeat(siblock, PerBlock(p.blockSize)))
  {
    memloc, diblock := at, diblock0;
    var l := 0;
    assert before + Repeat(siblock, 0) == before;
    while l < PerBlock(p.blockSize)
      invariant 0 <= l <= PerBlock(p.blockSize)
      invariant Copied(p, tail, mem[..], databuf[..], memloc, before + Repeat(siblock, l))
    {
      diblock := EntryAt(indirect2buf, l);
      assert before + Repeat(siblock, l + 1) == before + Repeat(siblock, l) + [siblock];
      memloc := AppendBlock(p, siblock, databuf, mem, memloc, tail, before + Repeat(siblock, l));
      l := l + 1;
    }
  }

  /** The doubly indirect branch.  `dind0` is the block number that the pointer `dind` happens to show. */
  method RdDouble(p: Partition, entries: seq<nat>, dind0: nat, databuf: array<Byte>, mem: array<Byte>, at: nat,
                  ghost tail: seq<Byte>, ghost before: seq<nat>) returns (memloc: nat)
    requires Copied(p, tail, mem[..], databuf[..], at, before) && mem != databuf
    requires mem.Length >= BUFFER * |before + EachTimes(entries, PerBlock(p.blockSize))|
    modifies mem, databuf
    ensures Copied(p, tail, mem[..], databuf[..], memloc, before + EachTimes(entries, PerBlock(p.blockSize)))
  {
    memloc := at;
    var n := PerBlock(p.blockSize);
    var j, diblock := 0, dind0;
    assert before + EachTimes(entries[..0], n) == before;
    while j < |entries|
      invariant 0 <= j <= |entries|
      invariant Copied(p, tail, mem[..], databuf[..], memloc, before + EachTimes(entries[..j], n))
    {
      EachTimesStep(entries, j, n);
      ghost var order := before + EachTimes(entries[..j], n);
      assert before + EachTimes(entries[..j + 1], n) == order + Repeat(entries[j], n);
      var indirect2buf := Block(p, diblock);
      memloc, diblock := RdSameBlock(p, entries[j], indirect2buf, diblock, databuf, mem, memloc, tail, order);
      j := j + 1;
    }
    assert entries[..j] == entries;
  }

  lemma {:induction false} EachTimesStep(tables: seq<nat>, j: nat, n: nat)
    requires j < |tables|
    ensures EachTimes(tables[..j + 1], n) == EachTimes(tables[..j], n) + Repeat(tables[j], n)
    ensures |EachTimes(tables[..j + 1], n)| <= |EachTimes(tables, n)|
    decreases |tables|
  {
    assert tables[..j + 1][..j] == tables[..j];
    if j + 1 == |tables| {
      assert tables[..j + 1] == tables;
    } else {
      var front := tables[..|tables| - 1];
      EachTimesStep(front, j, n);
      assert front[..j + 1] == tables[..j + 1] && front[..j] == tables[..j];
    }
  }

  /** The whole function: `stale` is what the buffer on the stack held before. */
  method RdFile(p: Partition, intab: Inode, stale: seq<Byte>, dind0: nat, mem: array<Byte>) returns (memloc: nat)
    requires |stale| == BUFFER && mem.Length >= BUFFER * |ReadOrder(p, intab)|
    modifies mem
    ensures memloc == BUFFER * |ReadOrder(p, intab)|
    ensures mem[..memloc] == Data(p, stale[p.blockSize..], ReadOrder(p, intab))
  {
    ghost var tail := stale[p.blockSize..];
    var databuf := new Byte[BUFFER](x requires 0 <= x < BUFFER => stale[x]);
    assert databuf[..] == stale;
    ghost var direct, single := Present(intab.blocks[..DIRECT]), Slots(p, intab.blocks[DIRECT]);
    memloc := RdDirect(p, intab, databuf, mem, tail);
    if intab.blocks[DIRECT] != 0 {
      memloc := RdIndirect(p, Entries(p, intab.blocks[DIRECT]), databuf, mem, memloc, tail, direct);
    } else {
      assert direct + single == direct;
    }
    if intab.blocks[DIRECT + 1] != 0 {
      memloc := RdDouble(p, Entries(p, intab.blocks[DIRECT + 1]), dind0, databuf, mem, memloc, tail, direct + single);
    } else {
      assert EachTimes([], PerBlock(p.blockSize)) == [] && direct + single + [] == direct + single;
    }
  }

  // ---------- when what was read is the file ----------

  lemma {:induction false} DataAt(p: Partition, tail: seq<Byte>, numbers: seq<nat>, k: nat, off: nat)
    requires TailOk(p, tail) && k < |numbers| && off < BUFFER
    ensures BUFFER * k + off < |Data(p, tail, numbers)|
    ensures Data(p, tail, numbers)[BUFFER * k + off] == (Block(p, numbers[k]) + tail)[off]
    decreases |numbers|
  {
    if k < |numbers| - 1 {
      DataAt(p, tail, numbers[..|numbers| - 1], k, off);
    }
  }

  lemma {:induction false} PresentPrefix(blocks: seq<nat>, m: nat)
    requires m <= |blocks| && forall k :: 0 <= k < m ==> blocks[k] != 0
    ensures |Present(blocks)| >= m && Present(blocks)[..m] == blocks[..m]
    ensures m == |blocks| ==> Present(blocks) == blocks
    decreases |blocks|
  {
    if blocks != [] {
      var front := blocks[..|blocks| - 1];
      PresentPrefix(front, if m == |blocks| then m - 1 else m);
    }
  }

  /** Direct and singly indirect blocks, as read and as mapped. */
  lemma FrontNotSkipped(direct: seq<nat>, slots: seq<nat>, table: seq<nat>, n: nat)
    requires n <= |direct + table| && (forall k :: 0 <= k < n ==> (direct + table)[k] != 0)
    requires n > |direct| ==> slots == table
    ensures n <= |Present(direct) + slots|
    ensures forall k :: 0 <= k < n ==> (Present(direct) + slots)[k] == (direct + table)[k]
  {
    var m := if n < |direct| then n else |direct|;
    forall k | 0 <= k < m ensures direct[k] != 0 { assert (direct + table)[k] != 0; }
    PresentPrefix(direct, m);
    forall k | 0 <= k < n ensures (Present(direct) + slots)[k] == (direct + table)[k] {
      if k < m { assert Present(direct)[..m][k] == direct[..m][k]; }
    }
  }

  /** Both lists begin with the direct and singly indirect blocks. */
  lemma Fronts(p: Partition, i: Inode, k: nat)
    ensures var direct := i.blocks[..DIRECT];
            && (k < |direct + Mapped(p, i.blocks[DIRECT])| ==>
                  BlockMap(p, i)[k] == (direct + Mapped(p, i.blocks[DIRECT]))[k])
            && |Present(direct) + Slots(p, i.blocks[DIRECT])| <= |ReadOrder(p, i)|
            && (k < |Present(direct) + Slots(p, i.blocks[DIRECT])| ==>
                  ReadOrder(p, i)[k] == (Present(direct) + Slots(p, i.blocks[DIRECT]))[k])
  {}

  /** Up to the end of the singly indirect blocks a hole-free file is read in logical order. */
  lemma NothingSkipped(p: Partition, i: Inode, n: nat)
    requires MappedUpTo(BlockMap(p, i), n) && n <= DIRECT + PerBlock(p.blockSize)
    ensures n <= |ReadOrder(p, i)| && forall k :: 0 <= k < n ==> ReadOrder(p, i)[k] == BlockMap(p, i)[k]
  {
    var direct, table := i.blocks[..DIRECT], Mapped(p, i.blocks[DIRECT]);
    var slots, numbers, order := Slots(p, i.blocks[DIRECT]), BlockMap(p, i), ReadOrder(p, i);
    forall k | 0 <= k < n ensures (direct + table)[k] == numbers[k] && (direct + table)[k] != 0 { Fronts(p, i, k); }
    if n > DIRECT {
      assert (direct + table)[DIRECT] == table[0];
      assert slots == table;
    }
    FrontNotSkipped(direct, slots, table, n);
    Fronts(p, i, 0);
    forall k | 0 <= k < n ensures order[k] == numbers[k] { Fronts(p, i, k); }
  }

  /** Sizes the code reads correctly: one block, or with full-size blocks all that needs no double indirection. */
  predicate Readable(bs: BlockSize, size: nat) {
    size <= bs || (bs == BUFFER && size <= BUFFER * (DIRECT + PerBlock(BUFFER)))
  }

  /** Byte `x` in memory is that of the file. */
  ghost predicate ByteReadsBack(p: Partition, data: seq<Byte>, numbers: seq<nat>, x: nat) {
    x < |data| && BlockOf(p.blockSize, x) < |numbers| && data[x] == FileByte(p, numbers, x)
  }

  /** The first bytes in memory are those of the file. */
  ghost predicate ReadsBack(p: Partition, tail: seq<Byte>, i: Inode)
    requires TailOk(p, tail)
  {
    forall x: nat :: x < i.size ==> ByteReadsBack(p, Data(p, tail, ReadOrder(p, i)), BlockMap(p, i), x)
  }

  lemma BlockOfByte(bs: BlockSize, size: nat, x: nat)
    requires x < size
    ensures BlockOf(bs, x) < BlocksFor(bs, size)
  {}

  lemma BlocksOfReadable(bs: BlockSize, size: nat)
    requires Readable(bs, size)
    ensures BlocksFor(bs, size) <= DIRECT + PerBlock(bs)
  {}

  /** Where a byte of a readable file stands in memory. */
  lemma PlaceOfByte(bs: BlockSize, size: nat, x: nat)
    requires Readable(bs, size) && x < size
    ensures x == BUFFER * BlockOf(bs, x) + OffsetOf(bs, x)
  {}

  lemma InFront(a: seq<Byte>, b: seq<Byte>, off: nat)
    requires off < |a|
    ensures (a + b)[off] == a[off]
  {}

  /** Blocks copied in logical order put the bytes of a readable file in their places. */
  lemma InOrderReadsBack(p: Partition, tail: seq<Byte>, order: seq<nat>, numbers: seq<nat>, size: nat, x: nat)
    requires TailOk(p, tail) && Readable(p.blockSize, size) && x < size
    requires BlocksFor(p.blockSize, size) <= |order| && BlocksFor(p.blockSize, size) <= |numbers|
    requires forall k :: 0 <= k < BlocksFor(p.blockSize, size) ==> order[k] == numbers[k] != 0
    ensures ByteReadsBack(p, Data(p, tail, order), numbers, x)
  {
    var k, off := BlockOf(p.blockSize, x), OffsetOf(p.blockSize, x);
    BlockOfByte(p.blockSize, size, x);
    PlaceOfByte(p.blockSize, size, x);
    DataAt(p, tail, order, k, off);
    InFront(Block(p, order[k]), tail, off);
  }

  /** No block of the file is a hole. */
  ghost predicate NoneBelow(holes: set<nat>, n: nat) {
    forall k :: k in holes ==> k >= n
  }

  lemma ReadableIsRead(p: Partition, tail: seq<Byte>, i: Inode, holes: set<nat>)
    requires TailOk(p, tail) && HolesAre(p, i, holes)
    requires Readable(p.blockSize, i.size) && NoneBelow(holes, BlocksFor(p.blockSize, i.size))
    ensures ReadsBack(p, tail, i)
  {
    var order, numbers := ReadOrder(p, i), BlockMap(p, i);
    BlocksOfReadable(p.blockSize, i.size);
    NothingSkipped(p, i, BlocksFor(p.blockSize, i.size));
    forall x: nat | x < i.size ensures ByteReadsBack(p, Data(p, tail, order), numbers, x) {
      InOrderReadsBack(p, tail, order, numbers, i.size, x);
    }
  }

  /** Where byte `off` of block `b` lies on the partition. */
  function PlaceOf(bs: BlockSize, b: nat, off: nat): nat {
    b * bs + off
  }

  lemma MappedByte(p: Partition, numbers: seq<nat>, x: nat)
    requires BlockOf(p.blockSize, x) < |numbers| && numbers[BlockOf(p.blockSize, x)] != 0
    ensures FileByte(p, numbers, x) ==
            PartitionByte(p, PlaceOf(p.blockSize, numbers[BlockOf(p.blockSize, x)], OffsetOf(p.blockSize, x)))
  {
    BlockByte(p, numbers[BlockOf(p.blockSize, x)], OffsetOf(p.blockSize, x));
  }

  /** In bytes: byte `x` of the file is byte x % blockSize of the block that the map gives for x / blockSize. */
  lemma FileIsRead(p: Partition, tail: seq<Byte>, i: Inode, holes: set<nat>, x: nat)
    requires TailOk(p, tail) && HolesAre(p, i, holes) && x < i.size
    requires Readable(p.blockSize, i.size) && NoneBelow(holes, BlocksFor(p.blockSize, i.size))
    ensures BlockOf(p.blockSize, x) == x / p.blockSize && OffsetOf(p.blockSize, x) == x % p.blockSize
    ensures var data, numbers, k := Data(p, tail, ReadOrder(p, i)), BlockMap(p, i), BlockOf(p.blockSize, x);
            && x < |data| && k < |numbers|
            && data[x] == PartitionByte(p, PlaceOf(p.blockSize, numbers[k], OffsetOf(p.blockSize, x)))
  {
    ReadableIsRead(p, tail, i, holes);
    assert ByteReadsBack(p, Data(p, tail, ReadOrder(p, i)), BlockMap(p, i), x);
    BlockOfIs(p.blockSize, x);
    BlockOfByte(p.blockSize, i.size, x);
    assert BlockMap(p, i)[BlockOf(p.blockSize, x)] != 0;
    MappedByte(p, BlockMap(p, i), x);
  }

  // ---------- the reading order, by positions ----------

  function CountPresent(blocks: seq<nat>): nat {
    if blocks == [] then 0 else CountPresent(blocks[..|blocks| - 1]) + if blocks[|blocks| - 1] != 0 then 1 else 0
  }

  /** Each block that is there is read behind those in front of it, and no other ones are. */
  lemma {:induction false} PresentAt(blocks: seq<nat>, k: nat)
    requires k < |blocks| && blocks[k] != 0
    ensures |Present(blocks)| == CountPresent(blocks) && CountPresent(blocks[..k]) < |Present(blocks)|
    ensures Present(blocks)[CountPresent(blocks[..k])] == blocks[k]
    decreases |blocks|
  {
    var front := blocks[..|blocks| - 1];
    PresentCount(front);
    if k < |blocks| - 1 {
      PresentAt(front, k);
      assert front[..k] == blocks[..k];
    }
  }

  lemma {:induction false} PresentCount(blocks: seq<nat>)
    ensures |Present(blocks)| == CountPresent(blocks)
  {
    if blocks != [] {
      PresentCount(blocks[..|blocks| - 1]);
    }
  }

  /** In the doubly indirect part, table `j` is read n times in a row. */
  lemma {:induction false} EachTimesAt(tables: seq<nat>, n: nat, j: nat, l: nat)
    requires j < |tables| && l < n
    ensures |EachTimes(tables, n)| == Product(|tables|, n) && Product(j, n) + l < Product(|tables|, n)
    ensures EachTimes(tables, n)[Product(j, n) + l] == tables[j]
    decreases |tables|
  {
    var front := tables[..|tables| - 1];
    EachTimesLength(front, n);
    if j < |tables| - 1 {
      EachTimesAt(front, n, j, l);
    }
  }

  lemma {:induction false} EachTimesLength(tables: seq<nat>, n: nat)
    ensures |EachTimes(tables, n)| == Product(|tables|, n)
  {
    if tables != [] {
      EachTimesLength(tables[..|tables| - 1], n);
    }
  }

  lemma OrderParts(p: Partition, i: Inode)
    ensures ReadOrder(p, i) == Present(i.blocks[..12]) + Slots(p, i.blocks[12]) +
                               EachTimes(Slots(p, i.blocks[13]), PerBlock(p.blockSize))
  {}

  lemma SlotsAt(p: Partition, b: nat, j: nat)
    requires b != 0 && j < PerBlock(p.blockSize)
    ensures |Slots(p, b)| == PerBlock(p.blockSize) && Slots(p, b)[j] == EntryAt(Block(p, b), j)
  {
    WordsAt(Block(p, b), PerBlock(p.blockSize), j);
  }

  /** Behind the direct and singly indirect blocks stand the tables that block 13 of the inode lists, each as often as
      a table has entries. */
  lemma DoublyRead(p: Partition, i: Inode, j: nat, l: nat, k: nat)
    requires i.blocks[13] != 0 && j < PerBlock(p.blockSize) && l < PerBlock(p.blockSize)
    requires k == Product(j, PerBlock(p.blockSize)) + l
    ensures var order, at := ReadOrder(p, i), |Present(i.blocks[..12])| + |Slots(p, i.blocks[12])| + k;
            at < |order| && order[at] == EntryAt(Block(p, i.blocks[13]), j)
  {
    OrderParts(p, i);
    SlotsAt(p, i.blocks[13], j);
    TableBehind(ReadOrder(p, i), Present(i.blocks[..12]), Slots(p, i.blocks[12]), Slots(p, i.blocks[13]),
                PerBlock(p.blockSize), j, l, k);
  }

  lemma TableBehind(order: seq<nat>, a: seq<nat>, b: seq<nat>, tables: seq<nat>, n: nat, j: nat, l: nat, k: nat)
    requires order == a + b + EachTimes(tables, n) && j < |tables| && l < n && k == Product(j, n) + l
    ensures |a| + |b| + k < |order| && order[|a| + |b| + k] == tables[j]
  {
    EachTimesAt(tables, n, j, l);
    BehindBoth(order, a, b, EachTimes(tables, n), k, tables[j]);
  }

  lemma BehindBoth(order: seq<nat>, a: seq<nat>, b: seq<nat>, c: seq<nat>, k: nat, t: nat)
    requires order == a + b + c && k < |c| && c[k] == t
    ensures |a| + |b| + k < |order| && order[|a| + |b| + k] == t
  {}

  function Zeros(n: nat): (s: seq<Byte>)
    ensures |s| == n && forall x :: 0 <= x < n ==> s[x] == 0
  {
    seq(n, _ => 0)
  }
}
