/**
Holes in ext2 files: for every set of holes a partition with such a file, and on which sizes and holes the code
reads every file as it is.
*/
module Ext2Holes {
  import opened Disks
  import opened Ext2File

  /** All blocks of the file that are no holes are block 1. */
  function Mark(holes: set<nat>, k: nat): nat {
    if k in holes then 0 else 1
  }

  const SINGLE: nat := 2
  const DOUBLE: nat := 3
  const TABLES: nat := 4

  /** Entry `j` of block `b`: the singly indirect table, the doubly indirect one, and the tables it lists. */
  function TableEntry(bs: BlockSize, holes: set<nat>, b: nat, j: nat): nat {
    if b == SINGLE then Mark(holes, DIRECT + j)
    else if b == DOUBLE then (TABLES + j) % 0x1_0000
    else if b >= TABLES then Mark(holes, DIRECT + PerBlock(bs) + Product(b - TABLES, PerBlock(bs)) + j)
    else 0
  }

  function EntryByte(e: nat, o: nat): Byte {
    if o == 0 then e % 0x100 else if o == 1 then e / 0x100 % 0x100 else 0
  }

  /** Byte `x` of block `b`; block 0 is not empty, either. */
  function HoledByte(bs: BlockSize, holes: set<nat>, b: nat, x: nat): Byte {
    if b == 0 then 9 else if b == 1 then 7 else EntryByte(TableEntry(bs, holes, b, x / 4), x % 4)
  }

  function BlockOfSector(bs: BlockSize, s: nat): nat {
    if bs == 1024 then s / 2 else if bs == 2048 then s / 4 else s / 8
  }

  function SectorInBlock(bs: BlockSize, s: nat): nat {
    if bs == 1024 then s % 2 else if bs == 2048 then s % 4 else s % 8
  }

  /** The sectors of blocks whose byte `x` is f(b, x). */
  function SectorOf(bs: BlockSize, f: (nat, nat) -> Byte, s: nat): Sector {
    seq<Byte>(SECTOR, y requires 0 <= y < SECTOR => SectorByte(bs, f, s, y))
  }

  function SectorByte(bs: BlockSize, f: (nat, nat) -> Byte, s: nat, y: nat): Byte {
    f(BlockOfSector(bs, s), SECTOR * SectorInBlock(bs, s) + y)
  }

  function Made(bs: BlockSize, f: (nat, nat) -> Byte): Partition {
    Partition((s: nat) => SectorOf(bs, f, s), 0, bs)
  }

  function Holed(bs: BlockSize, holes: set<nat>): Partition {
    Made(bs, (b: nat, x: nat) => HoledByte(bs, holes, b, x))
  }

  /** Without a doubly indirect table, the blocks behind are holes. */
  function HoledInode(size: nat, holes: set<nat>, double: bool): Inode {
    Inode(size, Direct(holes) + [SINGLE, if double then DOUBLE else 0, 0])
  }

  function Direct(holes: set<nat>): (r: seq<nat>)
    ensures |r| == DIRECT && forall k :: 0 <= k < DIRECT ==> r[k] == Mark(holes, k)
  {
    seq(DIRECT, k requires 0 <= k => Mark(holes, k))
  }

  lemma SectorIs(bs: BlockSize, b: nat, s: nat)
    requires SECTOR * s < bs
    ensures BlockOfSector(bs, FirstSector(bs, b) + s) == b && SectorInBlock(bs, FirstSector(bs, b) + s) == s
  {}

  lemma MadeByte(bs: BlockSize, f: (nat, nat) -> Byte, b: nat, x: nat)
    requires x < bs
    ensures Block(Made(bs, f), b)[x] == f(b, x)
  {
    SectorIs(bs, b, x / SECTOR);
    assert SECTOR * (x / SECTOR) + x % SECTOR == x;
  }

  lemma HoledBlockByte(bs: BlockSize, holes: set<nat>, b: nat, x: nat)
    requires x < bs
    ensures Block(Holed(bs, holes), b)[x] == HoledByte(bs, holes, b, x)
  {
    MadeByte(bs, (b: nat, x: nat) => HoledByte(bs, holes, b, x), b, x);
  }

  lemma EntryOfBytes(table: seq<Byte>, j: nat, e: nat)
    requires 4 * j + 3 < |table| && e < 0x1_0000
    requires forall o :: 0 <= o < 4 ==> table[4 * j + o] == EntryByte(e, o)
    ensures EntryAt(table, j) == e
  {
    assert table[4 * j] == table[4 * j + 0] == EntryByte(e, 0);
    assert table[4 * j + 1] == EntryByte(e, 1) && table[4 * j + 2] == EntryByte(e, 2);
    assert table[4 * j + 3] == EntryByte(e, 3);
  }

  lemma HoledTable(bs: BlockSize, holes: set<nat>, b: nat, table: seq<Byte>, j: nat)
    requires b >= SINGLE && j < PerBlock(bs) && |table| == bs
    requires forall x :: 0 <= x < bs ==> table[x] == HoledByte(bs, holes, b, x)
    ensures EntryAt(table, j) == TableEntry(bs, holes, b, j)
  {
    var e := TableEntry(bs, holes, b, j);
    forall o | 0 <= o < 4 ensures table[4 * j + o] == EntryByte(e, o) {
      assert (4 * j + o) / 4 == j && (4 * j + o) % 4 == o;
    }
    EntryOfBytes(table, j, e);
  }

  lemma HoledEntry(bs: BlockSize, holes: set<nat>, b: nat, j: nat)
    requires b >= SINGLE && j < PerBlock(bs)
    ensures Entries(Holed(bs, holes), b)[j] == TableEntry(bs, holes, b, j)
  {
    var table := Block(Holed(bs, holes), b);
    WordsAt(table, PerBlock(bs), j);
    forall x | 0 <= x < bs ensures table[x] == HoledByte(bs, holes, b, x) {
      HoledBlockByte(bs, holes, b, x);
    }
    HoledTable(bs, holes, b, table, j);
  }

  // ---------- its block map ----------

  /** What the proofs need to know of the partition. */
  ghost predicate IsHoled(p: Partition, holes: set<nat>) {
    && (forall b: nat, j: nat {:trigger EntryIs(p, holes, b, j)} :: EntryIs(p, holes, b, j))
    && FirstByte(p, 0) == 9 && FirstByte(p, 1) == 7 && forall b: nat :: b >= TABLES ==> FirstByte(p, b) <= 1
  }

  ghost predicate EntryIs(p: Partition, holes: set<nat>, b: nat, j: nat) {
    b >= SINGLE && j < PerBlock(p.blockSize) ==> Entries(p, b)[j] == TableEntry(p.blockSize, holes, b, j)
  }

  function FirstByte(p: Partition, b: nat): Byte {
    Block(p, b)[0]
  }

  lemma HoledIs(bs: BlockSize, holes: set<nat>)
    ensures IsHoled(Holed(bs, holes), holes)
  {
    var p := Holed(bs, holes);
    forall b: nat, j: nat ensures EntryIs(p, holes, b, j) {
      if b >= SINGLE && j < PerBlock(bs) {
        HoledEntry(bs, holes, b, j);
      }
    }
    HoledBlockByte(bs, holes, 0, 0);
    HoledBlockByte(bs, holes, 1, 0);
    forall b: nat | b >= TABLES ensures FirstByte(p, b) <= 1 {
      HoledBlockByte(bs, holes, b, 0);
    }
  }

  /** The numbers from `a` on. */
  function From(a: nat, m: nat): (r: seq<nat>)
    ensures |r| == m && forall j :: 0 <= j < m ==> r[j] == a + j
  {
    seq(m, j requires 0 <= j => a + j)
  }

  lemma DoubleLists(p: Partition, holes: set<nat>)
    requires IsHoled(p, holes)
    ensures Entries(p, DOUBLE) == From(TABLES, PerBlock(p.blockSize))
  {
    var r := Entries(p, DOUBLE);
    forall j | 0 <= j < PerBlock(p.blockSize) ensures r[j] == TABLES + j {
      assert EntryIs(p, holes, DOUBLE, j);
    }
  }

  /** The position of entry `j` of table `b` in the file. */
  function PositionOf(bs: BlockSize, b: nat, j: nat): nat
    requires b >= TABLES
  {
    DIRECT + PerBlock(bs) + Product(b - TABLES, PerBlock(bs)) + j
  }

  type Twice = (nat, nat) -> seq<nat>

  /** `twice(a, m)` is the part of the block map behind `m` tables from `a` on; where only this name is used, the
      definition behind it stays folded. */
  ghost predicate IsTwice(twice: Twice, p: Partition) {
    forall a: nat, m: nat {:trigger MappedTwice(p, From(a, m))} :: twice(a, m) == MappedTwice(p, From(a, m))
  }

  lemma TwiceStep(p: Partition, a: nat, m: nat)
    requires m > 0 && a > 0
    ensures MappedTwice(p, From(a, m)) == Entries(p, a) + MappedTwice(p, From(a + 1, m - 1))
  {
    assert From(a, m)[1..] == From(a + 1, m - 1);
  }

  lemma EmptyTwice(twice: Twice, p: Partition, a: nat)
    requires IsTwice(twice, p)
    ensures twice(a, 0) == []
  {
    assert MappedTwice(p, From(a, 0)) == [];
  }

  lemma InFirstOrRest(a: seq<nat>, b: seq<nat>, k: nat)
    requires k < |a + b|
    ensures (a + b)[k] == if k < |a| then a[k] else b[k - |a|]
  {}

  lemma TablesStep(twice: Twice, p: Partition, a: nat, m: nat, k: nat)
    requires IsTwice(twice, p) && m > 0 && a > 0 && k < |twice(a, m)|
    ensures var n := PerBlock(p.blockSize);
            if k < n then twice(a, m)[k] == Entries(p, a)[k]
            else k - n < |twice(a + 1, m - 1)| && twice(a, m)[k] == twice(a + 1, m - 1)[k - n]
  {
    TwiceStep(p, a, m);
    InFirstOrRest(Entries(p, a), twice(a + 1, m - 1), k) by {
      assert twice(a, m) == MappedTwice(p, From(a, m));
      assert twice(a + 1, m - 1) == MappedTwice(p, From(a + 1, m - 1));
    }
    assert twice(a, m) == Entries(p, a) + twice(a + 1, m - 1);
  }

  lemma TableMarks(p: Partition, holes: set<nat>, b: nat, j: nat)
    requires IsHoled(p, holes) && b >= TABLES && j < PerBlock(p.blockSize)
    ensures Entries(p, b)[j] == Mark(holes, PositionOf(p.blockSize, b, j))
  {
    assert EntryIs(p, holes, b, j);
  }

  lemma NextTable(bs: BlockSize, b: nat, j: nat)
    requires b >= TABLES
    ensures PositionOf(bs, b + 1, j) == PositionOf(bs, b, j + PerBlock(bs))
  {
    assert Product(b + 1 - TABLES, PerBlock(bs)) == Product(b - TABLES, PerBlock(bs)) + PerBlock(bs);
  }

  lemma {:induction false} TablesMark(twice: Twice, p: Partition, holes: set<nat>, a: nat, m: nat, k: nat)
    requires IsTwice(twice, p) && IsHoled(p, holes) && a >= TABLES && k < |twice(a, m)|
    ensures twice(a, m)[k] == Mark(holes, PositionOf(p.blockSize, a, k))
    decreases m
  {
    EmptyTwice(twice, p, a);
    if m > 0 {
      TablesStep(twice, p, a, m, k);
      if k < PerBlock(p.blockSize) {
        TableMarks(p, holes, a, k);
      } else {
        var rest := k - PerBlock(p.blockSize);
        TablesMark(twice, p, holes, a + 1, m - 1, rest);
        NextTable(p.blockSize, a, rest);
      }
    }
  }

  lemma DoubleMarks(p: Partition, holes: set<nat>, k: nat)
    requires IsHoled(p, holes) && k < |MappedTwice(p, Entries(p, DOUBLE))|
    ensures MappedTwice(p, Entries(p, DOUBLE))[k] == Mark(holes, DIRECT + PerBlock(p.blockSize) + k)
  {
    var twice: Twice := (a: nat, m: nat) => MappedTwice(p, From(a, m));
    DoubleLists(p, holes);
    TablesMark(twice, p, holes, TABLES, PerBlock(p.blockSize), k);
  }

  lemma {:induction false} NoTables(p: Partition, m: nat, k: nat)
    requires k < |MappedTwice(p, Repeat(0, m))|
    ensures MappedTwice(p, Repeat(0, m))[k] == 0
    decreases m
  {
    if m > 0 {
      assert Repeat(0, m)[1..] == Repeat(0, m - 1);
      if k >= PerBlock(p.blockSize) {
        NoTables(p, m - 1, k - PerBlock(p.blockSize));
      }
    }
  }

  /** The block map in three parts. */
  lemma MapParts(a: seq<nat>, b: seq<nat>, c: seq<nat>, k: nat)
    requires k < |a + b + c|
    ensures (a + b + c)[k] ==
            if k < |a| then a[k] else if k < |a| + |b| then b[k - |a|] else c[k - |a| - |b|]
  {}

  lemma HoledMap(p: Partition, holes: set<nat>, size: nat, double: bool, k: nat)
    requires IsHoled(p, holes) && k < |BlockMap(p, HoledInode(size, holes, double))|
    ensures BlockMap(p, HoledInode(size, holes, double))[k] ==
            if double || k < DIRECT + PerBlock(p.blockSize) then Mark(holes, k) else 0
  {
    var n, tables := PerBlock(p.blockSize), Mapped(p, if double then DOUBLE else 0);
    var i := HoledInode(size, holes, double);
    assert i.blocks[..DIRECT] == Direct(holes);
    MapParts(Direct(holes), Entries(p, SINGLE), MappedTwice(p, tables), k);
    if DIRECT <= k < DIRECT + n {
      assert EntryIs(p, holes, SINGLE, k - DIRECT);
    } else if k >= DIRECT + n {
      if double {
        DoubleMarks(p, holes, k - DIRECT - n);
      } else {
        NoTables(p, n, k - DIRECT - n);
      }
    }
  }

  /** Such a file has the holes. */
  lemma HoledHoles(p: Partition, holes: set<nat>, size: nat, double: bool)
    requires IsHoled(p, holes) && BlocksFor(p.blockSize, size) <= MapLength(p.blockSize)
    requires double || forall k :: DIRECT + PerBlock(p.blockSize) <= k < BlocksFor(p.blockSize, size) ==> k in holes
    ensures HolesAre(p, HoledInode(size, holes, double), holes)
  {
    var i := HoledInode(size, holes, double);
    BlockMapLength(p, i);
    forall k | 0 <= k < BlocksFor(p.blockSize, size) ensures BlockMap(p, i)[k] == 0 <==> k in holes {
      HoledMap(p, holes, size, double, k);
    }
  }

  // ---------- what the code reads of it ----------

  predicate AllMarks(numbers: seq<nat>) {
    forall k :: 0 <= k < |numbers| ==> numbers[k] <= 1
  }

  lemma {:induction false} PresentMarks(numbers: seq<nat>)
    requires AllMarks(numbers)
    ensures AllMarks(Present(numbers))
  {
    if numbers != [] {
      var front := numbers[..|numbers| - 1];
      PresentMarks(front);
    }
  }

  lemma SingleMarks(p: Partition, holes: set<nat>, k: nat)
    requires IsHoled(p, holes) && k < PerBlock(p.blockSize)
    ensures Entries(p, SINGLE)[k] == Mark(holes, DIRECT + k)
  {
    assert EntryIs(p, holes, SINGLE, k);
  }

  lemma {:induction false} EachIsTable(tables: seq<nat>, n: nat, k: nat)
    requires k < |EachTimes(tables, n)|
    ensures EachTimes(tables, n)[k] in tables
    decreases |tables|
  {
    var last := |tables| - 1;
    var front := EachTimes(tables[..last], n);
    if k < |front| {
      EachIsTable(tables[..last], n, k);
    } else {
      assert EachTimes(tables, n)[k] == Repeat(tables[last], n)[k - |front|];
    }
  }

  lemma OrderParts(p: Partition, holes: set<nat>, size: nat, double: bool)
    ensures ReadOrder(p, HoledInode(size, holes, double)) ==
            Present(Direct(holes)) + Entries(p, SINGLE) +
            EachTimes(Slots(p, if double then DOUBLE else 0), PerBlock(p.blockSize))
  {
    assert HoledInode(size, holes, double).blocks[..DIRECT] == Direct(holes);
  }

  lemma EachIsBehind(p: Partition, holes: set<nat>, k: nat)
    requires IsHoled(p, holes) && k < |EachTimes(Slots(p, DOUBLE), PerBlock(p.blockSize))|
    ensures EachTimes(Slots(p, DOUBLE), PerBlock(p.blockSize))[k] >= TABLES
  {
    DoubleLists(p, holes);
    EachIsTable(Slots(p, DOUBLE), PerBlock(p.blockSize), k);
  }

  /** The reading order: marks first, then tables, if there are any. */
  lemma HoledOrder(p: Partition, holes: set<nat>, size: nat, double: bool, k: nat)
    requires IsHoled(p, holes) && k < |ReadOrder(p, HoledInode(size, holes, double))|
    ensures var order, m := ReadOrder(p, HoledInode(size, holes, double)), |Present(Direct(holes))|;
            && m <= DIRECT && |order| >= m + PerBlock(p.blockSize)
            && (k < m + PerBlock(p.blockSize) ==> order[k] <= 1)
            && (m == DIRECT && DIRECT <= k < DIRECT + PerBlock(p.blockSize) ==> order[k] == Mark(holes, k))
            && (k >= m + PerBlock(p.blockSize) ==> double && order[k] >= TABLES)
  {
    var n, direct := PerBlock(p.blockSize), Present(Direct(holes));
    OrderParts(p, holes, size, double);
    PresentMarks(Direct(holes));
    MapParts(direct, Entries(p, SINGLE), EachTimes(Slots(p, if double then DOUBLE else 0), n), k);
    if |direct| <= k < |direct| + n {
      SingleMarks(p, holes, k - |direct|);
    } else if double && k >= |direct| + n {
      EachIsBehind(p, holes, k - |direct| - n);
    }
  }

  // ---------- where it is misread ----------

  /** The first byte of block `k` of the file. */
  function FirstOf(p: Partition, holes: set<nat>, k: nat): Byte {
    if k in holes then 0 else FirstByte(p, 1)
  }

  /** Byte `x` of the file is the first one of block `k`. */
  predicate Begins(bs: BlockSize, x: nat, k: nat) {
    BlockOf(bs, x) == k && OffsetOf(bs, x) == 0
  }

  lemma FirstBytesDiffer(p: Partition, tail: seq<Byte>, holes: set<nat>, size: nat, double: bool, x: nat, k: nat)
    requires IsHoled(p, holes) && TailOk(p, tail) && x < size && Begins(p.blockSize, x, k)
    requires HolesAre(p, HoledInode(size, holes, double), holes)
    requires var data := Data(p, tail, ReadOrder(p, HoledInode(size, holes, double)));
             x < |data| ==> data[x] != FirstOf(p, holes, k)
    ensures !ReadsBack(p, tail, HoledInode(size, holes, double))
  {
    var i := HoledInode(size, holes, double);
    BlockOfByte(p.blockSize, size, x);
    HoledMap(p, holes, size, double, k);
    assert FileByte(p, BlockMap(p, i), x) == FirstOf(p, holes, k);
    assert !ByteReadsBack(p, Data(p, tail, ReadOrder(p, i)), BlockMap(p, i), x);
  }

  /** The block read in the place of block `k`. */
  lemma BlockDiffers(p: Partition, tail: seq<Byte>, holes: set<nat>, size: nat, double: bool, k: nat)
    requires IsHoled(p, holes) && TailOk(p, tail) && (p.blockSize == BUFFER || k == 0) && BUFFER * k < size
    requires HolesAre(p, HoledInode(size, holes, double), holes)
    requires var order := ReadOrder(p, HoledInode(size, holes, double));
             k < |order| ==> FirstByte(p, order[k]) != FirstOf(p, holes, k)
    ensures !ReadsBack(p, tail, HoledInode(size, holes, double))
  {
    var order := ReadOrder(p, HoledInode(size, holes, double));
    if k < |order| {
      DataAt(p, tail, order, k, 0);
    }
    FirstBytesDiffer(p, tail, holes, size, double, BUFFER * k, k);
  }

  function Ones(n: nat): (s: seq<Byte>)
    ensures |s| == n && forall x :: 0 <= x < n ==> s[x] == 1
  {
    seq(n, _ => 1)
  }

  lemma SecondBegins(bs: BlockSize)
    ensures Begins(bs, bs, 1)
  {}

  /** Behind the first block in memory stands the tail. */
  lemma TailByte(p: Partition, tail: seq<Byte>, order: seq<nat>)
    requires TailOk(p, tail) && p.blockSize < BUFFER && p.blockSize < |Data(p, tail, order)|
    ensures Data(p, tail, order)[p.blockSize] == tail[0]
  {
    DataAt(p, tail, order, 0, p.blockSize);
  }

  /** With small blocks, the second block of the file is looked for in the tail of the buffer. */
  lemma SmallBlocksMisread(p: Partition, holes: set<nat>, size: nat)
    requires IsHoled(p, holes) && p.blockSize < BUFFER && size > p.blockSize
    requires HolesAre(p, HoledInode(size, holes, true), holes)
    ensures TailOk(p, Ones(BUFFER - p.blockSize))
    ensures !ReadsBack(p, Ones(BUFFER - p.blockSize), HoledInode(size, holes, true))
  {
    var tail, order := Ones(BUFFER - p.blockSize), ReadOrder(p, HoledInode(size, holes, true));
    if p.blockSize < |Data(p, tail, order)| {
      TailByte(p, tail, order);
    }
    SecondBegins(p.blockSize);
    FirstBytesDiffer(p, tail, holes, size, true, p.blockSize, 1);
  }

  /** The marks are the blocks 0 and 1, and neither begins with a zero. */
  lemma FirstIsMark(p: Partition, holes: set<nat>, size: nat, k: nat)
    requires IsHoled(p, holes) && k < |ReadOrder(p, HoledInode(size, holes, true))| && k < DIRECT
    ensures FirstByte(p, ReadOrder(p, HoledInode(size, holes, true))[k]) >= 7
  {
    HoledOrder(p, holes, size, true, k);
  }

  /** A hole among the direct blocks is skipped, so other data stands in its place. */
  lemma DirectHoleMisread(p: Partition, tail: seq<Byte>, holes: set<nat>, size: nat, k: nat)
    requires IsHoled(p, holes) && TailOk(p, tail) && (p.blockSize == BUFFER || k == 0) && BUFFER * k < size
    requires HolesAre(p, HoledInode(size, holes, true), holes) && k in holes && k < DIRECT
    ensures !ReadsBack(p, tail, HoledInode(size, holes, true))
  {
    if k < |ReadOrder(p, HoledInode(size, holes, true))| {
      FirstIsMark(p, holes, size, k);
    }
    BlockDiffers(p, tail, holes, size, true, k);
  }

  /** For a hole in the singly indirect table, block 0 is read. */
  lemma SingleHoleMisread(p: Partition, tail: seq<Byte>, holes: set<nat>, size: nat, k: nat)
    requires IsHoled(p, holes) && TailOk(p, tail) && p.blockSize == BUFFER && BUFFER * k < size
    requires HolesAre(p, HoledInode(size, holes, true), holes) && k in holes
    requires DIRECT <= k < DIRECT + PerBlock(BUFFER) && forall j :: 0 <= j < DIRECT ==> j !in holes
    ensures !ReadsBack(p, tail, HoledInode(size, holes, true))
  {
    PresentPrefix(Direct(holes), DIRECT);
    if k < |ReadOrder(p, HoledInode(size, holes, true))| {
      HoledOrder(p, holes, size, true, k);
    }
    BlockDiffers(p, tail, holes, size, true, k);
  }

  /** Behind the singly indirect blocks, tables are read instead of data, or nothing is. */
  lemma DoubleIsMisread(p: Partition, tail: seq<Byte>, holes: set<nat>, size: nat, k: nat)
    requires IsHoled(p, holes) && TailOk(p, tail) && p.blockSize == BUFFER && BUFFER * k < size
    requires HolesAre(p, HoledInode(size, holes, k !in holes), holes) && k >= DIRECT + PerBlock(BUFFER)
    ensures !ReadsBack(p, tail, HoledInode(size, holes, k !in holes))
  {
    if k < |ReadOrder(p, HoledInode(size, holes, k !in holes))| {
      HoledOrder(p, holes, size, k !in holes, k);
    }
    BlockDiffers(p, tail, holes, size, k !in holes, k);
  }

  /** Some file of this size and with these holes is misread. */
  ghost predicate SomeMisread(bs: BlockSize, size: nat, holes: set<nat>) {
    exists p: Partition, tail: seq<Byte>, i: Inode ::
      Fitting(p, tail, i, bs, size, holes) && !ReadsBack(p, tail, i)
  }

  ghost predicate Fitting(p: Partition, tail: seq<Byte>, i: Inode, bs: BlockSize, size: nat, holes: set<nat>) {
    p.blockSize == bs && TailOk(p, tail) && i.size == size && HolesAre(p, i, holes)
  }

  lemma ByteOfBlock(size: nat, k: nat)
    requires k < BlocksFor(BUFFER, size)
    ensures BUFFER * k < size
  {}

  lemma HoledExists(bs: BlockSize, holes: set<nat>) returns (p: Partition)
    ensures p.blockSize == bs && IsHoled(p, holes)
  {
    p := Holed(bs, holes);
    HoledIs(bs, holes);
  }

  lemma Misread(p: Partition, tail: seq<Byte>, i: Inode, holes: set<nat>)
    requires TailOk(p, tail) && HolesAre(p, i, holes) && !ReadsBack(p, tail, i)
    ensures SomeMisread(p.blockSize, i.size, holes)
  {
    assert Fitting(p, tail, i, p.blockSize, i.size, holes);
  }

  /** A hole in front of the doubly indirect blocks. */
  lemma HoleMisread(p: Partition, size: nat, holes: set<nat>, k: nat)
    requires IsHoled(p, holes) && p.blockSize == BUFFER && BlocksFor(BUFFER, size) <= MapLength(BUFFER)
    requires k < BlocksFor(BUFFER, size) && k < DIRECT + PerBlock(BUFFER) && k in holes
    requires k < DIRECT || forall j :: 0 <= j < DIRECT ==> j !in holes
    ensures SomeMisread(BUFFER, size, holes)
  {
    HoledHoles(p, holes, size, true);
    ByteOfBlock(size, k);
    if k < DIRECT {
      DirectHoleMisread(p, [], holes, size, k);
    } else {
      SingleHoleMisread(p, [], holes, size, k);
    }
    Misread(p, [], HoledInode(size, holes, true), holes);
  }

  lemma BehindMisread(p: Partition, size: nat, holes: set<nat>, k: nat)
    requires IsHoled(p, holes) && p.blockSize == BUFFER && BlocksFor(BUFFER, size) <= MapLength(BUFFER)
    requires DIRECT + PerBlock(BUFFER) <= k < BlocksFor(BUFFER, size)
    requires k in holes ==> forall j :: DIRECT + PerBlock(BUFFER) <= j < BlocksFor(BUFFER, size) ==> j in holes
    ensures SomeMisread(BUFFER, size, holes)
  {
    HoledHoles(p, holes, size, k !in holes);
    ByteOfBlock(size, k);
    DoubleIsMisread(p, [], holes, size, k);
    Misread(p, [], HoledInode(size, holes, k !in holes), holes);
  }

  /** Full-size blocks, with a hole or beyond the singly indirect blocks. */
  lemma FullBlocksMisread(size: nat, holes: set<nat>)
    requires BlocksFor(BUFFER, size) <= MapLength(BUFFER)
    requires !Readable(BUFFER, size) || !NoneBelow(holes, BlocksFor(BUFFER, size))
    ensures SomeMisread(BUFFER, size, holes)
  {
    var p := HoledExists(BUFFER, holes);
    var n, single := BlocksFor(BUFFER, size), DIRECT + PerBlock(BUFFER);
    if k: nat :| k < n && k < DIRECT && k in holes {
      HoleMisread(p, size, holes, k);
    } else if k: nat :| k < n && DIRECT <= k < single && k in holes {
      BlocksBefore(size, holes, k);
      HoleMisread(p, size, holes, k);
    } else {
      var k := AnyBehind(size, holes);
      BehindMisread(p, size, holes, k);
    }
  }

  lemma BlocksBefore(size: nat, holes: set<nat>, k: nat)
    requires DIRECT <= k < BlocksFor(BUFFER, size)
    requires forall j: nat :: j < BlocksFor(BUFFER, size) && j < DIRECT ==> j !in holes
    ensures forall j :: 0 <= j < DIRECT ==> j !in holes
  {}

  /** A block behind the singly indirect ones, if possible one that is no hole. */
  lemma AnyBehind(size: nat, holes: set<nat>) returns (k: nat)
    requires !Readable(BUFFER, size) || !NoneBelow(holes, BlocksFor(BUFFER, size))
    requires forall j: nat :: j < BlocksFor(BUFFER, size) && j < DIRECT + PerBlock(BUFFER) ==> j !in holes
    ensures DIRECT + PerBlock(BUFFER) <= k < BlocksFor(BUFFER, size)
    ensures k in holes ==> forall j :: DIRECT + PerBlock(BUFFER) <= j < BlocksFor(BUFFER, size) ==> j in holes
  {
    var single, n := DIRECT + PerBlock(BUFFER), BlocksFor(BUFFER, size);
    if j: nat :| single <= j < n && j !in holes {
      k := j;
    } else {
      k := single;
      if !Readable(BUFFER, size) {
        assert single < n;
      }
    }
  }

  lemma OneBlockMisread(p: Partition, size: nat, holes: set<nat>)
    requires IsHoled(p, holes) && size <= p.blockSize
    requires BlocksFor(p.blockSize, size) <= MapLength(p.blockSize) && !NoneBelow(holes, BlocksFor(p.blockSize, size))
    ensures SomeMisread(p.blockSize, size, holes)
  {
    HoledHoles(p, holes, size, true);
    OneBlock(p.blockSize, size);
    DirectHoleMisread(p, Ones(BUFFER - p.blockSize), holes, size, 0);
    Misread(p, Ones(BUFFER - p.blockSize), HoledInode(size, holes, true), holes);
  }

  lemma SmallMisread(bs: BlockSize, size: nat, holes: set<nat>)
    requires bs < BUFFER && BlocksFor(bs, size) <= MapLength(bs)
    requires size > bs || !NoneBelow(holes, BlocksFor(bs, size))
    ensures SomeMisread(bs, size, holes)
  {
    var p := HoledExists(bs, holes);
    if size > bs {
      HoledHoles(p, holes, size, true);
      SmallBlocksMisread(p, holes, size);
      Misread(p, Ones(BUFFER - bs), HoledInode(size, holes, true), holes);
    } else {
      OneBlockMisread(p, size, holes);
    }
  }

  lemma OneBlock(bs: BlockSize, size: nat)
    requires size <= bs
    ensures BlocksFor(bs, size) <= 1 && (BlocksFor(bs, size) == 1 <==> size > 0)
  {}

  /** For each size and each set of holes: all such files are read as they are, holes as zeros, if and only if the size
      is readable and no hole lies below it. */
  lemma FilesAreReadExactly(bs: BlockSize, size: nat, holes: set<nat>)
    requires BlocksFor(bs, size) <= MapLength(bs)
    ensures (forall p: Partition, tail: seq<Byte>, i: Inode ::
              Fitting(p, tail, i, bs, size, holes) ==> ReadsBack(p, tail, i)) <==>
            Readable(bs, size) && NoneBelow(holes, BlocksFor(bs, size))
  {
    if Readable(bs, size) && NoneBelow(holes, BlocksFor(bs, size)) {
      forall p: Partition, tail: seq<Byte>, i: Inode | Fitting(p, tail, i, bs, size, holes)
        ensures ReadsBack(p, tail, i)
      {
        ReadableIsRead(p, tail, i, holes);
      }
    } else if bs == BUFFER {
      FullBlocksMisread(size, holes);
    } else {
      SmallMisread(bs, size, holes);
    }
  }
}
