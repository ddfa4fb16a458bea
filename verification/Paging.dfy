/** page_init and the address translation its tables give, as in 32-bit paging of the Intel SDM. */
module Paging {
  import opened Options

  const MEM_SIZE: nat := 134217728
  const PAGE_TABLE_ADDR: nat := 0x0100_0000
  const PAGE: nat := 0x1000
  const PRESENT: nat := 1
  const READ_WRITE: nat := 2
  const KERNEL_MEM_START: nat := 0x20_0000
  const KERNEL_MEM_END: nat := 0x100_0000

  /** Page frames, and directory entries: the shift binds weaker than the sum, so it is by 11. */
  const FRAMES: nat := MEM_SIZE / PAGE
  const TABLES: nat := FRAMES / 0x800
  /** Words written in all: one directory page and one entry per frame. */
  const WORDS: nat := 1024 + FRAMES

  /** The 32-bit word at a physical address; `mem` starts at the directory. */
  function WordAt(mem: seq<nat>, address: nat): Option<nat> {
    if PAGE_TABLE_ADDR <= address && (address - PAGE_TABLE_ADDR) / 4 < |mem|
    then Some(mem[(address - PAGE_TABLE_ADDR) / 4]) else None
  }

  /** The entry at slot `index` of the table in page frame `table`, if it is marked present:
      the address of the frame it names. */
  function Entry(mem: seq<nat>, table: nat, index: nat): Option<nat> {
    match WordAt(mem, table + 4 * index)
    case Some(e) => if e % 2 == 1 then Some(e / PAGE * PAGE) else None
    case None => None
  }

  /** Section 4.3 of the manual: directory index in bits 31-22, table index in 21-12, offset in 11-0. */
  function Translate(mem: seq<nat>, va: nat): Option<nat> {
    match Entry(mem, PAGE_TABLE_ADDR, va / 0x40_0000)
    case None => None
    case Some(table) => match Entry(mem, table, va / PAGE % 1024)
      case None => None
      case Some(frame) => Some(frame + va % PAGE)
  }

  ghost predicate Initialised(mem: seq<nat>) {
    && |mem| >= WORDS
    && (forall i :: 0 <= i < TABLES ==> mem[i] == PAGE_TABLE_ADDR + PAGE * (i + 1) + 3)
    && (forall i :: TABLES <= i < 1024 ==> mem[i] == 0)
    && (forall i :: 1024 <= i < WORDS ==> mem[i] == PAGE * (i - 1024) + 3)
  }

  /** `count` entries from `kptr` on, naming consecutive page frames. */
  method FillEntries(mem: array<nat>, kptr: nat, entry: nat, count: nat) returns (next: nat)
    requires kptr + count <= mem.Length
    modifies mem
    ensures next == kptr + count
    ensures forall j :: kptr <= j < next ==> mem[j] == entry + PAGE * (j - kptr)
    ensures forall j :: 0 <= j < mem.Length && !(kptr <= j < next) ==> mem[j] == old(mem[j])
  {
    var i, e := count, entry;
    next := kptr;
    while i > 0
      invariant 0 <= i <= count && next == kptr + (count - i) && e == entry + PAGE * (count - i)
      invariant forall j :: kptr <= j < next ==> mem[j] == entry + PAGE * (j - kptr)
      invariant forall j :: 0 <= j < mem.Length && !(kptr <= j < next) ==> mem[j] == old(mem[j])
    {
      mem[next] := e;
      next, e, i := next + 1, e + PAGE, i - 1;
    }
  }

  /** Zeroes up to the next page boundary. */
  method PadPage(mem: array<nat>, kptr: nat) returns (next: nat)
    requires (kptr + 1023) / 1024 * 1024 <= mem.Length
    modifies mem
    ensures next == (kptr + 1023) / 1024 * 1024
    ensures forall j :: kptr <= j < next ==> mem[j] == 0
    ensures forall j :: 0 <= j < mem.Length && !(kptr <= j < next) ==> mem[j] == old(mem[j])
  {
    next := kptr;
    while 4 * next % PAGE != 0
      invariant kptr <= next <= (kptr + 1023) / 1024 * 1024
      invariant forall j :: kptr <= j < next ==> mem[j] == 0
      invariant forall j :: 0 <= j < mem.Length && !(kptr <= j < next) ==> mem[j] == old(mem[j])
      decreases (kptr + 1023) / 1024 * 1024 - next
    {
      mem[next] := 0;
      next := next + 1;
    }
  }

  method PageInit(mem: array<nat>)
    requires mem.Length >= WORDS
    modifies mem
    ensures Initialised(mem[..])
    ensures forall i :: WORDS <= i < mem.Length ==> mem[i] == old(mem[i])
  {
    var frames := MEM_SIZE / PAGE;
    var tables := frames / 0x800;
    var kptr := FillEntries(mem, 0, PAGE + PRESENT + READ_WRITE + PAGE_TABLE_ADDR, tables);
    kptr := PadPage(mem, kptr);
    kptr := FillEntries(mem, kptr, PRESENT + READ_WRITE, frames);
    kptr := PadPage(mem, kptr);
  }

  const MAPPED: nat := 0x400_0000

  lemma DirectoryEntry(mem: seq<nat>, dir: nat)
    requires Initialised(mem) && dir < 1024
    ensures Entry(mem, PAGE_TABLE_ADDR, dir) == if dir < TABLES then Some(PAGE_TABLE_ADDR + PAGE * (dir + 1)) else None
  {
    assert (PAGE_TABLE_ADDR + 4 * dir - PAGE_TABLE_ADDR) / 4 == dir;
    if dir < TABLES {
      FrameOfEntry(0x1000 + dir + 1);
    }
  }

  lemma FrameOfEntry(frame: nat)
    ensures (PAGE * frame + 3) / PAGE * PAGE == PAGE * frame && (PAGE * frame + 3) % 2 == 1
  {}

  lemma TableEntry(mem: seq<nat>, dir: nat, index: nat)
    requires Initialised(mem) && dir < TABLES && index < 1024
    ensures Entry(mem, PAGE_TABLE_ADDR + PAGE * (dir + 1), index) == Some(PAGE * (1024 * dir + index))
  {
    var frame := 1024 * dir + index;
    assert (PAGE_TABLE_ADDR + PAGE * (dir + 1) + 4 * index - PAGE_TABLE_ADDR) / 4 == 1024 + frame;
    assert mem[1024 + frame] == PAGE * frame + 3;
    FrameOfEntry(frame);
  }

  lemma SplitAddress(va: nat)
    ensures va == PAGE * (1024 * (va / 0x40_0000) + va / PAGE % 1024) + va % PAGE
    ensures va < MAPPED <==> va / 0x40_0000 < TABLES
  {
    assert va / PAGE / 1024 == va / 0x40_0000;
  }

  /** The first 64 MB are mapped to themselves; no higher address is present. */
  lemma TablesMapIdentity(mem: seq<nat>, va: nat)
    requires Initialised(mem) && va < 0x1_0000_0000
    ensures Translate(mem, va) == if va < 0x400_0000 then Some(va) else None
  {
    var dir, index := va / 0x40_0000, va / PAGE % 1024;
    DirectoryEntry(mem, dir);
    SplitAddress(va);
    if dir < TABLES {
      TableEntry(mem, dir, index);
    }
  }

  lemma LowBits(e: nat, eighth: nat)
    requires e == 8 * eighth + 3
    ensures e % 2 == 1 && e / 2 % 2 == 1 && e / 4 % 2 == 0
  {
    assert e == 2 * (4 * eighth + 1) + 1;
    assert e / 2 == 4 * eighth + 1;
    assert e / 2 == 2 * (2 * eighth) + 1;
    assert e == 4 * (2 * eighth) + 3;
    assert e / 4 == 2 * eighth;
  }

  /** Every entry in use is present, writable and reserved to the supervisor: bits 0, 1 and 2. */
  lemma EntriesAreKernelPages(mem: seq<nat>, i: nat)
    requires Initialised(mem) && (i < 16 || 1024 <= i < 1024 + 0x8000)
    ensures mem[i] % 2 == 1 && mem[i] / 2 % 2 == 1 && mem[i] / 4 % 2 == 0
  {
    var frame := if i < 16 then 0x1000 + i + 1 else i - 1024;
    LowBits(mem[i], 512 * frame);
  }

  /** Tables and kernel heap do not overlap, and both stay reachable once paging is on. */
  lemma TablesAndHeapAreMappedApart(mem: seq<nat>)
    requires Initialised(mem)
    ensures KERNEL_MEM_END <= PAGE_TABLE_ADDR
    ensures forall va :: KERNEL_MEM_START <= va < KERNEL_MEM_END ==> Translate(mem, va) == Some(va)
    ensures forall va :: PAGE_TABLE_ADDR <= va < PAGE_TABLE_ADDR + 4 * WORDS ==> Translate(mem, va) == Some(va)
  {
    forall va | KERNEL_MEM_START <= va < PAGE_TABLE_ADDR + 4 * WORDS ensures Translate(mem, va) == Some(va) {
      TablesMapIdentity(mem, va);
    }
  }
}
