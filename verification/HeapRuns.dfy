/**
What holds over whole runs of kmalloc and kfree: tiling and conservation, when an allocation can fail,
what is left once everything has been freed, and which call guards keep all of this true.
*/
module HeapRuns {
  import opened Options
  import opened HeapModel
  import opened Words

  // ---------- tiling, seen unit by unit ----------

  predicate Holds(m: map<nat, nat>, a: nat, u: nat) {
    a in m && a <= u < a + m[a]
  }

  /** The block that owns unit `u`. */
  lemma OwnerExists(m: map<nat, nat>, limit: nat, u: nat) returns (a: nat)
    requires Tiling(m, limit) && u < limit
    ensures Holds(m, a, u)
  {
    if u == 0 {
      a := 0;
      assert Piece(m, limit, a);
    } else {
      a := OwnerExists(m, limit, u - 1);
      assert Piece(m, limit, a);
      if a + m[a] == u {
        a := u;
        assert Piece(m, limit, a);
      }
    }
  }

  lemma OwnerIsUnique(m: map<nat, nat>, limit: nat, u: nat, a: nat, b: nat)
    requires Tiling(m, limit) && Holds(m, a, u) && Holds(m, b, u)
    ensures a == b
  {
    assert Piece(m, limit, a) && Piece(m, limit, b);
  }

  /** Total size of the blocks that start below `u`. */
  function SizeBelow(m: map<nat, nat>, u: nat): nat {
    if u == 0 then 0 else SizeBelow(m, u - 1) + if u - 1 in m then m[u - 1] else 0
  }

  lemma {:induction false} SizeBelowBlock(m: map<nat, nat>, limit: nat, a: nat, u: nat)
    requires Tiling(m, limit) && u > 0 && Holds(m, a, u - 1)
    ensures SizeBelow(m, u) == a + m[a]
    decreases u
  {
    assert Piece(m, limit, a);
    if a == u - 1 {
      if a > 0 {
        var below := OwnerExists(m, limit, a - 1);
        assert Piece(m, limit, below);
        SizeBelowBlock(m, limit, below, a);
      }
    } else {
      SizeBelowBlock(m, limit, a, u - 1);
    }
  }

  lemma {:induction false} SizeBelowSplits(free: map<nat, nat>, live: map<nat, nat>, u: nat)
    requires free.Keys !! live.Keys
    ensures SizeBelow(free + live, u) == SizeBelow(free, u) + SizeBelow(live, u)
  {
    if u > 0 {
      SizeBelowSplits(free, live, u - 1);
    }
  }

  /** Conservation: free units and handed-out units always add up to the heap. */
  lemma UnitsAreConserved(h: Heap)
    requires Sound(h)
    ensures SizeBelow(h.free, h.limit) + SizeBelow(h.live, h.limit) == h.limit
  {
    assert Piece(Blocks(h), h.limit, 0);
    var last := OwnerExists(Blocks(h), h.limit, h.limit - 1);
    assert Piece(Blocks(h), h.limit, last);
    SizeBelowBlock(Blocks(h), h.limit, last, h.limit);
    SizeBelowSplits(h.free, h.live, h.limit);
  }

  // ---------- when an allocation fails ----------

  /** The units [u, u + n) exist and none of them is handed out. */
  ghost predicate Unallocated(h: Heap, u: nat, n: nat) {
    u + n <= h.limit &&
    forall a: nat, x: nat {:trigger Holds(h.live, a, x)} :: Holds(h.live, a, x) ==> !(u <= x < u + n)
  }

  /** An unallocated run lies inside one free block, because free blocks never touch. */
  lemma RunIsInOneBlock(h: Heap, u: nat, n: nat) returns (a: nat)
    requires Sound(h) && n > 0 && Unallocated(h, u, n)
    ensures a in h.free && h.free[a] >= n
  {
    a := OwnerExists(Blocks(h), h.limit, u);
    assert a !in h.live by { if a in h.live { assert Holds(h.live, a, u); } }
    var end := a + h.free[a];
    assert Blocks(h)[a] == h.free[a];
    assert Piece(Blocks(h), h.limit, a);
    assert Apart(h.free, a);
    if end in h.live {
      LiveBlockHoldsItself(h, end);
    }
  }

  lemma LiveBlockHoldsItself(h: Heap, b: nat)
    requires Tiled(h) && b in h.live
    ensures Holds(h.live, b, b)
  {
    assert Piece(Blocks(h), h.limit, b);
  }

  /** kmalloc returns NULL exactly when no run of that many unallocated units exists. */
  lemma FailsExactlyWhenFull(h: Heap, n: nat)
    requires Sound(h) && n > 0
    ensures Allocate(h, n).1.None? <==> forall u :: !Unallocated(h, u, n)
  {
    var fit := FirstFit(h, n);
    if fit.None? {
      forall u ensures !Unallocated(h, u, n) {
        if Unallocated(h, u, n) {
          var a := RunIsInOneBlock(h, u, n);
        }
      }
    } else {
      FreeBlockIsUnallocated(h, fit.value, n);
    }
  }

  lemma FreeBlockIsUnallocated(h: Heap, a: nat, n: nat)
    requires Sound(h) && a in h.free && n <= h.free[a]
    ensures Unallocated(h, a, n)
  {
    forall b: nat, x: nat {:trigger Holds(h.live, b, x)} | Holds(h.live, b, x) ensures !(a <= x < a + n) {
      if a <= x < a + n {
        assert Holds(Blocks(h), b, x) && Holds(Blocks(h), a, x);
        OwnerIsUnique(Blocks(h), h.limit, x, a, b);
      }
    }
  }

  /** What kmalloc hands out was unallocated before and leaves every other live block alone. */
  lemma FreshBlock(h: Heap, n: nat)
    requires Sound(h) && n > 0 && Allocate(h, n).1.Some?
    ensures var (h', r) := Allocate(h, n);
            Unallocated(h, r.value, n) && r.value !in h.live && h'.live == h.live[r.value := n]
  {
    var a := FirstFit(h, n).value;
    FreeBlockIsUnallocated(h, a, h.free[a]);
    var t := CarvedAt(h, a, n);
    if t in h.live {
      LiveBlockHoldsItself(h, t);
    }
  }

  // ---------- when everything has been freed ----------

  lemma AllFreedIsInitial(h: Heap)
    requires Sound(h) && h.live == map[]
    ensures h == Initial(h.limit)
  {
    assert Blocks(h) == h.free;
    assert Piece(h.free, h.limit, 0);
    assert Apart(h.free, 0);
    assert h.free.Keys == {0};
    assert h.free == map[0 := h.limit];
  }

  // ---------- whole runs ----------

  datatype Call = Kmalloc(nbytes: nat) | Kfree(addr: nat)

  /** The heap, and for each live block the number of bytes its caller asked for. */
  datatype Memory = Memory(heap: Heap, wanted: map<nat, nat>)

  /** Callers ask for 32-bit byte counts whose rounding does not wrap, and free live blocks only. */
  predicate Proper(m: Memory, c: Call) {
    match c
    case Kmalloc(nbytes) => nbytes <= WORD - HEADER
    case Kfree(addr) => addr in m.heap.live
  }

  /** The two cases the list code gets wrong do not arise. */
  predicate Guarded(m: Memory, c: Call) {
    Proper(m, c) &&
    match c
    case Kmalloc(nbytes) => !TakesLastBlock(m.heap, UnitsFor(nbytes))
    case Kfree(addr) => !TouchesLoneBlock(m.heap, addr)
  }

  ghost predicate Good(m: Memory) {
    Sound(m.heap) && m.wanted.Keys == m.heap.live.Keys &&
    forall a :: a in m.heap.live ==> HEADER * m.heap.live[a] >= HEADER + m.wanted[a]
  }

  ghost function Apply(m: Memory, c: Call): (m': Memory)
    requires Good(m) && Proper(m, c)
  {
    match c
    case Kmalloc(nbytes) =>
      var (h, r) := Allocate(m.heap, UnitsFor(nbytes));
      Memory(h, if r.Some? then m.wanted[r.value := nbytes] else m.wanted)
    case Kfree(addr) =>
      Memory(Release(m.heap, addr), m.wanted - {addr})
  }

  /** One proper call keeps the invariant exactly when it is not one of the two bad cases. */
  lemma CallKeepsGood(m: Memory, c: Call)
    requires Good(m) && Proper(m, c)
    ensures Good(Apply(m, c)) <==> Guarded(m, c)
  {
    match c
    case Kmalloc(nbytes) =>
      var n := UnitsFor(nbytes);
      AllocateKeepsSound(m.heap, n);
      PayloadCoversRequest(nbytes);
      if Allocate(m.heap, n).1.Some? {
        FreshBlock(m.heap, n);
      }
    case Kfree(addr) =>
      ReleaseKeepsSound(m.heap, addr);
  }

  /** Every call of the run is guarded when its turn comes. */
  ghost predicate GuardedRun(m: Memory, calls: seq<Call>)
    requires Good(m)
    decreases |calls|
  {
    calls == [] ||
    (Guarded(m, calls[0]) && (CallKeepsGood(m, calls[0]); GuardedRun(Apply(m, calls[0]), calls[1..])))
  }

  ghost function Run(m: Memory, calls: seq<Call>): (m': Memory)
    requires Good(m) && GuardedRun(m, calls)
    ensures Good(m') && m'.heap.limit == m.heap.limit
    decreases |calls|
  {
    if calls == [] then m
    else CallKeepsGood(m, calls[0]); Run(Apply(m, calls[0]), calls[1..])
  }

  function Boot(limit: nat): (m: Memory)
    requires limit > 0
    ensures Good(m)
  {
    Memory(Initial(limit), map[])
  }

  /** In every guarded run from boot the blocks tile the heap, the units add up, and every live payload
      is large enough; a run that has freed everything is back at the single initial block. */
  lemma GuardedRunsAreSafe(limit: nat, calls: seq<Call>)
    requires limit > 0 && GuardedRun(Boot(limit), calls)
    ensures var m := Run(Boot(limit), calls);
            && Tiled(m.heap) && Coalesced(m.heap.free) && m.heap.rover in m.heap.free
            && SizeBelow(m.heap.free, limit) + SizeBelow(m.heap.live, limit) == limit
            && (forall a :: a in m.heap.live ==> HEADER * m.heap.live[a] >= HEADER + m.wanted[a])
            && (m.heap.live == map[] ==> m == Boot(limit))
  {
    var m := Run(Boot(limit), calls);
    UnitsAreConserved(m.heap);
    if m.heap.live == map[] {
      AllFreedIsInitial(m.heap);
      assert m.wanted == map[];
    }
  }

  // ---------- a guard that callers can follow: never take the whole bottom block ----------

  predicate SparesBottom(m: Memory, c: Call) {
    Proper(m, c) &&
    (c.Kmalloc? ==> !(FirstFit(m.heap, UnitsFor(c.nbytes)) == Some(0) && m.heap.free[0] == UnitsFor(c.nbytes)))
  }

  lemma SparingBottomIsEnough(m: Memory, c: Call)
    requires Good(m) && 0 in m.heap.free && SparesBottom(m, c)
    ensures Guarded(m, c) && 0 in Apply(m, c).heap.free
  {
    match c
    case Kmalloc(nbytes) =>
      assert 0 in m.heap.free.Keys;
    case Kfree(addr) =>
      PredecessorIsBelowOrFar(m.heap, addr);
      assert Piece(Blocks(m.heap), m.heap.limit, addr);
      assert !TouchesLoneBlock(m.heap, addr);
  }

  ghost predicate SparingRun(m: Memory, calls: seq<Call>)
    requires Good(m) && 0 in m.heap.free
    decreases |calls|
  {
    calls == [] ||
    (SparesBottom(m, calls[0]) &&
     (SparingBottomIsEnough(m, calls[0]); CallKeepsGood(m, calls[0]);
      SparingRun(Apply(m, calls[0]), calls[1..])))
  }

  lemma {:induction false} SparingRunsAreGuarded(m: Memory, calls: seq<Call>)
    requires Good(m) && 0 in m.heap.free && SparingRun(m, calls)
    ensures GuardedRun(m, calls) && 0 in Run(m, calls).heap.free
    decreases |calls|
  {
    if calls != [] {
      SparingBottomIsEnough(m, calls[0]);
      CallKeepsGood(m, calls[0]);
      SparingRunsAreGuarded(Apply(m, calls[0]), calls[1..]);
    }
  }

  // ---------- freeing everything, in any order ----------

  function Frees(order: seq<nat>): seq<Call> {
    if order == [] then [] else [Kfree(order[0])] + Frees(order[1..])
  }

  /** `order` names each member of `s` once. */
  ghost predicate Lists(order: seq<nat>, s: set<nat>) {
    if order == [] then s == {} else order[0] in s && Lists(order[1..], s - {order[0]})
  }

  lemma {:induction false} SomeListing(s: set<nat>) returns (order: seq<nat>)
    ensures Lists(order, s)
  {
    order := [];
    if s != {} {
      var x :| x in s;
      var rest := SomeListing(s - {x});
      order := [x] + rest;
      assert order[1..] == rest;
    }
  }

  lemma {:induction false} ListsOneMore(order: seq<nat>, s: set<nat>, x: nat)
    requires Lists(order, s) && x !in s
    ensures Lists(order + [x], s + {x})
    decreases |order|
  {
    if order == [] {
      assert (order + [x])[1..] == [] && s + {x} - {x} == {};
    } else {
      var a := order[0];
      ListsOneMore(order[1..], s - {a}, x);
      assert (order + [x])[1..] == order[1..] + [x] && s + {x} - {a} == s - {a} + {x};
    }
  }

  lemma {:induction false} FreesOneMore(order: seq<nat>, x: nat)
    ensures Frees(order + [x]) == Frees(order) + [Kfree(x)]
    decreases |order|
  {
    if order == [] {
      assert (order + [x])[1..] == [];
    } else {
      assert (order + [x])[1..] == order[1..] + [x];
      FreesOneMore(order[1..], x);
    }
  }

  /** A run of two parts is guarded exactly when its parts are, one after the other. */
  lemma {:induction false} RunSplits(m: Memory, a: seq<Call>, b: seq<Call>)
    requires Good(m)
    ensures GuardedRun(m, a + b) <==> GuardedRun(m, a) && GuardedRun(Run(m, a), b)
    ensures GuardedRun(m, a + b) ==> Run(m, a + b) == Run(Run(m, a), b)
    decreases |a|
  {
    if a == [] {
      assert a + b == b;
    } else {
      assert (a + b)[0] == a[0] && (a + b)[1..] == a[1..] + b;
      if Guarded(m, a[0]) {
        CallKeepsGood(m, a[0]);
        RunSplits(Apply(m, a[0]), a[1..], b);
      }
    }
  }

  /** A guarded run of frees takes exactly the blocks it names off the live ones. */
  lemma {:induction false} FreedKeys(m: Memory, order: seq<nat>, s: set<nat>)
    requires Good(m) && Lists(order, s) && GuardedRun(m, Frees(order))
    ensures Run(m, Frees(order)).heap.live.Keys == m.heap.live.Keys - s
    decreases |order|
  {
    if order != [] {
      var b := order[0];
      assert Frees(order)[0] == Kfree(b) && Frees(order)[1..] == Frees(order[1..]);
      CallKeepsGood(m, Kfree(b));
      var m1 := Apply(m, Kfree(b));
      assert m1.heap.live.Keys == m.heap.live.Keys - {b};
      FreedKeys(m1, order[1..], s - {b});
    }
  }

  /** Whatever the order, a guarded run that frees every live block is back at boot. */
  lemma FreedToBoot(m: Memory, order: seq<nat>)
    requires Good(m) && Lists(order, m.heap.live.Keys) && GuardedRun(m, Frees(order))
    ensures Run(m, Frees(order)) == Boot(m.heap.limit)
  {
    FreedKeys(m, order, m.heap.live.Keys);
    var m' := Run(m, Frees(order));
    assert m'.heap.live == map[] && m'.wanted == map[];
    AllFreedIsInitial(m'.heap);
  }

  /** With the bottom block free, no order of frees meets the failing case. */
  lemma {:induction false} FreesAreSparing(m: Memory, order: seq<nat>, s: set<nat>)
    requires Good(m) && 0 in m.heap.free && Lists(order, s) && s <= m.heap.live.Keys
    ensures SparingRun(m, Frees(order))
    decreases |order|
  {
    if order != [] {
      var b := order[0];
      assert Frees(order)[0] == Kfree(b) && Frees(order)[1..] == Frees(order[1..]);
      SparingBottomIsEnough(m, Kfree(b));
      CallKeepsGood(m, Kfree(b));
      FreesAreSparing(Apply(m, Kfree(b)), order[1..], s - {b});
    }
  }

  /** When only the bottom block is live, the rest is one free block and touches it. */
  lemma OnlyBottomLive(h: Heap)
    requires Sound(h) && h.live.Keys == {0}
    ensures TouchesLoneBlock(h, 0)
  {
    var m, up := Blocks(h), h.live[0];
    assert m[0] == up && Piece(m, h.limit, 0);
    assert h.rover in m && Piece(m, h.limit, h.rover);
    assert up in h.free && m[up] == h.free[up] && Piece(m, h.limit, up);
    assert Apart(h.free, up);
    forall x | x in h.free ensures x == up {
      assert x in m && Piece(m, h.limit, x);
    }
    assert h.free.Keys == {up};
  }

  /** With the bottom block live, freeing it last meets the failing case, or an earlier free does. */
  lemma BottomFreedLast(m: Memory, order: seq<nat>)
    requires Good(m) && 0 in m.heap.live && Lists(order, m.heap.live.Keys - {0})
    ensures !GuardedRun(m, Frees(order + [0]))
  {
    FreesOneMore(order, 0);
    RunSplits(m, Frees(order), [Kfree(0)]);
    if GuardedRun(m, Frees(order)) {
      FreedKeys(m, order, m.heap.live.Keys - {0});
      var h := Run(m, Frees(order)).heap;
      assert h.live.Keys == {0};
      OnlyBottomLive(h);
    }
  }

  /** Every order of freeing all live blocks restores the boot state if and only if the bottom block
      is free. */
  lemma AnyOrderRestoresBoot(m: Memory)
    requires Good(m)
    ensures (forall order :: Lists(order, m.heap.live.Keys) ==>
              GuardedRun(m, Frees(order)) && Run(m, Frees(order)) == Boot(m.heap.limit)) <==>
            0 in m.heap.free
  {
    if 0 in m.heap.free {
      forall order | Lists(order, m.heap.live.Keys)
        ensures GuardedRun(m, Frees(order)) && Run(m, Frees(order)) == Boot(m.heap.limit)
      {
        FreesAreSparing(m, order, m.heap.live.Keys);
        SparingRunsAreGuarded(m, Frees(order));
        FreedToBoot(m, order);
      }
    } else {
      assert 0 in Blocks(m.heap);
      var others := SomeListing(m.heap.live.Keys - {0});
      BottomFreedLast(m, others);
      ListsOneMore(others, m.heap.live.Keys - {0}, 0);
      assert m.heap.live.Keys - {0} + {0} == m.heap.live.Keys;
    }
  }

  /** So after any run of calls that spare the bottom block, freeing everything in any order leaves the
      single initial block. */
  lemma SparingRunsCanBeUndone(limit: nat, calls: seq<Call>, order: seq<nat>)
    requires limit > 0 && SparingRun(Boot(limit), calls)
    ensures GuardedRun(Boot(limit), calls)
    ensures Lists(order, Run(Boot(limit), calls).heap.live.Keys) ==>
              GuardedRun(Boot(limit), calls + Frees(order)) &&
              Run(Boot(limit), calls + Frees(order)) == Boot(limit)
  {
    SparingRunsAreGuarded(Boot(limit), calls);
    var m := Run(Boot(limit), calls);
    if Lists(order, m.heap.live.Keys) {
      AnyOrderRestoresBoot(m);
      RunSplits(Boot(limit), calls, Frees(order));
    }
  }

  // ---------- why the guards are needed ----------

  /** A list of one block large enough: the scan finds it wherever it starts. */
  lemma OnlyBlockFits(h: Heap, a: nat, n: nat)
    requires ListOk(h) && h.free.Keys == {a} && h.free[a] >= n
    ensures FirstFit(h, n) == Some(a)
  {
    assert FirstMet(h, n, a) by { assert h.rover in h.free.Keys; }
    FirstMetIsFit(h, n, a);
  }

  /** Unlinking the only block of the ring changes nothing but the live map. */
  lemma CarveOnlyBlock(h: Heap, a: nat, n: nat)
    requires ListOk(h) && h.free == map[a := n] && n > 0
    ensures a in h.free && Carve(h, a, n) == Heap(h.limit, h.free, h.live[a := n], a)
  {
    assert h.free.Keys == {a};
    assert Predecessor(h.free.Keys, h.limit, a) in h.free.Keys;
  }

  /** Taking the whole of the only free block leaves it listed: the same request gets it again. */
  lemma LastBlockIsHandedOutTwice(h: Heap, n: nat)
    requires ListOk(h) && n > 0 && TakesLastBlock(h, n)
    ensures var (h1, r1) := Allocate(h, n);
            var (h2, r2) := Allocate(h1, n);
            r1.Some? && r2 == r1 && r1.value in h1.live && r1.value in h1.free
  {
    var a := FirstFit(h, n).value;
    CarveOnlyBlock(h, a, n);
    var h1 := Carve(h, a, n);
    assert h1.free.Keys == {a};
    OnlyBlockFits(h1, a, n);
  }

  /** A first request for the whole heap, repeated, returns the same address. */
  lemma WholeHeapIsHandedOutTwice(limit: nat)
    requires limit > 0
    ensures var (h1, r1) := Allocate(Initial(limit), limit);
            r1 == Some(0) && Allocate(h1, limit).1 == Some(0) && !Sound(h1)
  {
    var h := Initial(limit);
    assert h.free.Keys == {0};
    OnlyBlockFits(h, 0, limit);
    LastBlockIsHandedOutTwice(h, limit);
  }

  lemma LoneRelease(h: Heap, b: nat)
    requires Sound(h) && b in h.live && TouchesLoneBlock(h, b)
    ensures b !in h.free && h.live[b] > 0
    ensures var up := b + h.live[b];
            var h1 := Release(h, b);
            && h1.free.Keys == {up, b} && h1.free[up] == h.free[up] && h1.free[b] == h.live[b] + h.free[up]
            && h1.rover == up && h1.limit == h.limit && ListOk(h1)
  {
    PredecessorIsBelowOrFar(h, b);
    assert Piece(Blocks(h), h.limit, b) && Blocks(h)[b] == h.live[b];
  }

  /** The scan starts just above the inner block and meets the merged one first. */
  lemma MergedIsMet(h1: Heap, b: nat, up: nat, n: nat)
    requires ListOk(h1) && h1.free.Keys == {up, b} && b < up && h1.rover == up && h1.free[b] >= n
    ensures FirstFit(h1, n) == Some(b)
  {
    assert FirstMet(h1, n, b) by {
      assert b in h1.free.Keys && forall x :: x in h1.free ==> x in h1.free.Keys;
    }
    FirstMetIsFit(h1, n, b);
  }

  /** Freeing a block just below the only free block keeps that block listed inside the merged one:
      a request of its size is served from it, and it is still on the list afterwards. */
  lemma LoneBlockIsListedTwice(h: Heap, b: nat)
    requires Sound(h) && b in h.live && TouchesLoneBlock(h, b)
    ensures b !in h.free && ListOk(Release(h, b))
    ensures var up := b + h.live[b];
            var h1 := Release(h, b);
            var (h2, r) := Allocate(h1, h.free[up]);
            && Holds(h1.free, b, up) && up in h1.free
            && r == Some(up) && up in h2.live && up in h2.free
  {
    LoneRelease(h, b);
    var up := b + h.live[b];
    assert up in h.free.Keys;
    var h1 := Release(h, b);
    assert b in h1.free.Keys && up in h1.free.Keys;
    MergedIsMet(h1, b, up, h.free[up]);
  }

  // ---------- a run that reaches the second failure ----------

  /** One guarded call and the memory it leads to. */
  ghost predicate Leads(m: Memory, c: Call, m': Memory) {
    Good(m) && Guarded(m, c) && Apply(m, c) == m'
  }

  ghost predicate Reaches(m: Memory, calls: seq<Call>, m': Memory) {
    Good(m) && GuardedRun(m, calls) && Run(m, calls) == m'
  }

  lemma LeadsOn(m: Memory, c: Call, m': Memory, calls: seq<Call>, m'': Memory)
    requires calls != [] && calls[0] == c && Leads(m, c, m') && Reaches(m', calls[1..], m'')
    ensures Reaches(m, calls, m'')
  {}

  /** Four memories on the way, of a heap of eight units. */
  function Memory1(): Memory { Memory(Heap(8, map[0 := 6], map[6 := 2], 0), map[6 := 8]) }
  function Memory2(): Memory { Memory(Heap(8, map[0 := 4], map[6 := 2, 4 := 2], 0), map[6 := 8, 4 := 8]) }
  function Memory3(): Memory { Memory(Heap(8, map[0 := 4, 6 := 2], map[4 := 2], 0), map[4 := 8]) }
  function Memory4(): Memory { Memory(Heap(8, map[6 := 2], map[4 := 2, 0 := 4], 6), map[4 := 8, 0 := 24]) }

  /** A request served from the tail of block `a`. */
  lemma TailCall(m: Memory, nbytes: nat, a: nat, q: nat)
    requires Good(m) && nbytes <= WORD - HEADER && FirstMet(m.heap, UnitsFor(nbytes), a)
    requires UnitsFor(nbytes) < m.heap.free[a] && Precedes(m.heap.free.Keys, q, a)
    ensures var h, n := m.heap, UnitsFor(nbytes);
            var rest := h.free[a] - n;
            Leads(m, Kmalloc(nbytes),
                  Memory(Heap(h.limit, h.free[a := rest], h.live[a + rest := n], q), m.wanted[a + rest := nbytes]))
  {
    FirstMetIsFit(m.heap, UnitsFor(nbytes), a);
    PredecessorIsUnique(m.heap.free.Keys, q, Predecessor(m.heap.free.Keys, m.heap.limit, a), a);
  }

  /** A request that takes the whole of block `a`, which is not alone. */
  lemma WholeCall(m: Memory, nbytes: nat, a: nat, q: nat)
    requires Good(m) && nbytes <= WORD - HEADER && FirstMet(m.heap, UnitsFor(nbytes), a)
    requires UnitsFor(nbytes) == m.heap.free[a] && Precedes(m.heap.free.Keys, q, a) && q != a
    ensures var h, n := m.heap, UnitsFor(nbytes);
            Leads(m, Kmalloc(nbytes),
                  Memory(Heap(h.limit, h.free - {a}, h.live[a := n], q), m.wanted[a := nbytes]))
  {
    FirstMetIsFit(m.heap, UnitsFor(nbytes), a);
    PredecessorIsUnique(m.heap.free.Keys, q, Predecessor(m.heap.free.Keys, m.heap.limit, a), a);
    assert q in m.heap.free.Keys;
  }

  /** A block freed between blocks that stay live. */
  lemma ApartCall(m: Memory, b: nat, p: nat)
    requires Good(m) && b in m.heap.live && Precedes(m.heap.free.Keys, p, b)
    requires b + m.heap.live[b] !in m.heap.free && p + m.heap.free[p] != b
    ensures var h := m.heap;
            Leads(m, Kfree(b), Memory(Heap(h.limit, h.free[b := h.live[b]], h.live - {b}, p), m.wanted - {b}))
  {
    PredecessorIsBelowOrFar(m.heap, b);
    PredecessorIsUnique(m.heap.free.Keys, p, Predecessor(m.heap.free.Keys, m.heap.limit, b), b);
    assert p in m.heap.free.Keys;
  }

  /** A request served from the tail of the only free block, at the bottom. */
  lemma OnlyTailCall(m: Memory, nbytes: nat)
    requires Good(m) && nbytes <= WORD - HEADER && m.heap.free.Keys == {0} && UnitsFor(nbytes) < m.heap.free[0]
    ensures var h, n := m.heap, UnitsFor(nbytes);
            var rest := h.free[0] - n;
            Leads(m, Kmalloc(nbytes),
                  Memory(Heap(h.limit, h.free[0 := rest], h.live[rest := n], 0), m.wanted[rest := nbytes]))
  {
    assert forall x :: x in m.heap.free ==> x in m.heap.free.Keys;
    assert FirstMet(m.heap, UnitsFor(nbytes), 0) && Precedes(m.heap.free.Keys, 0, 0);
    TailCall(m, nbytes, 0, 0);
  }

  lemma Step1()
    ensures Leads(Boot(8), Kmalloc(8), Memory1())
  {
    assert Boot(8).heap.free.Keys == {0};
    OnlyTailCall(Boot(8), 8);
  }

  lemma Step2()
    requires Good(Memory1())
    ensures Leads(Memory1(), Kmalloc(8), Memory2())
  {
    assert Memory1().heap.free.Keys == {0};
    OnlyTailCall(Memory1(), 8);
  }

  lemma Step3()
    requires Good(Memory2())
    ensures Leads(Memory2(), Kfree(6), Memory3())
  {
    ApartCall(Memory2(), 6, 0);
    assert Memory2().heap.live - {6} == map[4 := 2];
    assert Memory2().wanted - {6} == map[4 := 8];
  }

  lemma BottomMetFirst(h: Heap, n: nat, q: nat)
    requires ListOk(h) && h.rover == 0 && h.free.Keys == {0, q} && q > 0 && h.free[q] < n <= h.free[0]
    ensures FirstMet(h, n, 0) && Precedes(h.free.Keys, q, 0)
  {
    assert forall x :: x in h.free ==> x in h.free.Keys;
    assert 0 in h.free.Keys && q in h.free.Keys;
  }

  lemma Step4()
    requires Good(Memory3())
    ensures Leads(Memory3(), Kmalloc(24), Memory4())
  {
    var m := Memory3();
    assert m.heap.free.Keys == {0, 6};
    assert m.heap.free - {0} == map[6 := 2];
    BottomMetFirst(m.heap, 4, 6);
    WholeCall(m, 24, 0, 6);
  }

  lemma StepsAreGood() returns (m0: Memory, m1: Memory, m2: Memory, m3: Memory, m4: Memory)
    ensures m0 == Boot(8) && Leads(m0, Kmalloc(8), m1) && Leads(m1, Kmalloc(8), m2)
    ensures Leads(m2, Kfree(6), m3) && Leads(m3, Kmalloc(24), m4)
    ensures Good(m4) && 4 in m4.heap.live && TouchesLoneBlock(m4.heap, 4)
  {
    m0, m1, m2, m3, m4 := Boot(8), Memory1(), Memory2(), Memory3(), Memory4();
    Step1();
    CallKeepsGood(m0, Kmalloc(8));
    Step2();
    CallKeepsGood(m1, Kmalloc(8));
    Step3();
    CallKeepsGood(m2, Kfree(6));
    Step4();
    CallKeepsGood(m3, Kmalloc(24));
  }

  lemma TwoSteps(m0: Memory, c0: Call, m1: Memory, c1: Call, m2: Memory, rest: seq<Call>, m': Memory)
    requires Leads(m0, c0, m1) && Leads(m1, c1, m2) && Reaches(m2, rest, m')
    ensures Reaches(m0, [c0, c1] + rest, m')
  {
    var calls := [c0, c1] + rest;
    var more := calls[1..];
    assert more[0] == c1 && more[1..] == rest;
    LeadsOn(m1, c1, m2, more, m');
    LeadsOn(m0, c0, m1, calls, m');
  }

  lemma FourSteps(m0: Memory, c0: Call, m1: Memory, c1: Call, m2: Memory, c2: Call, m3: Memory, c3: Call, m4: Memory)
    requires Leads(m0, c0, m1) && Leads(m1, c1, m2) && Leads(m2, c2, m3) && Leads(m3, c3, m4) && Good(m4)
    ensures Reaches(m0, [c0, c1] + [c2, c3], m4)
  {
    assert Reaches(m4, [], m4);
    TwoSteps(m2, c2, m3, c3, m4, [], m4);
    assert [c2, c3] + [] == [c2, c3];
    TwoSteps(m0, c0, m1, c1, m2, [c2, c3], m4);
  }

  lemma FailingRelease(m: Memory, b: nat)
    requires Good(m) && b in m.heap.live && TouchesLoneBlock(m.heap, b)
    ensures Proper(m, Kfree(b)) && !Guarded(m, Kfree(b)) && !Good(Apply(m, Kfree(b)))
  {
    CallKeepsGood(m, Kfree(b));
  }

  /** A guarded run from boot, after which freeing a live block is proper and corrupts the list. */
  lemma BootReachesFailingRelease() returns (m: Memory)
    ensures Reaches(Boot(8), [Kmalloc(8), Kmalloc(8)] + [Kfree(6), Kmalloc(24)], m)
    ensures Proper(m, Kfree(4)) && !Guarded(m, Kfree(4)) && !Good(Apply(m, Kfree(4)))
  {
    var m0, m1, m2, m3, m4 := StepsAreGood();
    m := m4;
    FourSteps(m0, Kmalloc(8), m1, Kmalloc(8), m2, Kfree(6), m3, Kmalloc(24), m4);
    FailingRelease(m4, 4);
  }

  // ---------- where the next search begins ----------

  /** After the tail of a block has been taken, its rest is tried first. */
  lemma RestIsTriedFirst(h: Heap, a: nat, n: nat, next: nat)
    requires ListOk(h) && a in h.free && 0 < n < h.free[a] && 0 < next <= h.free[a] - n
    ensures FirstMet(Carve(h, a, n), next, a)
  {}

  /** After a whole block has been taken, the others are tried in the order in which they follow it. */
  lemma SearchGoesOnBehind(h: Heap, a: nat, x: nat, y: nat)
    requires ListOk(h) && a in h.free && x in h.free && y in h.free && a != x && a != y && x != y
    ensures MetBefore(Carve(h, a, h.free[a]).rover, x, y) <==> MetBefore(a, x, y)
  {}

  /** After a release, the released block is tried first, unless it was joined with the block below: that one is then
      tried last. */
  lemma ReleasedIsTried(h: Heap, b: nat, next: nat)
    requires Sound(h) && b in h.live && !TouchesLoneBlock(h, b) && next > 0
    ensures var h' := Release(h, b);
            if b in h'.free then next <= h'.free[b] ==> FirstMet(h', next, b)
            else Holds(h'.free, h'.rover, b)
  {
    ReleaseKeepsSound(h, b);
    ReleasedOrJoined(h, b);
  }

  lemma ReleasedOrJoined(h: Heap, b: nat)
    requires Sound(h) && b in h.live && !TouchesLoneBlock(h, b)
    ensures var h' := Release(h, b);
            if b in h'.free then Precedes(h'.free.Keys, h'.rover, b) else Holds(h'.free, h'.rover, b)
  {
    var p := Predecessor(h.free.Keys, h.limit, b);
    assert Piece(Blocks(h), h.limit, b);
    PredecessorIsBelowOrFar(h, b);
  }
}
