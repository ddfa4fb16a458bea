/**
The kernel heap as a value: which blocks are on the free list, which are handed out, and where the
roving pointer stands.  Addresses and sizes are counted in 8-byte units from KERNEL_MEM_START.
Allocate and Release say what kmalloc and kfree do to this value, corrupting cases included.
*/
module HeapModel {
  import opened Options
  import opened Words

  /** `limit` units in all; `free` and `live` map a block's first unit (its header) to its size. */
  datatype Heap = Heap(limit: nat, free: map<nat, nat>, live: map<nat, nat>, rover: nat)

  const HEADER: nat := 8

  /** kmalloc's unit count: the addition is on 32-bit unsigned values. */
  function UnitsFor(nbytes: nat): (n: nat)
    ensures n >= 1
  {
    (nbytes + HEADER - 1) % WORD / HEADER + 1
  }

  /** The payload covers the request exactly when the rounding addition does not wrap. */
  lemma PayloadCoversRequest(nbytes: nat)
    requires nbytes < WORD
    ensures 8 * (UnitsFor(nbytes) - 1) >= nbytes <==> nbytes <= 0x1_0000_0000 - 8
    ensures nbytes <= 0x1_0000_0000 - 8 ==> 8 * (UnitsFor(nbytes) - 1) < nbytes + 8
  {
    if nbytes > WORD - HEADER {
      assert (nbytes + HEADER - 1) % WORD == nbytes + HEADER - 1 - WORD;
    }
  }

  // ---------- cyclic order ----------

  /** Going up from `a` and wrapping at the top, no member of `F` lies strictly between `a` and `b`. */
  ghost predicate Precedes(F: set<nat>, a: nat, b: nat) {
    a in F &&
    if a < b then forall x :: x in F ==> !(a < x < b)
    else forall x :: x in F ==> b <= x <= a
  }

  /** The first block in [lo, hi) of at least `n` units. */
  function LeastFit(m: map<nat, nat>, lo: nat, hi: nat, n: nat): (r: Option<nat>)
    decreases hi - lo
    ensures r.Some? ==> lo <= r.value < hi && r.value in m && m[r.value] >= n
    ensures r.Some? ==> forall x :: x in m && lo <= x < r.value ==> m[x] < n
    ensures r.None? ==> forall x :: x in m && lo <= x < hi ==> m[x] < n
  {
    if lo >= hi then None
    else if lo in m && m[lo] >= n then Some(lo)
    else LeastFit(m, lo + 1, hi, n)
  }

  function GreatestBelow(F: set<nat>, hi: nat): (r: Option<nat>)
    ensures r.Some? ==> r.value < hi && r.value in F && forall x :: x in F && x < hi ==> x <= r.value
    ensures r.None? ==> forall x :: x in F ==> x >= hi
  {
    if hi == 0 then None
    else if hi - 1 in F then Some(hi - 1)
    else GreatestBelow(F, hi - 1)
  }

  /** The member of `F` that a walk up the circular list passes last before reaching `b`. */
  function Predecessor(F: set<nat>, limit: nat, b: nat): (p: nat)
    requires F != {} && forall x :: x in F ==> x < limit
    ensures Precedes(F, p, b)
  {
    match GreatestBelow(F, b)
    case Some(p) => p
    case None =>
      var top := GreatestBelow(F, limit);
      assert exists x :: x in F;
      top.value
  }

  lemma PredecessorIsUnique(F: set<nat>, p: nat, q: nat, b: nat)
    requires Precedes(F, p, b) && Precedes(F, q, b)
    ensures p == q
  {}

  // ---------- what the two calls do ----------

  /** First fit in cyclic address order, starting just above the rover and trying the rover last. */
  function FirstFit(h: Heap, n: nat): (r: Option<nat>)
    ensures r.Some? ==> r.value in h.free && h.free[r.value] >= n
  {
    match LeastFit(h.free, h.rover + 1, h.limit, n)
    case Some(a) => Some(a)
    case None => LeastFit(h.free, 0, h.rover + 1, n)
  }

  /** Going up from `r` with wrap-around, `x` is met strictly before `p`. */
  predicate MetBefore(r: nat, x: nat, p: nat) {
    if r < p then r < x < p else x > r || x < p
  }

  ghost predicate ListOk(h: Heap) {
    h.rover in h.free &&
    forall a :: a in h.free ==> 0 < h.free[a] && a + h.free[a] <= h.limit
  }

  /** Every block met before `p` is too small. */
  ghost predicate NoneBefore(h: Heap, n: nat, p: nat) {
    forall x :: x in h.free && MetBefore(h.rover, x, p) ==> h.free[x] < n
  }

  /** Block `p` is the first one met that is large enough. */
  ghost predicate FirstMet(h: Heap, n: nat, p: nat) {
    ListOk(h) && p in h.free && h.free[p] >= n && NoneBefore(h, n, p)
  }

  lemma FirstMetIsFit(h: Heap, n: nat, p: nat)
    requires FirstMet(h, n, p)
    ensures FirstFit(h, n) == Some(p)
  {}

  ghost predicate NoneFits(h: Heap, n: nat) {
    forall x :: x in h.free ==> h.free[x] < n
  }

  lemma NoneFitsNone(h: Heap, n: nat)
    requires NoneFits(h, n)
    ensures FirstFit(h, n) == None
  {}

  /** Taking `n` units from block `a`: all of it, or its tail.  Unlinking the only block of a circular
      list changes nothing, so in that case the block stays on the free list. */
  function Carve(h: Heap, a: nat, n: nat): (h': Heap)
    requires ListOk(h) && a in h.free && 0 < n <= h.free[a]
    ensures ListOk(h')
  {
    var prev := Predecessor(h.free.Keys, h.limit, a);
    if h.free[a] == n then
      Heap(h.limit, if prev == a then h.free else h.free - {a}, h.live[a := n], prev)
    else
      var rest := h.free[a] - n;
      Heap(h.limit, h.free[a := rest], h.live[a + rest := n], prev)
  }

  function CarvedAt(h: Heap, a: nat, n: nat): nat
    requires a in h.free && n <= h.free[a]
  {
    a + h.free[a] - n
  }

  function Allocate(h: Heap, n: nat): (r: (Heap, Option<nat>))
    requires ListOk(h) && n > 0
    ensures ListOk(r.0)
  {
    match FirstFit(h, n)
    case None => (h, None)
    case Some(a) => (Carve(h, a, n), Some(CarvedAt(h, a, n)))
  }

  /** Join block `a` with the free block that starts where `a` ends, if there is one. */
  function Absorb(free: map<nat, nat>, a: nat): (free': map<nat, nat>)
    requires a in free
  {
    var up := a + free[a];
    if up in free then Joined(free, a) else free
  }

  /** Returning block `b`: link it, join it with the block above, then with the block below.  When the
      block above is the only free block, the old links still name it and it stays on the list. */
  function Release(h: Heap, b: nat): (h': Heap)
    requires ListOk(h) && b in h.live && b !in h.free
  {
    var p := Predecessor(h.free.Keys, h.limit, b);
    var up := b + h.live[b];
    var free' :=
      if p == up then h.free[b := h.live[b] + h.free[up]]
      else
        var linked := Absorb(h.free[b := h.live[b]], b);
        if p + h.free[p] == b then Absorb(linked, p) else linked;
    Heap(h.limit, free', h.live - {b}, p)
  }

  // ---------- the heap invariant ----------

  /** The blocks of `m` cut [0, limit) into consecutive pieces. */
  ghost predicate Tiling(m: map<nat, nat>, limit: nat) {
    0 in m && forall a {:trigger Piece(m, limit, a)} :: a in m ==> Piece(m, limit, a)
  }

  /** Block `a` ends where another block starts or at the limit, and no block starts inside it. */
  ghost predicate Piece(m: map<nat, nat>, limit: nat, a: nat)
    requires a in m
  {
    && m[a] > 0
    && (a + m[a] == limit || (a + m[a] < limit && a + m[a] in m))
    && forall x :: x in m ==> !(a < x < a + m[a])
  }

  lemma SplitKeepsTiling(m: map<nat, nat>, limit: nat, a: nat, k: nat)
    requires Tiling(m, limit) && a in m && 0 < k < m[a]
    ensures Tiling(m[a := k][a + k := m[a] - k], limit)
  {
    var m' := m[a := k][a + k := m[a] - k];
    assert Piece(m, limit, a);
    forall x | x in m' ensures Piece(m', limit, x) {
      if x != a && x != a + k {
        assert Piece(m, limit, x);
      }
    }
  }

  /** `m` with block `a` and the block above it joined. */
  function Joined(m: map<nat, nat>, a: nat): (m': map<nat, nat>)
    requires a in m && a + m[a] in m
  {
    (m - {a + m[a]})[a := m[a] + m[a + m[a]]]
  }

  /** Two different blocks of a tiling do not end at the same place. */
  lemma EndsDiffer(m: map<nat, nat>, limit: nat, a: nat, b: nat)
    requires a in m && b in m && Piece(m, limit, a) && Piece(m, limit, b) && a + m[a] == b + m[b]
    ensures a == b
  {}

  lemma JoinedBlock(m: map<nat, nat>, limit: nat, a: nat)
    requires a in m && a + m[a] in m && Piece(m, limit, a) && Piece(m, limit, a + m[a])
    ensures Piece(Joined(m, a), limit, a)
  {
    var up, m' := a + m[a], Joined(m, a);
    assert m'[a] == m[a] + m[up];
    forall x | x in m' ensures !(a < x < a + m'[a]) {
      assert x in m && x != up;
    }
  }

  lemma OtherBlock(m: map<nat, nat>, limit: nat, a: nat, b: nat)
    requires a in m && a + m[a] in m && b in m && b != a && b != a + m[a]
    requires Piece(m, limit, a) && Piece(m, limit, b)
    ensures Piece(Joined(m, a), limit, b)
  {
    var m' := Joined(m, a);
    assert m'[b] == m[b];
    if b + m[b] == a + m[a] {
      EndsDiffer(m, limit, a, b);
    }
    forall x | x in m' ensures !(b < x < b + m'[b]) {
      assert x in m;
    }
  }

  lemma JoinKeepsTiling(m: map<nat, nat>, limit: nat, a: nat)
    requires Tiling(m, limit) && a in m && a + m[a] in m
    ensures Tiling(Joined(m, a), limit)
  {
    var up, m' := a + m[a], Joined(m, a);
    assert Piece(m, limit, a) && Piece(m, limit, up);
    forall b | b in m' ensures Piece(m', limit, b) {
      if b == a {
        JoinedBlock(m, limit, a);
      } else {
        assert Piece(m, limit, b);
        OtherBlock(m, limit, a, b);
      }
    }
  }

  function Blocks(h: Heap): map<nat, nat> {
    h.free + h.live
  }

  /** No two free blocks touch. */
  ghost predicate Coalesced(free: map<nat, nat>) {
    forall a {:trigger Apart(free, a)} :: a in free ==> Apart(free, a)
  }

  ghost predicate Apart(free: map<nat, nat>, a: nat)
    requires a in free
  {
    a + free[a] !in free
  }

  ghost predicate Sound(h: Heap) {
    ListOk(h) && Tiled(h) && Coalesced(h.free)
  }

  /** Every unit belongs to exactly one block, and the block is either free or live. */
  ghost predicate Tiled(h: Heap) {
    h.free.Keys !! h.live.Keys && Tiling(Blocks(h), h.limit)
  }

  function Initial(limit: nat): (h: Heap)
    requires limit > 0
    ensures Sound(h)
  {
    Heap(limit, map[0 := limit], map[], 0)
  }

  /** kmalloc's failing case: the request takes the whole of the only free block. */
  predicate TakesLastBlock(h: Heap, n: nat) {
    var a := FirstFit(h, n);
    a.Some? && h.free == map[a.value := n]
  }

  /** kfree's failing case: the only free block starts exactly where `b` ends. */
  predicate TouchesLoneBlock(h: Heap, b: nat)
    requires b in h.live
  {
    h.free.Keys == {b + h.live[b]}
  }

  lemma AllocateKeepsSound(h: Heap, n: nat)
    requires Sound(h) && n > 0
    ensures Sound(Allocate(h, n).0) <==> !TakesLastBlock(h, n)
  {
    var fit := FirstFit(h, n);
    if fit.Some? {
      var a := fit.value;
      if h.free[a] != n {
        CarveTailSound(h, a, n);
      } else if h.free.Keys == {a} {
        assert h.free == map[a := n];
        assert a in Carve(h, a, n).free && a in Carve(h, a, n).live;
      } else {
        CarveWholeSound(h, a);
      }
    }
  }

  lemma CarveTailTiled(h: Heap, a: nat, n: nat)
    requires ListOk(h) && Tiled(h) && a in h.free && 0 < n < h.free[a]
    ensures Tiled(Carve(h, a, n)) && a + h.free[a] - n !in h.free
  {
    var rest := h.free[a] - n;
    var m := Blocks(h);
    assert m[a] == h.free[a];
    assert a + rest !in m by { assert Piece(m, h.limit, a); }
    SplitKeepsTiling(m, h.limit, a, rest);
    UpdateBothSides(h.free, h.live, a, rest, a + rest, n);
    var h' := Carve(h, a, n);
    assert h'.free == h.free[a := rest] && h'.live == h.live[a + rest := n];
  }

  lemma UpdateBothSides(free: map<nat, nat>, live: map<nat, nat>, a: nat, x: nat, b: nat, y: nat)
    requires a !in live && a != b
    ensures free[a := x] + live[b := y] == (free + live)[a := x][b := y]
  {}

  lemma ShrinkCoalesced(free: map<nat, nat>, a: nat, rest: nat)
    requires Coalesced(free) && a in free && a + rest !in free && rest > 0
    ensures Coalesced(free[a := rest])
  {
    var free' := free[a := rest];
    forall x | x in free' ensures Apart(free', x) {
      assert Apart(free, x);
    }
  }

  lemma CarveTailSound(h: Heap, a: nat, n: nat)
    requires Sound(h) && a in h.free && 0 < n < h.free[a]
    ensures Sound(Carve(h, a, n))
  {
    CarveTailTiled(h, a, n);
    ShrinkCoalesced(h.free, a, h.free[a] - n);
  }

  lemma CarveWholeSound(h: Heap, a: nat)
    requires Sound(h) && a in h.free && h.free.Keys != {a}
    ensures Sound(Carve(h, a, h.free[a]))
  {
    var h' := Carve(h, a, h.free[a]);
    assert exists x :: x in h.free && x != a;
    assert h'.free == h.free - {a};
    assert Blocks(h') == Blocks(h);
    forall x | x in h'.free ensures Apart(h'.free, x) { assert Apart(h.free, x); }
  }

  // ---------- releasing a block keeps the invariant ----------

  lemma LinkTiled(h: Heap, b: nat)
    requires Tiled(h) && b in h.live
    ensures Tiled(h.(free := h.free[b := h.live[b]], live := h.live - {b}))
  {
    assert Blocks(h.(free := h.free[b := h.live[b]], live := h.live - {b})) == Blocks(h);
  }

  lemma AbsorbTiled(h: Heap, a: nat)
    requires Tiled(h) && a in h.free
    ensures Tiled(h.(free := Absorb(h.free, a)))
  {
    var up := a + h.free[a];
    if up in h.free {
      assert Blocks(h)[a] == h.free[a] && Blocks(h)[up] == h.free[up];
      JoinKeepsTiling(Blocks(h), h.limit, a);
      assert Blocks(h.(free := Absorb(h.free, a))) == Joined(Blocks(h), a);
    }
  }

  /** The block above `b` is the predecessor of `b` only when it is the only free block. */
  lemma PredecessorIsBelowOrFar(h: Heap, b: nat)
    requires Sound(h) && b in h.live
    ensures b !in h.free
    ensures Predecessor(h.free.Keys, h.limit, b) == b + h.live[b] <==> TouchesLoneBlock(h, b)
  {
    var p := Predecessor(h.free.Keys, h.limit, b);
    var up := b + h.live[b];
    assert Blocks(h)[b] == h.live[b];
    assert Piece(Blocks(h), h.limit, b);
    if p == up {
      forall x | x in h.free ensures x == up { assert x in Blocks(h); }
      assert h.free.Keys == {up};
    }
  }

  lemma ReleaseTiled(h: Heap, b: nat)
    requires Sound(h) && b in h.live && !TouchesLoneBlock(h, b)
    ensures b !in h.free && Tiled(Release(h, b))
  {
    PredecessorIsBelowOrFar(h, b);
    LinkTiled(h, b);
    var h1 := h.(free := h.free[b := h.live[b]], live := h.live - {b});
    AbsorbTiled(h1, b);
    var h2 := h1.(free := Absorb(h1.free, b));
    AbsorbTiled(h2, Predecessor(h.free.Keys, h.limit, b));
  }

  /** Which blocks the free list holds afterwards, and how large they are. */
  lemma ReleaseShape(h: Heap, b: nat, a: nat)
    requires Sound(h) && b in h.live && !TouchesLoneBlock(h, b)
    ensures b !in h.free
    ensures var p := Predecessor(h.free.Keys, h.limit, b);
            var size := h.live[b] + if b + h.live[b] in h.free then h.free[b + h.live[b]] else 0;
            var free' := Release(h, b).free;
            a in free' ==>
              if p + h.free[p] == b && a == p then free'[a] == h.free[p] + size
              else if a == b then p + h.free[p] != b && free'[a] == size
              else a in h.free && free'[a] == h.free[a]
  {
    PredecessorIsBelowOrFar(h, b);
  }

  /** Of the blocks that were free, only the predecessor can end at `b`. */
  lemma TouchingIsPredecessor(h: Heap, b: nat, a: nat)
    requires Sound(h) && b in h.live
    ensures a in h.free && a + h.free[a] == b ==> a == Predecessor(h.free.Keys, h.limit, b)
  {
    if a in h.free && a + h.free[a] == b {
      OnlyPredecessorTouches(h, a, b);
    }
  }

  lemma ReleasedApart(h: Heap, b: nat, a: nat)
    requires Sound(h) && b in h.live && !TouchesLoneBlock(h, b) && b !in h.free && a in Release(h, b).free
    ensures Apart(Release(h, b).free, a)
  {
    var end := a + Release(h, b).free[a];
    assert Piece(Blocks(h), h.limit, b) && Blocks(h)[b] == h.live[b];
    assert a in h.free ==> Apart(h.free, a);
    assert b + h.live[b] in h.free ==> Apart(h.free, b + h.live[b]);
    TouchingIsPredecessor(h, b, a);
    ReleaseShape(h, b, a);
    ReleaseShape(h, b, end);
  }

  lemma ReleaseCoalesced(h: Heap, b: nat)
    requires Sound(h) && b in h.live && !TouchesLoneBlock(h, b)
    ensures b !in h.free && Coalesced(Release(h, b).free)
  {
    PredecessorIsBelowOrFar(h, b);
    forall a | a in Release(h, b).free ensures Apart(Release(h, b).free, a) {
      ReleasedApart(h, b, a);
    }
  }

  lemma OnlyPredecessorTouches(h: Heap, a: nat, b: nat)
    requires Sound(h) && a in h.free && a + h.free[a] == b
    ensures Predecessor(h.free.Keys, h.limit, b) == a
  {
    assert Blocks(h)[a] == h.free[a];
    assert Piece(Blocks(h), h.limit, a);
    forall x | x in h.free ensures !(a < x < b) { assert x in Blocks(h); }
    PredecessorIsUnique(h.free.Keys, a, Predecessor(h.free.Keys, h.limit, b), b);
  }

  lemma TiledFitsLimit(h: Heap)
    requires Tiled(h)
    ensures forall a :: a in h.free ==> 0 < h.free[a] && a + h.free[a] <= h.limit
  {
    forall a | a in h.free ensures 0 < h.free[a] && a + h.free[a] <= h.limit {
      assert Piece(Blocks(h), h.limit, a) && Blocks(h)[a] == h.free[a];
    }
  }

  lemma ReleaseKeepsSound(h: Heap, b: nat)
    requires Sound(h) && b in h.live
    ensures b !in h.free
    ensures Sound(Release(h, b)) <==> !TouchesLoneBlock(h, b)
  {
    PredecessorIsBelowOrFar(h, b);
    var h' := Release(h, b);
    if TouchesLoneBlock(h, b) {
      var up := b + h.live[b];
      assert up in Blocks(h') && b in Blocks(h') && Blocks(h')[b] == h.live[b] + h.free[up];
      assert Piece(Blocks(h), h.limit, b) && Blocks(h)[b] == h.live[b];
      assert !Piece(Blocks(h'), h.limit, b);
    } else {
      ReleaseTiled(h, b);
      ReleaseCoalesced(h, b);
      TiledFitsLimit(h');
    }
  }
}
