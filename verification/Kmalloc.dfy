/** kmalloc and kfree over the header words in memory, proved to refine HeapModel. */
module Kmalloc {
  import opened Options
  import opened HeapModel
  import opened FreeList
  import opened HeapRuns

  /** The payload starts one unit above the header. */
  function Payload(a: Option<nat>): Option<nat> {
    if a.Some? then Some(a.value + 1) else None
  }

  /** Block `p`, the first one met that is large enough, is carved, and the payload starts behind the header. */
  ghost predicate Carves(h: Heap, n: nat, p: nat, h': Heap, payload: nat) {
    n > 0 && FirstMet(h, n, p) && h' == Carve(h, p, n) && payload == CarvedAt(h, p, n) + 1
  }

  /** What Allocate says, with the payload's first unit as the result. */
  ghost predicate Allocates(h: Heap, n: nat, h': Heap, r: Option<nat>) {
    match r
    case None => NoneFits(h, n) && h' == h
    case Some(payload) => exists p :: Carves(h, n, p, h', payload)
  }

  lemma AllocatesIs(h: Heap, n: nat, h': Heap, r: Option<nat>)
    requires ListOk(h) && n > 0 && Allocates(h, n, h', r)
    ensures h' == Allocate(h, n).0 && r == Payload(Allocate(h, n).1)
  {
    if r.None? {
      NoneFitsNone(h, n);
    } else {
      var p :| Carves(h, n, p, h', r.value);
      FirstMetIsFit(h, n, p);
    }
  }

  /** The pointer, if there is one, points behind the header of a block of `n` units that becomes live and was not. */
  ghost predicate HandsOut(h: Heap, n: nat, live': map<nat, nat>, r: Option<nat>) {
    match r
    case None => live' == h.live
    case Some(pointer) =>
      pointer > 0 && live' == h.live[pointer - 1 := n] && (Sound(h) ==> pointer - 1 !in h.live)
  }

  lemma PointsBehindHeader(h: Heap, n: nat)
    requires ListOk(h) && n > 0
    ensures HandsOut(h, n, Allocate(h, n).0.live, Payload(Allocate(h, n).1))
  {
    if Sound(h) && Allocate(h, n).1.Some? {
      FreshBlock(h, n);
    }
  }

  /** No word inside a block of `live` has changed. */
  ghost predicate Untouched(live: map<nat, nat>, was: seq<nat>, now: seq<nat>) {
    |was| == |now| &&
    forall a: nat, u: nat {:trigger Holds(live, a, u)} :: Holds(live, a, u) && u < |was| ==> now[u] == was[u]
  }

  ghost predicate Recorded(live: map<nat, nat>, size: seq<nat>) {
    forall a :: a in live ==> a < |size| && size[a] == live[a]
  }

  /** The three headers that kmalloc writes lie outside every live block. */
  lemma TakeSparesLive(h: Heap, q: nat, p: nat, n: nat)
    requires Sound(h) && q in h.free && p in h.free && 0 < n <= h.free[p]
    ensures forall a: nat, u: nat {:trigger Holds(h.live, a, u)} :: Holds(h.live, a, u) ==>
              u != p && u != q && u != CarvedAt(h, p, n)
    ensures forall a :: a in h.live ==> Holds(h.live, a, a) && a < h.limit
  {
    FreeBlockIsUnallocated(h, p, h.free[p]);
    FreeBlockIsUnallocated(h, q, h.free[q]);
    forall a | a in h.live ensures Holds(h.live, a, a) && a < h.limit {
      LiveBlockHoldsItself(h, a);
      assert Piece(Blocks(h), h.limit, a);
    }
  }

  /** A call on a sound heap changes no word of the blocks that stay live, and records each live size. */
  ghost predicate Spares(h: Heap, link: seq<nat>, size: seq<nat>, kept: map<nat, nat>,
                         live': map<nat, nat>, link': seq<nat>, size': seq<nat>) {
    Sound(h) ==>
      && Untouched(kept, link, link') && Untouched(kept, size, size')
      && (Recorded(h.live, size) ==> Recorded(live', size'))
  }

  lemma TakenUntouched(h: Heap, link: seq<nat>, size: seq<nat>, p: nat, n: nat)
    requires Stored(h, link, size) && p in h.free && 0 < n <= h.free[p]
    ensures Spares(h, link, size, h.live, Carve(h, p, n).live,
                   TakenLinks(link, size, Predecessor(h.free.Keys, h.limit, p), p, n), TakenSizes(size, p, n))
  {
    if Sound(h) {
      TakeSparesLive(h, Predecessor(h.free.Keys, h.limit, p), p, n);
      assert Carve(h, p, n).live == h.live[CarvedAt(h, p, n) := n];
    }
  }

  lemma NothingChanged(h: Heap, link: seq<nat>, size: seq<nat>)
    ensures Spares(h, link, size, h.live, h.live, link, size)
  {}

  /** Nothing live, nothing to spare. */
  lemma NothingLive(h: Heap, link: seq<nat>, size: seq<nat>, link1: seq<nat>, size1: seq<nat>,
                    live': map<nat, nat>, link': seq<nat>, size': seq<nat>)
    requires h.live == map[] && |link| == |link'| && |size| == |size'|
    requires Spares(h, link1, size1, h.live, live', link', size')
    ensures Spares(h, link, size, h.live, live', link', size')
  {}

  lemma SplicedUntouched(h: Heap, link: seq<nat>, size: seq<nat>, b: nat)
    requires Sound(h) && Stored(h, link, size) && Recorded(h.live, size) && b in h.live && b < h.limit
    requires link[Predecessor(h.free.Keys, h.limit, b)] < h.limit
    ensures var p := Predecessor(h.free.Keys, h.limit, b);
            Spares(h, link, size, h.live - {b}, h.live - {b},
                   SplicedLinks(link, size, p, b), SplicedSizes(link, size, p, b))
  {
    FreeingSparesLive(h, Predecessor(h.free.Keys, h.limit, b), b);
  }

  lemma LiveLiesInside(h: Heap, b: nat)
    requires Sound(h) && b in h.live
    ensures b < h.limit && b !in h.free
  {
    assert Piece(Blocks(h), h.limit, b);
  }

  lemma PayloadHoldsNoHeader(h: Heap, b: nat, u: nat)
    requires Sound(h) && Holds(h.live, b, u) && b < u
    ensures u !in h.free && u !in h.live
  {
    assert Piece(Blocks(h), h.limit, b) && Blocks(h)[b] == h.live[b];
    assert u in h.free || u in h.live ==> u in Blocks(h);
  }

  /** The two headers that kfree writes lie outside the blocks that stay live. */
  lemma FreeingSparesLive(h: Heap, p: nat, b: nat)
    requires Sound(h) && p in h.free && b in h.live
    ensures forall a: nat, u: nat {:trigger Holds(h.live - {b}, a, u)} :: Holds(h.live - {b}, a, u) ==> u != p && u != b
    ensures forall a :: a in h.live - {b} ==> Holds(h.live - {b}, a, a) && a < h.limit
  {
    TakeSparesLive(h, p, p, h.free[p]);
    forall a: nat, u: nat {:trigger Holds(h.live - {b}, a, u)} | Holds(h.live - {b}, a, u) ensures u != p && u != b {
      assert Holds(h.live, a, u) && Holds(h.live, b, b);
      if u == b {
        assert Holds(Blocks(h), a, u) && Holds(Blocks(h), b, b);
        OwnerIsUnique(Blocks(h), h.limit, b, a, b);
      }
    }
    forall a | a in h.live - {b} ensures Holds(h.live - {b}, a, a) && a < h.limit {
      assert Holds(h.live, a, a);
    }
  }

  /** `next` and `size` are the two words of the header that would start at each unit. */
  class KernelHeap {
    const limit: nat
    const next: array<nat>
    const size: array<nat>
    var freep: Option<nat>
    ghost var free: map<nat, nat>
    ghost var live: map<nat, nat>

    /** The list structure.  Every guarded run keeps it, and it still holds after the call that first
        breaks a guard. */
    ghost predicate Valid()
      reads this, next, size
    {
      && next.Length == limit && size.Length == limit && next != size && limit > 0
      && (freep.None? ==> Abs() == Initial(limit))
      && ListOk(Abs())
      && (freep.Some? ==> Stored(Abs(), next[..], size[..]))
    }

    ghost function Abs(): Heap
      reads this
    {
      Heap(limit, free, live, if freep.Some? then freep.value else 0)
    }

    /** The header of every live block still records its size. */
    ghost predicate HeadersIntact()
      reads this, size
    {
      Recorded(live, size[..])
    }

    constructor (limit: nat)
      requires limit > 0
      ensures Valid() && HeadersIntact() && Abs() == Initial(limit) && freep == None
      ensures fresh(next) && fresh(size)
    {
      this.limit := limit;
      next := new nat[limit];
      size := new nat[limit];
      freep := None;
      free, live := map[0 := limit], map[];
    }

    /** The first call turns the whole area into one block linked to itself. */
    method StartList()
      requires Valid() && freep.None?
      modifies this`freep, next, size
      ensures Valid() && freep.Some? && Abs() == old(Abs())
    {
      next[0], size[0] := 0, limit;
      freep := Some(0);
      assert Linked(free.Keys, next[..], 0);
    }

    /** The scan of kmalloc, from the rover once around the ring. */
    method FindFit(n: nat) returns (found: bool, prevp: nat, p: nat, ghost inspected: seq<nat>)
      requires Valid() && freep.Some? && n > 0
      ensures found ==> FirstMet(Abs(), n, p) && prevp == Predecessor(free.Keys, limit, p)
      ensures found ==> p < limit && prevp < limit && next[prevp] == p
      ensures !found ==> NoneFits(Abs(), n)
      ensures forall i, j :: 0 <= i < j < |inspected| ==> inspected[i] != inspected[j]
      ensures forall i :: 0 <= i < |inspected| ==> inspected[i] in free
    {
      var start := freep.value;
      prevp := start;
      assert Linked(free.Keys, next[..], prevp);
      p := next[prevp];
      inspected := [];
      while true
        invariant prevp in free && p in free && prevp < limit && next[prevp] == p
        invariant Precedes(free.Keys, prevp, p)
        invariant NoneBefore(Abs(), n, p)
        invariant forall i :: 0 <= i < |inspected| ==> inspected[i] in free && MetBefore(start, inspected[i], p)
        invariant forall i, j :: 0 <= i < j < |inspected| ==> inspected[i] != inspected[j]
        decreases if p > start then limit + start - p else start - p
      {
        inspected := inspected + [p];
        if size[p] >= n {
          PredecessorIsUnique(free.Keys, prevp, Predecessor(free.Keys, limit, p), p);
          return true, prevp, p, inspected;
        }
        if p == start {
          return false, prevp, p, inspected;
        }
        assert Linked(free.Keys, next[..], p);
        prevp, p := p, next[p];
      }
    }

    /** Unlinks block `p`, or cuts its tail off, once the scan has found it. */
    method Take(prevp: nat, p: nat, n: nat) returns (t: nat)
      requires next.Length == size.Length == limit && next != size
      requires p < limit && prevp < limit && 0 < n <= size[p] && p + size[p] <= limit
      modifies next, size
      ensures t == p + old(size[p]) - n
      ensures next[..] == TakenLinks(old(next[..]), old(size[..]), prevp, p, n)
      ensures size[..] == TakenSizes(old(size[..]), p, n)
    {
      t := p;
      if size[p] == n {
        next[prevp] := next[p];
      } else {
        size[p] := size[p] - n;
        t := p + size[p];
        size[t] := n;
      }
    }

    /** What kmalloc does to the block it has found. */
    method TakeAt(prevp: nat, p: nat, n: nat) returns (t: nat)
      requires Valid() && FreeApart(Abs()) && freep.Some? && p in free && 0 < n <= free[p]
      requires prevp == Predecessor(free.Keys, limit, p) && prevp < limit && next[prevp] == p
      modifies this, next, size
      ensures Valid() && FreeApart(Abs()) && freep.Some?
      ensures Abs() == Carve(old(Abs()), p, n) && t == CarvedAt(old(Abs()), p, n)
      ensures p < limit && next[..] == TakenLinks(old(next[..]), old(size[..]), prevp, p, n)
      ensures size[..] == TakenSizes(old(size[..]), p, n)
    {
      ghost var h := Abs();
      ghost var h' := Carve(h, p, n);
      assert FreeApart(h') by { CarveFreeApart(h, p, n); }
      assert Stored(h', TakenLinks(next[..], size[..], prevp, p, n), TakenSizes(size[..], p, n)) by {
        TakenStored(h, next[..], size[..], p, n);
      }
      t := Take(prevp, p, n);
      freep := Some(prevp);
      free, live := h'.free, h'.live;
    }

    /** The rest of kmalloc, once there is a list and the unit count is known. */
    method KmallocUnits(n: nat) returns (r: Option<nat>)
      requires Valid() && FreeApart(Abs()) && freep.Some? && n > 0
      modifies this, next, size
      ensures Valid() && FreeApart(Abs())
      ensures Allocates(old(Abs()), n, Abs(), r)
      ensures Spares(old(Abs()), old(next[..]), old(size[..]), old(live), live, next[..], size[..])
    {
      var found, prevp, p, _ := FindFit(n);
      if !found {
        NothingChanged(Abs(), next[..], size[..]);
        return None;
      }
      TakenUntouched(Abs(), next[..], size[..], p, n);
      ghost var h := Abs();
      var t := TakeAt(prevp, p, n);
      assert Carves(h, n, p, Abs(), t + 1);
      return Some(t + 1);
    }

    /** Returns the first payload unit, or None for NULL. */
    method Kmalloc(nbytes: nat) returns (r: Option<nat>)
      requires Valid() && FreeApart(Abs())
      modifies this, next, size
      ensures Valid() && FreeApart(Abs())
      ensures Abs() == Allocate(old(Abs()), UnitsFor(nbytes)).0
      ensures r == Payload(Allocate(old(Abs()), UnitsFor(nbytes)).1)
      ensures HandsOut(old(Abs()), UnitsFor(nbytes), live, r)
      ensures Spares(old(Abs()), old(next[..]), old(size[..]), old(live), live, next[..], size[..])
    {
      ghost var h, start := Abs(), freep.None?;
      if freep.None? {
        StartList();
      }
      ghost var link, sizes := next[..], size[..];
      r := KmallocUnits(UnitsFor(nbytes));
      AllocatesIs(h, UnitsFor(nbytes), Abs(), r);
      PointsBehindHeader(h, UnitsFor(nbytes));
      if start {
        NothingLive(h, old(next[..]), old(size[..]), link, sizes, live, next[..], size[..]);
      }
    }

    /** The scan of kfree, stopping at the gap that `bp` falls into. */
    method FindGap(bp: nat) returns (p: nat, ghost inspected: seq<nat>)
      requires Valid() && freep.Some? && bp !in free && bp < limit
      ensures p == Predecessor(free.Keys, limit, bp)
      ensures forall i, j :: 0 <= i < j < |inspected| ==> inspected[i] != inspected[j]
      ensures forall i :: 0 <= i < |inspected| ==> inspected[i] in free
    {
      p := freep.value;
      inspected := [p];
      assert Linked(free.Keys, next[..], p);
      while !(bp > p && bp < next[p])
        invariant p in free && Linked(free.Keys, next[..], p)
        invariant forall i :: 0 <= i < |inspected| ==> inspected[i] in free
        invariant forall i :: 0 <= i < |inspected| ==> Ahead(inspected[i], bp) >= Ahead(p, bp)
        invariant forall i, j :: 0 <= i < j < |inspected| ==> inspected[i] != inspected[j]
        decreases Ahead(p, bp)
      {
        if p >= next[p] && (bp > p || bp < next[p]) {
          break;
        }
        assert Linked(free.Keys, next[..], next[p]);
        p := next[p];
        inspected := inspected + [p];
      }
      PredecessorIsUnique(free.Keys, p, Predecessor(free.Keys, limit, bp), bp);
    }

    /** How far the ring has to be climbed from `p` to reach `bp`. */
    ghost function Ahead(p: nat, bp: nat): nat
      requires p < limit
    {
      if p < bp then bp - p else limit + bp - p
    }

    /** The header writes of kfree, as updates of the two word arrays. */
    method Splice(p: nat, bp: nat)
      requires next.Length == size.Length == limit && next != size
      requires p < limit && bp < limit && p != bp && next[p] < limit && next[p] != bp
      modifies next, size
      ensures next[..] == SplicedLinks(old(next[..]), old(size[..]), p, bp)
      ensures size[..] == SplicedSizes(old(next[..]), old(size[..]), p, bp)
    {
      if bp + size[bp] == next[p] {
        size[bp] := size[bp] + size[next[p]];
        next[bp] := next[next[p]];
      } else {
        next[bp] := next[p];
      }
      if p + size[p] == bp {
        size[p] := size[p] + size[bp];
        next[p] := next[bp];
      } else {
        next[p] := bp;
      }
    }

    /** A client store into the payload of one of its blocks. */
    method Store(b: nat, u: nat, word0: nat, word1: nat)
      requires Valid() && Sound(Abs()) && HeadersIntact()
      requires Holds(live, b, u) && b < u < limit
      modifies next, size
      ensures Valid() && HeadersIntact() && Abs() == old(Abs())
      ensures next[..] == old(next[..])[u := word0] && size[..] == old(size[..])[u := word1]
    {
      PayloadHoldsNoHeader(Abs(), b, u);
      ghost var link := next[..];
      next[u], size[u] := word0, word1;
      assert next[..] == link[u := word0];
      if freep.Some? {
        RingOnlyReadsMembers(free.Keys, link, next[..]);
      }
    }

    /** The writes of kfree once the gap is known. */
    method FreeAt(p: nat, bp: nat)
      requires Valid() && Sound(Abs()) && freep.Some? && HeadersIntact() && bp in live && bp !in free
      requires p == Predecessor(free.Keys, limit, bp)
      modifies this, next, size
      ensures Valid() && Abs() == Release(old(Abs()), bp)
      ensures Spares(old(Abs()), old(next[..]), old(size[..]), live, live, next[..], size[..])
    {
      ghost var h := Abs();
      SplicedStored(h, next[..], size[..], bp);
      SplicedUntouched(h, next[..], size[..], bp);
      Splice(p, bp);
      freep := Some(p);
      free, live := Release(h, bp).free, live - {bp};
    }

    method Kfree(ap: nat)
      requires Valid() && Sound(Abs()) && HeadersIntact()
      requires ap > 0 && ap - 1 in live
      modifies this, next, size
      ensures Valid() && HeadersIntact()
      ensures Abs() == Release(old(Abs()), ap - 1)
      ensures Untouched(live, old(next[..]), next[..]) && Untouched(live, old(size[..]), size[..])
    {
      var bp := ap - 1;
      LiveLiesInside(Abs(), bp);
      var p, _ := FindGap(bp);
      FreeAt(p, bp);
    }
  }

  // ---------- whole runs ----------

  /** One call on the words in memory. */
  method ServeCall(k: KernelHeap, ghost m: Memory, c: Call) returns (ghost m': Memory)
    requires k.Valid() && k.HeadersIntact() && Good(m) && m.heap == k.Abs() && Guarded(m, c)
    modifies k, k.next, k.size
    ensures k.Valid() && k.HeadersIntact() && Good(m') && m' == Apply(m, c) && m'.heap == k.Abs()
  {
    SoundFreeApart(m.heap);
    CallKeepsGood(m, c);
    m' := Apply(m, c);
    match c {
      case Kmalloc(nbytes) => var _ := k.Kmalloc(nbytes);
      case Kfree(addr) => k.Kfree(addr + 1);
    }
  }

  /** A guarded run of calls on the words in memory does what the run does to the heap as a value, so
      everything that holds over whole runs holds of the list in memory. */
  method Serve(k: KernelHeap, ghost m: Memory, calls: seq<Call>) returns (ghost m': Memory)
    requires k.Valid() && k.HeadersIntact() && Good(m) && m.heap == k.Abs() && GuardedRun(m, calls)
    modifies k, k.next, k.size
    ensures k.Valid() && k.HeadersIntact() && m' == Run(m, calls) && m'.heap == k.Abs()
    decreases |calls|
  {
    m' := m;
    if calls != [] {
      m' := ServeCall(k, m, calls[0]);
      m' := Serve(k, m', calls[1..]);
    }
  }

  // ---------- clients that free by pointer ----------

  /** Ask for bytes, or give back what the i-th request got. */
  datatype Request = Get(nbytes: nat) | Put(i: nat)

  /** The block behind a pointer. */
  predicate Points(pointers: seq<Option<nat>>, i: nat) {
    i < |pointers| && pointers[i].Some? && pointers[i].value > 0
  }

  function CallOf(pointers: seq<Option<nat>>, r: Request): Call
    requires r.Put? ==> Points(pointers, r.i)
  {
    match r
    case Get(nbytes) => Call.Kmalloc(nbytes)
    case Put(i) => Call.Kfree(pointers[i].value - 1)
  }

  ghost predicate GuardedRequest(m: Memory, pointers: seq<Option<nat>>, r: Request) {
    (r.Put? ==> Points(pointers, r.i)) && Guarded(m, CallOf(pointers, r))
  }

  /** The pointers after a request. */
  ghost function PointersAfter(m: Memory, pointers: seq<Option<nat>>, r: Request): seq<Option<nat>>
    requires Good(m)
  {
    if r.Get? then pointers + [Payload(Allocate(m.heap, UnitsFor(r.nbytes)).1)] else pointers
  }

  ghost predicate GuardedRequests(m: Memory, pointers: seq<Option<nat>>, rs: seq<Request>)
    requires Good(m)
    decreases |rs|
  {
    rs == [] ||
    (GuardedRequest(m, pointers, rs[0]) &&
     (CallKeepsGood(m, CallOf(pointers, rs[0]));
      GuardedRequests(Apply(m, CallOf(pointers, rs[0])), PointersAfter(m, pointers, rs[0]), rs[1..])))
  }

  /** The calls that the requests make. */
  ghost function CallsOf(m: Memory, pointers: seq<Option<nat>>, rs: seq<Request>): seq<Call>
    requires Good(m) && GuardedRequests(m, pointers, rs)
    decreases |rs|
  {
    if rs == [] then []
    else
      var c := CallOf(pointers, rs[0]);
      CallKeepsGood(m, c);
      [c] + CallsOf(Apply(m, c), PointersAfter(m, pointers, rs[0]), rs[1..])
  }

  lemma {:induction false} RequestsAreGuarded(m: Memory, pointers: seq<Option<nat>>, rs: seq<Request>)
    requires Good(m) && GuardedRequests(m, pointers, rs)
    ensures GuardedRun(m, CallsOf(m, pointers, rs))
    decreases |rs|
  {
    if rs != [] {
      var c := CallOf(pointers, rs[0]);
      CallKeepsGood(m, c);
      RequestsAreGuarded(Apply(m, c), PointersAfter(m, pointers, rs[0]), rs[1..]);
      assert CallsOf(m, pointers, rs)[1..] ==
             CallsOf(Apply(m, c), PointersAfter(m, pointers, rs[0]), rs[1..]);
    }
  }

  /** One request on the words in memory. */
  method ServeRequest(k: KernelHeap, ghost m: Memory, pointers: seq<Option<nat>>, r: Request)
      returns (pointers': seq<Option<nat>>, ghost m': Memory)
    requires k.Valid() && k.HeadersIntact() && Good(m) && m.heap == k.Abs() && GuardedRequest(m, pointers, r)
    modifies k, k.next, k.size
    ensures k.Valid() && k.HeadersIntact() && Good(m') && m' == Apply(m, CallOf(pointers, r)) && m'.heap == k.Abs()
    ensures pointers' == PointersAfter(m, pointers, r)
  {
    SoundFreeApart(m.heap);
    CallKeepsGood(m, CallOf(pointers, r));
    m' := Apply(m, CallOf(pointers, r));
    pointers' := pointers;
    match r {
      case Get(nbytes) =>
        var pointer := k.Kmalloc(nbytes);
        pointers' := pointers + [pointer];
      case Put(i) => k.Kfree(pointers[i].value);
    }
  }

  /** A guarded run of clients that free by the pointers they got does what the run of the calls does. */
  method ServeRequests(k: KernelHeap, ghost m: Memory, pointers: seq<Option<nat>>, rs: seq<Request>)
      returns (pointers': seq<Option<nat>>, ghost m': Memory)
    requires k.Valid() && k.HeadersIntact() && Good(m) && m.heap == k.Abs() && GuardedRequests(m, pointers, rs)
    modifies k, k.next, k.size
    ensures k.Valid() && k.HeadersIntact() && m'.heap == k.Abs()
    ensures GuardedRun(m, CallsOf(m, pointers, rs)) && m' == Run(m, CallsOf(m, pointers, rs))
    decreases |rs|
  {
    RequestsAreGuarded(m, pointers, rs);
    m', pointers' := m, pointers;
    if rs != [] {
      ghost var rest := CallsOf(m, pointers, rs)[1..];
      pointers', m' := ServeRequest(k, m, pointers, rs[0]);
      assert rest == CallsOf(m', pointers', rs[1..]);
      pointers', m' := ServeRequests(k, m', pointers', rs[1..]);
    }
  }
}
