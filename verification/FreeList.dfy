/** The circular, address-ordered free list as links in an array indexed by unit. */
module FreeList {
  import opened HeapModel

  /** Each member of `F` links to the next member up, the highest to the lowest. */
  ghost predicate Ring(F: set<nat>, link: seq<nat>) {
    forall a {:trigger Linked(F, link, a)} :: a in F ==> Linked(F, link, a)
  }

  ghost predicate Linked(F: set<nat>, link: seq<nat>, a: nat) {
    a < |link| && link[a] in F && Precedes(F, a, link[a])
  }

  lemma RingInsert(F: set<nat>, link: seq<nat>, p: nat, b: nat)
    requires Ring(F, link) && b < |link| && b !in F && Precedes(F, p, b)
    ensures p < |link| && Ring(F + {b}, link[b := link[p]][p := b])
  {
    assert Linked(F, link, p);
    var link' := link[b := link[p]][p := b];
    forall a | a in F + {b} ensures Linked(F + {b}, link', a) {
      if a != b && a != p {
        assert Linked(F, link, a);
        assert b != a && !(if a < link[a] then a < b < link[a] else b < link[a] || b > a);
      }
    }
  }

  lemma RingRemove(F: set<nat>, link: seq<nat>, q: nat)
    requires Ring(F, link) && q in F && q < |link| && link[q] != q
    ensures link[q] in F && link[q] < |link| && Ring(F - {link[q]}, link[q := link[link[q]]])
  {
    assert Linked(F, link, q);
    var p := link[q];
    assert Linked(F, link, p);
    forall a | a in F - {p} ensures Linked(F - {p}, link[q := link[p]], a) {
      assert Linked(F, link, a);
      if a != q && link[a] == p {
        PredecessorIsUnique(F, a, q, p);
      }
    }
  }

  lemma RingOnlyReadsMembers(F: set<nat>, link: seq<nat>, link': seq<nat>)
    requires Ring(F, link) && |link'| == |link|
    requires forall a :: a in F && a < |link| ==> link'[a] == link[a]
    ensures Ring(F, link')
  {
    forall a | a in F ensures Linked(F, link', a) {
      assert Linked(F, link, a);
    }
  }

  /** The two header words of every listed block are in memory: its link and its size. */
  ghost predicate Stored(h: Heap, link: seq<nat>, size: seq<nat>) {
    && |link| == |size| == h.limit
    && ListOk(h)
    && Ring(h.free.Keys, link)
    && forall a :: a in h.free ==> size[a] == h.free[a]
  }

  /** No listed block starts inside another listed block. */
  ghost predicate FreeApart(h: Heap) {
    forall a {:trigger NoneInside(h.free, a)} :: a in h.free ==> NoneInside(h.free, a)
  }

  ghost predicate NoneInside(free: map<nat, nat>, a: nat)
    requires a in free
  {
    forall x :: x in free ==> !(a < x < a + free[a])
  }

  lemma SoundFreeApart(h: Heap)
    requires Sound(h)
    ensures FreeApart(h)
  {
    forall a | a in h.free ensures NoneInside(h.free, a) {
      assert Piece(Blocks(h), h.limit, a) && Blocks(h)[a] == h.free[a];
      assert forall x :: x in h.free ==> x in Blocks(h);
    }
  }

  lemma CarveFreeApart(h: Heap, a: nat, n: nat)
    requires ListOk(h) && FreeApart(h) && a in h.free && 0 < n <= h.free[a]
    ensures FreeApart(Carve(h, a, n))
    ensures n < h.free[a] ==> CarvedAt(h, a, n) !in h.free
  {
    var free' := Carve(h, a, n).free;
    assert NoneInside(h.free, a);
    forall x | x in free' ensures NoneInside(free', x) { assert NoneInside(h.free, x); }
  }

  /** The header words after kmalloc takes `n` units of block `p`, whose predecessor is `q`. */
  function TakenLinks(link: seq<nat>, size: seq<nat>, q: nat, p: nat, n: nat): (r: seq<nat>)
    requires |link| == |size| && q < |link| && p < |link|
    ensures |r| == |link| && forall u :: 0 <= u < |r| && u != q ==> r[u] == link[u]
  {
    if size[p] == n then link[q := link[p]] else link
  }

  function TakenSizes(size: seq<nat>, p: nat, n: nat): (r: seq<nat>)
    requires p < |size| && n <= size[p] && p + size[p] <= |size| && 0 < n
    ensures |r| == |size| && r[p + size[p] - n] == n
    ensures forall u :: 0 <= u < |r| && u != p && u != p + size[p] - n ==> r[u] == size[u]
  {
    if size[p] == n then size else size[p := size[p] - n][p + size[p] - n := n]
  }

  lemma TakenStored(h: Heap, link: seq<nat>, size: seq<nat>, p: nat, n: nat)
    requires Stored(h, link, size) && FreeApart(h) && p in h.free && 0 < n <= h.free[p]
    requires link[Predecessor(h.free.Keys, h.limit, p)] == p
    ensures var q := Predecessor(h.free.Keys, h.limit, p);
            Stored(Carve(h, p, n), TakenLinks(link, size, q, p, n), TakenSizes(size, p, n))
  {
    var q := Predecessor(h.free.Keys, h.limit, p);
    CarveFreeApart(h, p, n);
    if h.free[p] > n {
      assert Carve(h, p, n).free.Keys == h.free.Keys;
    } else if q == p {
      assert Linked(h.free.Keys, link, p);
    } else {
      RingRemove(h.free.Keys, link, q);
      assert Carve(h, p, n).free.Keys == h.free.Keys - {p};
    }
  }

  /** The links kfree leaves behind: `b` takes over the link of the block it absorbs, or points at it;
      the predecessor takes over the link of `b`, or points at `b`. */
  function SplicedLinks(link: seq<nat>, size: seq<nat>, p: nat, b: nat): (r: seq<nat>)
    requires |link| == |size| && p < |link| && b < |link| && link[p] < |link|
    ensures |r| == |link| && forall u :: 0 <= u < |r| && u != p && u != b ==> r[u] == link[u]
  {
    var s := link[p];
    var up := if b + size[b] == s then link[s] else s;
    link[b := up][p := if p + size[p] == b then up else b]
  }

  /** Likewise for the size words. */
  function SplicedSizes(link: seq<nat>, size: seq<nat>, p: nat, b: nat): (r: seq<nat>)
    requires |link| == |size| && p < |link| && b < |link| && link[p] < |link|
    ensures |r| == |size| && forall u :: 0 <= u < |r| && u != p && u != b ==> r[u] == size[u]
  {
    var s := link[p];
    var merged := size[b] + if b + size[b] == s then size[s] else 0;
    size[b := merged][p := size[p] + if p + size[p] == b then merged else 0]
  }

  /** The block just above `b`, if free, is where the predecessor of `b` links to. */
  lemma BlockAboveIsNext(h: Heap, link: seq<nat>, b: nat)
    requires Sound(h) && b in h.live && |link| == h.limit && Ring(h.free.Keys, link)
    ensures var p := Predecessor(h.free.Keys, h.limit, b);
            && b !in h.free && b < h.limit && link[p] in h.free && link[p] < h.limit
            && (b + h.live[b] in h.free <==> b + h.live[b] == link[p])
  {
    var p := Predecessor(h.free.Keys, h.limit, b);
    assert Linked(h.free.Keys, link, p);
    assert Blocks(h)[b] == h.live[b];
    assert Piece(Blocks(h), h.limit, b);
    assert link[p] in Blocks(h);
  }

  /** Insert `b` behind `p`; drop the block above it if the two are joined. */
  lemma RingLinkUp(F: set<nat>, link: seq<nat>, p: nat, b: nat, up: bool)
    requires Ring(F, link) && b < |link| && b !in F && Precedes(F, p, b) && p < |link|
    requires up ==> link[p] != p
    ensures link[p] in F && link[p] < |link|
    ensures var s := link[p];
            Ring(if up then F + {b} - {s} else F + {b}, link[b := if up then link[s] else s][p := b])
  {
    RingInsert(F, link, p, b);
    assert Linked(F, link, p);
    assert Linked(F, link, link[p]);
    if up {
      var l1 := link[b := link[p]][p := b];
      RingRemove(F + {b}, l1, b);
      assert l1[b := l1[link[p]]] == link[b := link[link[p]]][p := b];
    }
  }

  /** Then drop `b` itself if it is joined to `p`. */
  lemma RingLinkDown(F: set<nat>, link: seq<nat>, p: nat, b: nat, x: nat, down: bool)
    requires p < |link| && b < |link| && p != b && p in F && b in F && Ring(F, link[b := x][p := b])
    ensures Ring(if down then F - {b} else F, link[b := x][p := if down then x else b])
  {
    var l := link[b := x][p := b];
    if down {
      RingRemove(F, l, p);
      RingOnlyReadsMembers(F - {b}, l[p := l[b]], link[b := x][p := x]);
    }
  }

  /** The keys of the free list after kfree. */
  lemma ReleasedKeys(h: Heap, b: nat, s: nat)
    requires Sound(h) && b in h.live && b !in h.free && s in h.free
    requires b + h.live[b] in h.free <==> b + h.live[b] == s
    ensures var p := Predecessor(h.free.Keys, h.limit, b);
            var up := b + h.live[b] == s && s != p;
            var listed := if up then h.free.Keys + {b} - {s} else h.free.Keys + {b};
            Release(h, b).free.Keys == if p + h.free[p] == b then listed - {b} else listed
  {
    PredecessorIsBelowOrFar(h, b);
  }

  lemma SplicedRing(h: Heap, link: seq<nat>, size: seq<nat>, b: nat)
    requires Sound(h) && Stored(h, link, size) && b in h.live && b < h.limit && size[b] == h.live[b]
    requires b !in h.free && link[Predecessor(h.free.Keys, h.limit, b)] < h.limit
    ensures Ring(Release(h, b).free.Keys, SplicedLinks(link, size, Predecessor(h.free.Keys, h.limit, b), b))
  {
    var F := h.free.Keys;
    var p := Predecessor(F, h.limit, b);
    var s := link[p];
    BlockAboveIsNext(h, link, b);
    ReleasedKeys(h, b, s);
    var up := b + h.live[b] == s && s != p;
    RingLinkUp(F, link, p, b, up);
    RingLinkDown(if up then F + {b} - {s} else F + {b}, link, p, b, if up then link[s] else s, p + h.free[p] == b);
    assert s == p ==> link[s] == s;
  }

  /** In the failing case too, the free list holds `b` and what it held before. */
  lemma LoneReleaseShape(h: Heap, b: nat, a: nat)
    requires Sound(h) && b in h.live && b !in h.free && TouchesLoneBlock(h, b) && a in Release(h, b).free
    ensures var p := Predecessor(h.free.Keys, h.limit, b);
            && p == b + h.live[b] && p + h.free[p] != b
            && Release(h, b).free[a] == (if a == b then h.live[b] + h.free[p] else h.free[a])
            && (a == b || a == p)
  {
    PredecessorIsBelowOrFar(h, b);
    assert Piece(Blocks(h), h.limit, b) && Blocks(h)[b] == h.live[b];
    assert a != b ==> a in h.free.Keys;
  }

  lemma SplicedSizesMatch(h: Heap, link: seq<nat>, size: seq<nat>, b: nat, a: nat)
    requires Sound(h) && Stored(h, link, size) && b in h.live && b < h.limit && size[b] == h.live[b]
    requires b !in h.free && link[Predecessor(h.free.Keys, h.limit, b)] < h.limit && a in Release(h, b).free
    ensures a < h.limit
    ensures SplicedSizes(link, size, Predecessor(h.free.Keys, h.limit, b), b)[a] == Release(h, b).free[a]
  {
    BlockAboveIsNext(h, link, b);
    if TouchesLoneBlock(h, b) {
      LoneReleaseShape(h, b, a);
    } else {
      PredecessorIsBelowOrFar(h, b);
      ReleaseShape(h, b, a);
    }
  }

  lemma ReleasedListOk(h: Heap, b: nat)
    requires Sound(h) && b in h.live && b !in h.free
    ensures ListOk(Release(h, b))
  {
    PredecessorIsBelowOrFar(h, b);
    if TouchesLoneBlock(h, b) {
      assert Piece(Blocks(h), h.limit, b) && Blocks(h)[b] == h.live[b];
    } else {
      ReleaseKeepsSound(h, b);
    }
  }

  /** Splicing stores exactly the released heap. */
  lemma SplicedStored(h: Heap, link: seq<nat>, size: seq<nat>, b: nat)
    requires Sound(h) && Stored(h, link, size) && b in h.live && b < h.limit && size[b] == h.live[b]
    ensures var p := Predecessor(h.free.Keys, h.limit, b);
            && b !in h.free && link[p] in h.free && link[p] < h.limit
            && Stored(Release(h, b), SplicedLinks(link, size, p, b), SplicedSizes(link, size, p, b))
  {
    BlockAboveIsNext(h, link, b);
    PredecessorIsBelowOrFar(h, b);
    SplicedRing(h, link, size, b);
    var h' := Release(h, b);
    ReleasedListOk(h, b);
    var p := Predecessor(h.free.Keys, h.limit, b);
    forall a | a in h'.free ensures SplicedSizes(link, size, p, b)[a] == h'.free[a] {
      SplicedSizesMatch(h, link, size, b, a);
    }
  }
}
