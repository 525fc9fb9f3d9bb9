/** What the allocator's elementary steps do to the layout of the heap. */
module HeapOps {
  import opened Rings
  import opened Layouts

  // ----- linking and unlinking a free block -----

  function Listing(l: Layout, g: nat, ring: seq<Addr>, skip: set<Addr>): Layout
    requires |l.rings| == 3 && g < 3
  {
    l.(rings := l.rings[g := ring], skip := skip)
  }

  lemma InsertRepresents(h: seq<UInt>, l: Layout, bp: Addr)
    requires Represents(h, l) && bp in l.skip
    ensures var g := Group(l.bs[bp].size); var hd := Header(g);
      && hd + 1 < |h| && bp + 1 < |h| && Right(h, hd) + 1 < |h| && bp != hd && bp + 1 != hd && bp != hd + 1
      && Represents(Inserted(h, hd, bp), Listing(l, g, [bp] + l.rings[g], l.skip - {bp}))
      && Keeps(h, l.bs, Inserted(h, hd, bp), l.bs, PROLOGUE)
  {
    var g := Group(l.bs[bp].size);
    var hd, ring := Header(g), l.rings[g];
    assert Shape(bp, l.bs[bp], |h|);
    NewNodeApart(h, l, g, bp);
    InsertedRing(h, hd, ring, bp);
    First(h, hd, ring);
    var h' := Inserted(h, hd, bp);
    assert OnlyLinks(h, h', [hd] + ring + [bp]);
    LinkChange(h, h', l, g, bp);
    var l' := Listing(l, g, [bp] + ring, l.skip - {bp});
    assert Ringed(h', l'.rings);
    assert Listed(l'.bs, l'.rings, l'.skip);
  }

  lemma NewNodeApart(h: seq<UInt>, l: Layout, g: nat, bp: Addr)
    requires Represents(h, l) && g < 3 && bp in l.skip && Group(l.bs[bp].size) == g
    ensures Separate([Header(g)] + ([bp] + l.rings[g]))
  {
    var s, c := [Header(g)] + ([bp] + l.rings[g]), [Header(g)] + l.rings[g];
    BlocksApart(l.bs, l.last, |h|, bp, PROLOGUE);
    forall x | x in l.rings[g] ensures NoOverlap(bp, x) {
      assert IsFree(l.bs, x, g) && x != bp;
      BlocksApart(l.bs, l.last, |h|, bp, x);
    }
    assert Ring(h, Header(g), l.rings[g]);
    assert forall i :: 2 <= i < |s| ==> s[i] == c[i - 1] && s[i] in l.rings[g];
    assert s[0] == c[0] && s[1] == bp;
  }

  /** A ring without one of its nodes. */
  ghost function Without(s: seq<Addr>, x: Addr): seq<Addr>
    requires x in s
  {
    var k :| 0 <= k < |s| && s[k] == x;
    s[..k] + s[k + 1..]
  }

  lemma RemoveRepresents(h: seq<UInt>, l: Layout, bp: Addr)
    requires Represents(h, l) && bp in l.bs && !l.bs[bp].alloc && bp !in l.skip
    ensures var g := Group(l.bs[bp].size);
      && bp in l.rings[g]
      && bp + 1 < |h| && Left(h, bp) + 1 < |h| && Right(h, bp) + 1 < |h|
      && Represents(Removed(h, bp), Listing(l, g, Without(l.rings[g], bp), l.skip + {bp}))
      && Keeps(h, l.bs, Removed(h, bp), l.bs, PROLOGUE)
  {
    var g := Group(l.bs[bp].size);
    assert IsFree(l.bs, bp, g);
    var ring := l.rings[g];
    assert Ring(h, Header(g), ring);
    var ring' := Without(ring, bp);
    var k :| 0 <= k < |ring| && ring[k] == bp && ring' == ring[..k] + ring[k + 1..];
    Neighbours(h, Header(g), ring, k);
    RemovedRing(h, Header(g), ring, k);
    var h' := Removed(h, bp);
    assert OnlyLinks(h, h', [Header(g)] + ring + [bp]);
    LinkChange(h, h', l, g, bp);
    var l' := Listing(l, g, ring', l.skip + {bp});
    assert Ringed(h', l'.rings);
    RingMembers(h, Header(g), ring, k);
    ListedWithout(l.bs, l.rings, l.skip, g, bp, ring');
  }

  lemma ListedWithout(bs: Blocks, rings: seq<seq<Addr>>, skip: set<Addr>, g: nat, bp: Addr, ring': seq<Addr>)
    requires Listed(bs, rings, skip) && g < 3 && IsFree(bs, bp, g)
    requires forall x: Addr :: x in ring' <==> x in rings[g] && x != bp
    ensures Listed(bs, rings[g := ring'], skip + {bp})
  {}

  /** Nodes of a ring are distinct, so that without node k just that one is missing. */
  lemma RingMembers(h: seq<UInt>, hd: Addr, ring: seq<Addr>, k: nat)
    requires Ring(h, hd, ring) && k < |ring|
    ensures forall x :: x in ring[..k] + ring[k + 1..] <==> x in ring && x != ring[k]
  {
    var s, r := [hd] + ring, ring[..k] + ring[k + 1..];
    forall i | 0 <= i < |ring| && i != k ensures ring[i] != ring[k] {
      assert s[i + 1] == ring[i] && s[k + 1] == ring[k];
    }
    forall x: Addr | x in ring && x != ring[k] ensures x in r {
      var i :| 0 <= i < |ring| && ring[i] == x;
      assert x == if i < k then r[i] else r[i - 1];
    }
  }

  // ----- writing tags -----

  /** The block from p up to e, with its header and footer. */
  function Retagged(h: seq<UInt>, p: Addr, e: Addr, alloc: bool): (h': seq<UInt>)
    requires 1 <= p && p + MIN_BLK <= e <= |h| && (e - p) % 2 == 0
    ensures |h'| == |h|
  {
    h[p - 1 := Pack(e - p, alloc)][e - 2 := Pack(e - p, alloc)]
  }

  /** One block in place of those from p up to e. */
  function Joined(bs: Blocks, p: Addr, e: Addr, alloc: bool): Blocks
    requires p in bs && p < e
  {
    map x | x in bs && !(p < x < e) ::
      if x == p then Block(e - p, alloc, bs[p].prev)
      else if x == e then bs[x].(prev := p)
      else bs[x]
  }

  function JoinedLayout(l: Layout, p: Addr, e: Addr, alloc: bool, end: nat): Layout
    requires p in l.bs && p < e
  {
    Layout(Joined(l.bs, p, e, alloc), if e == end then p else l.last, l.rings,
           (set x | x in l.skip && !(p <= x < e)) + if alloc then {} else {p})
  }

  /** Blocks that may be joined: all of them off the rings, and each block after the first free. */
  predicate Joinable(l: Layout, p: Addr, e: Addr, end: nat) {
    && p in l.bs && p != PROLOGUE && p < e
    && (e == end || e in l.bs)
    && (l.bs[p].alloc || p in l.skip)
    && forall x :: x in l.bs && p < x < e ==> x in l.skip
  }

  lemma TilingAt(bs: Blocks, last: Addr, end: nat, x: Addr)
    requires Tiling(bs, last, end) && x in bs
    ensures Shape(x, bs[x], end) && Follows(bs, x, end) && Preceded(bs, x)
  {
  }

  lemma TilingOrder(bs: Blocks, last: Addr, end: nat, x: Addr, y: Addr)
    requires Tiling(bs, last, end) && x in bs && y in bs && x < y
    ensures Before(x, bs[x], y)
  {
  }

  lemma JoinedSize(bs: Blocks, last: Addr, end: nat, p: Addr, e: Addr)
    requires Tiling(bs, last, end) && p in bs && p < e && (e == end || e in bs)
    ensures p + MIN_BLK <= e <= end && (e - p) % 2 == 0
  {
    hide Tiling;
    TilingAt(bs, last, end, p);
    TilingEnd(bs, last, end);
    if e != end {
      TilingOrder(bs, last, end, p, e);
      TilingAt(bs, last, end, e);
    }
  }

  lemma TilingEnd(bs: Blocks, last: Addr, end: nat)
    requires Tiling(bs, last, end)
    ensures end % 2 == 0 && end < LIMIT && last in bs && last + bs[last].size == end
    ensures PROLOGUE in bs && bs[PROLOGUE] == Block(PROLOGUE_SIZE, true, bs[PROLOGUE].prev)
  {
  }

  lemma JoinedTiling(bs: Blocks, last: Addr, end: nat, p: Addr, e: Addr, alloc: bool)
    requires Tiling(bs, last, end) && p in bs && p != PROLOGUE && p < e && (e == end || e in bs)
    ensures Tiling(Joined(bs, p, e, alloc), if e == end then p else last, end)
  {
    hide Follows, Preceded;
    var bs' := Joined(bs, p, e, alloc);
    JoinedSize(bs, last, end, p, e);
    TilingAt(bs, last, end, p);
    forall x | x in bs' ensures Shape(x, bs'[x], end) && Follows(bs', x, end) && Preceded(bs', x) {
      JoinedBlock(bs, last, end, p, e, alloc, x);
    }
    forall x, y | x in bs' && y in bs' && x < y ensures Before(x, bs'[x], y) {
      TilingOrder(bs, last, end, x, y);
    }
    TilingOrderProloge(bs, last, end, p);
    if e != end && last < e {
      TilingOrder(bs, last, end, last, e);
    }
  }

  lemma TilingOrderProloge(bs: Blocks, last: Addr, end: nat, p: Addr)
    requires Tiling(bs, last, end) && p in bs && p != PROLOGUE
    ensures PROLOGUE + PROLOGUE_SIZE <= p
  {
    assert Shape(p, bs[p], end) && Before(PROLOGUE, bs[PROLOGUE], p);
  }

  lemma JoinedBlock(bs: Blocks, last: Addr, end: nat, p: Addr, e: Addr, alloc: bool, x: Addr)
    requires Tiling(bs, last, end) && p in bs && p != PROLOGUE && p < e && (e == end || e in bs)
    requires x in Joined(bs, p, e, alloc)
    ensures var bs' := Joined(bs, p, e, alloc);
      Shape(x, bs'[x], end) && Follows(bs', x, end) && Preceded(bs', x)
  {
    hide Tiling;
    JoinedSize(bs, last, end, p, e);
    TilingAt(bs, last, end, p);
    TilingAt(bs, last, end, x);
    if x < p {
      TilingOrder(bs, last, end, x, p);
    }
    if e != end {
      TilingAt(bs, last, end, e);
      if x > e && bs[x].prev < e && bs[x].prev in bs {
        TilingOrder(bs, last, end, bs[x].prev, e);
      }
    }
  }

  /** Nodes keep their links when only tags of the blocks bs' are written. */
  lemma RingsKept(h: seq<UInt>, h': seq<UInt>, l: Layout, bs': Blocks, last': Addr, skip': set<Addr>)
    requires Ringed(h, l.rings) && |h| <= |h'|
    requires Tiling(bs', last', |h'|) && Listed(bs', l.rings, skip')
    requires forall i :: 0 <= i < |h| && h'[i] != h[i] ==>
      exists x :: x in bs' && (i == x - 1 || i == x + bs'[x].size - 2)
    ensures Ringed(h', l.rings)
  {
    forall g | 0 <= g < 3 ensures Ring(h', Header(g), l.rings[g]) {
      var ring := l.rings[g];
      assert Ring(h, Header(g), ring);
      forall y | y in [Header(g)] + ring ensures y + 1 < |h| && h'[y] == h[y] && h'[y + 1] == h[y + 1] {
        NodeInRange(h, Header(g), ring, y);
        var q := NodeIsInterior(bs', last', |h'|, l.rings, skip', g, y);
        InteriorIsPrivate(bs', last', |h'|, q, y);
        InteriorIsPrivate(bs', last', |h'|, q, y + 1);
      }
      RingFrame(h, h', Header(g), ring);
    }
  }

  lemma NodeInRange(h: seq<UInt>, hd: Addr, ring: seq<Addr>, y: Addr)
    requires Ring(h, hd, ring) && y in [hd] + ring
    ensures y + 1 < |h|
  {
    var c := Cycle(hd, ring);
    var i :| 0 <= i <= |ring| && ([hd] + ring)[i] == y;
    assert Linked(h, c[i], c[i + 1]) && c[i] == y;
  }

  /** Writing the tags of one block in place of joinable ones. */
  lemma JoinRepresents(h: seq<UInt>, l: Layout, p: Addr, e: Addr, alloc: bool)
    requires Represents(h, l) && Joinable(l, p, e, |h|)
    ensures 1 <= p && p + MIN_BLK <= e <= |h| && (e - p) % 2 == 0
    ensures Represents(Retagged(h, p, e, alloc), JoinedLayout(l, p, e, alloc, |h|))
    ensures Keeps(h, l.bs, Retagged(h, p, e, alloc), Joined(l.bs, p, e, alloc), p)
  {
    hide Tiling, Ringed, Marked, Keeps, Listed, Joined;
    JoinedSize(l.bs, l.last, |h|, p, e);
    JoinedTiling(l.bs, l.last, |h|, p, e, alloc);
    TilingAt(l.bs, l.last, |h|, p);
    var h', l' := Retagged(h, p, e, alloc), JoinedLayout(l, p, e, alloc, |h|);
    JoinedListed(l, p, e, alloc, |h|);
    JoinedMarked(h, l, p, e, alloc);
    JoinedKeeps(h, l, p, e, alloc);
    JoinedSelf(l, p, e, alloc);
    RingsKept(h, h', l, l'.bs, l'.last, l'.skip);
  }

  lemma JoinedSelf(l: Layout, p: Addr, e: Addr, alloc: bool)
    requires p in l.bs && p < e
    ensures p in Joined(l.bs, p, e, alloc) && Joined(l.bs, p, e, alloc)[p] == Block(e - p, alloc, l.bs[p].prev)
    ensures forall x :: x in l.bs && !(p <= x < e) ==>
      x in Joined(l.bs, p, e, alloc) && Joined(l.bs, p, e, alloc)[x].alloc == l.bs[x].alloc
  {}

  lemma JoinedMarked(h: seq<UInt>, l: Layout, p: Addr, e: Addr, alloc: bool)
    requires Represents(h, l) && Joinable(l, p, e, |h|) && p + MIN_BLK <= e <= |h| && (e - p) % 2 == 0 && 1 <= p
    requires Tiling(Joined(l.bs, p, e, alloc), if e == |h| then p else l.last, |h|)
    ensures Marked(Retagged(h, p, e, alloc), Joined(l.bs, p, e, alloc))
  {
    hide Joined;
    forall x | x in Joined(l.bs, p, e, alloc)
      ensures Tagged(Retagged(h, p, e, alloc), x, Joined(l.bs, p, e, alloc)[x])
    {
      JoinedTag(h, l, p, e, alloc, x);
    }
  }

  lemma JoinedKeeps(h: seq<UInt>, l: Layout, p: Addr, e: Addr, alloc: bool)
    requires Represents(h, l) && Joinable(l, p, e, |h|) && p + MIN_BLK <= e <= |h| && (e - p) % 2 == 0 && 1 <= p
    ensures Keeps(h, l.bs, Retagged(h, p, e, alloc), Joined(l.bs, p, e, alloc), p)
  {
    hide Represents, KeptBlock;
    forall x: Addr | Live(l.bs, x) && x != p
      ensures KeptBlock(h, l.bs, Retagged(h, p, e, alloc), Joined(l.bs, p, e, alloc), x)
    {
      JoinedPayload(h, l, p, e, alloc, x);
    }
  }

  lemma JoinedListed(l: Layout, p: Addr, e: Addr, alloc: bool, end: nat)
    requires Listed(l.bs, l.rings, l.skip) && Joinable(l, p, e, end)
    ensures var l' := JoinedLayout(l, p, e, alloc, end); Listed(l'.bs, l'.rings, l'.skip)
  {}

  lemma JoinedTag(h: seq<UInt>, l: Layout, p: Addr, e: Addr, alloc: bool, x: Addr)
    requires Represents(h, l) && Joinable(l, p, e, |h|) && p + MIN_BLK <= e <= |h| && (e - p) % 2 == 0 && 1 <= p
    requires x in Joined(l.bs, p, e, alloc)
    ensures var b := Joined(l.bs, p, e, alloc)[x];
      Shape(x, b, |h|) && Tagged(Retagged(h, p, e, alloc), x, b)
  {
    hide Pack, Ringed, Listed, Follows, Preceded, Tiling, Retagged, Joined;
    JoinedSizes(l.bs, p, e, alloc, x);
    TilingAt(l.bs, l.last, |h|, x);
    TilingAt(l.bs, l.last, |h|, p);
    TilingEnd(l.bs, l.last, |h|);
    assert Tagged(h, x, l.bs[x]);
    if x < p {
      TilingOrder(l.bs, l.last, |h|, x, p);
    }
    RetaggedAt(h, p, e, alloc, x, Joined(l.bs, p, e, alloc)[x]);
  }

  lemma JoinedSizes(bs: Blocks, p: Addr, e: Addr, alloc: bool, x: Addr)
    requires p in bs && p < e && x in Joined(bs, p, e, alloc)
    ensures x in bs && var b := Joined(bs, p, e, alloc)[x];
      if x == p then b.size == e - p && b.alloc == alloc
      else (x < p || e <= x) && b.size == bs[x].size && b.alloc == bs[x].alloc
  {}

  /** Where tags are after writing those of one block. */
  lemma RetaggedAt(h: seq<UInt>, p: Addr, e: Addr, alloc: bool, x: Addr, b: Block)
    requires 1 <= p && p + MIN_BLK <= e <= |h| < LIMIT && (e - p) % 2 == 0 && Shape(x, b, |h|)
    requires if x == p then b.size == e - p && b.alloc == alloc else Tagged(h, x, b) && (x + b.size <= p || e <= x)
    ensures Tagged(Retagged(h, p, e, alloc), x, b)
  {
    hide Pack;
  }

  lemma JoinedPayload(h: seq<UInt>, l: Layout, p: Addr, e: Addr, alloc: bool, x: Addr)
    requires Represents(h, l) && Joinable(l, p, e, |h|) && p + MIN_BLK <= e <= |h| && (e - p) % 2 == 0 && 1 <= p
    requires Live(l.bs, x) && x != p
    ensures KeptBlock(h, l.bs, Retagged(h, p, e, alloc), Joined(l.bs, p, e, alloc), x)
  {
    hide Tiling;
    TilingAt(l.bs, l.last, |h|, x);
    if x < p {
      TilingOrder(l.bs, l.last, |h|, x, p);
    }
  }

  // ----- splitting a block -----

  /** Block p of the first size words, allocated, and a free block of the rest. */
  function Split(bs: Blocks, p: Addr, size: nat): Blocks
    requires p in bs && size < bs[p].size && p + bs[p].size < LIMIT
  {
    var e := p + bs[p].size;
    map x | x in bs.Keys + {p + size} ::
      if x == p then Block(size, true, bs[p].prev)
      else if x == p + size then Block(bs[p].size - size, false, p)
      else if x == e then bs[x].(prev := p + size)
      else bs[x]
  }

  function SplitLayout(l: Layout, p: Addr, size: nat): Layout
    requires p in l.bs && size < l.bs[p].size && p + l.bs[p].size < LIMIT
  {
    Layout(Split(l.bs, p, size), if l.last == p then p + size else l.last, l.rings, l.skip - {p} + {p + size})
  }

  function SplitTags(h: seq<UInt>, p: Addr, size: nat, whole: nat): (h': seq<UInt>)
    requires 1 <= p && MIN_BLK <= size && size + MIN_BLK <= whole && p + whole <= |h| < LIMIT && size % 2 == 0
    requires whole % 2 == 0
    ensures |h'| == |h|
  {
    Retagged(Retagged(h, p, p + size, true), p + size, p + whole, false)
  }

  /** Sizes into which block p may be split; the block is live, or free and off the rings. */
  predicate Splittable(l: Layout, p: Addr, size: nat) {
    && p in l.bs && p != PROLOGUE && (l.bs[p].alloc || p in l.skip)
    && MIN_BLK <= size && size % 2 == 0 && size + MIN_BLK <= l.bs[p].size
  }

  lemma SplitBlock(bs: Blocks, last: Addr, end: nat, p: Addr, size: nat, x: Addr)
    requires Tiling(bs, last, end) && p in bs && p != PROLOGUE
    requires MIN_BLK <= size && size % 2 == 0 && size + MIN_BLK <= bs[p].size && p + bs[p].size < LIMIT
    requires x in Split(bs, p, size)
    ensures var bs' := Split(bs, p, size);
      Shape(x, bs'[x], end) && Follows(bs', x, end) && Preceded(bs', x)
  {
    hide Tiling;
    TilingAt(bs, last, end, p);
    SplitIsNew(bs, last, end, p, size);
    if x in bs {
      TilingAt(bs, last, end, x);
      if x < p {
        TilingOrder(bs, last, end, x, p);
      } else if p < x {
        TilingOrder(bs, last, end, p, x);
        if bs[x].prev in bs && bs[x].prev < p {
          TilingOrder(bs, last, end, bs[x].prev, p);
        }
      }
    }
  }

  /** No block starts inside another. */
  lemma SplitIsNew(bs: Blocks, last: Addr, end: nat, p: Addr, size: nat)
    requires Tiling(bs, last, end) && p in bs && 0 < size < bs[p].size && p + bs[p].size < LIMIT
    ensures p + size !in bs
  {
    forall q: Addr | q in bs && p < q ensures q != p + size {
      TilingOrder(bs, last, end, p, q);
    }
  }

  lemma SplitTiling(bs: Blocks, last: Addr, end: nat, p: Addr, size: nat)
    requires Tiling(bs, last, end) && p in bs && p != PROLOGUE
    requires MIN_BLK <= size && size % 2 == 0 && size + MIN_BLK <= bs[p].size && p + bs[p].size < LIMIT
    ensures Tiling(Split(bs, p, size), if last == p then p + size else last, end)
  {
    hide Follows, Preceded;
    var bs' := Split(bs, p, size);
    SplitIsNew(bs, last, end, p, size);
    TilingOrderProloge(bs, last, end, p);
    forall x | x in bs' ensures Shape(x, bs'[x], end) && Follows(bs', x, end) && Preceded(bs', x) {
      SplitBlock(bs, last, end, p, size, x);
    }
    forall x, y | x in bs' && y in bs' && x < y ensures Before(x, bs'[x], y) {
      SplitOrder(bs, last, end, p, size, x, y);
    }
  }

  lemma SplitOrder(bs: Blocks, last: Addr, end: nat, p: Addr, size: nat, x: Addr, y: Addr)
    requires Tiling(bs, last, end) && p in bs && 0 < size < bs[p].size && p + bs[p].size < LIMIT
    requires x in Split(bs, p, size) && y in Split(bs, p, size) && x < y
    ensures Before(x, Split(bs, p, size)[x], y)
  {
    hide Tiling;
    SplitIsNew(bs, last, end, p, size);
    if x in bs && y in bs {
      TilingOrder(bs, last, end, x, y);
    } else if y in bs {
      TilingOrder(bs, last, end, p, y);
    } else if x != p {
      if x < p {
        TilingOrder(bs, last, end, x, p);
      } else {
        TilingOrder(bs, last, end, p, x);
      }
    }
  }

  lemma SplitRepresents(h: seq<UInt>, l: Layout, p: Addr, size: nat)
    requires Represents(h, l) && Splittable(l, p, size)
    ensures 1 <= p && p + l.bs[p].size <= |h| < LIMIT && l.bs[p].size % 2 == 0
    ensures Represents(SplitTags(h, p, size, l.bs[p].size), SplitLayout(l, p, size))
    ensures Keeps(h, l.bs, SplitTags(h, p, size, l.bs[p].size), Split(l.bs, p, size), p)
    ensures SameWords(h, SplitTags(h, p, size, l.bs[p].size), p, p + size - 2)
  {
    hide Tiling, Ringed, Marked, Keeps, Listed, Split;
    TilingAt(l.bs, l.last, |h|, p);
    TilingEnd(l.bs, l.last, |h|);
    SplitTiling(l.bs, l.last, |h|, p, size);
    var h', l' := SplitTags(h, p, size, l.bs[p].size), SplitLayout(l, p, size);
    SplitListed(h, l, p, size);
    SplitMarked(h, l, p, size);
    SplitKeeps(h, l, p, size);
    SplitParts(l.bs, p, size);
    forall i | 0 <= i < |h| && h'[i] != h[i] ensures i in {p - 1, p + size - 2, p + size - 1, p + l.bs[p].size - 2} {}
    RingsKept(h, h', l, l'.bs, l'.last, l'.skip);
  }

  lemma SplitParts(bs: Blocks, p: Addr, size: nat)
    requires p in bs && 0 < size < bs[p].size && p + bs[p].size < LIMIT
    ensures var bs' := Split(bs, p, size);
      && p in bs' && bs'[p] == Block(size, true, bs[p].prev)
      && p + size in bs' && bs'[p + size] == Block(bs[p].size - size, false, p)
    ensures forall x :: x in bs && x != p && x != p + size ==>
      x in Split(bs, p, size) && Split(bs, p, size)[x].alloc == bs[x].alloc
  {}

  lemma SplitListed(h: seq<UInt>, l: Layout, p: Addr, size: nat)
    requires Represents(h, l) && Splittable(l, p, size) && p + l.bs[p].size < LIMIT
    ensures var l' := SplitLayout(l, p, size);
      Listed(l'.bs, l'.rings, l'.skip) && forall x :: x in l'.skip ==> x in l'.bs && !l'.bs[x].alloc
  {
    hide Tiling, Marked, Ringed;
    SplitIsNew(l.bs, l.last, |h|, p, size);
    SplitParts(l.bs, p, size);
    ListedAfterSplit(l, p, size);
  }

  lemma ListedAfterSplit(l: Layout, p: Addr, size: nat)
    requires Listed(l.bs, l.rings, l.skip) && Splittable(l, p, size) && p + l.bs[p].size < LIMIT && p + size !in l.bs
    ensures var l' := SplitLayout(l, p, size); Listed(l'.bs, l'.rings, l'.skip)
  {
    var l' := SplitLayout(l, p, size);
    forall g, x: Addr | 0 <= g < 3 ensures x in l'.rings[g] <==> IsFree(l'.bs, x, g) && x !in l'.skip {
      assert x in l.rings[g] <==> IsFree(l.bs, x, g) && x !in l.skip;
    }
  }

  lemma SplitMarked(h: seq<UInt>, l: Layout, p: Addr, size: nat)
    requires Represents(h, l) && Splittable(l, p, size) && p + l.bs[p].size <= |h| < LIMIT && 1 <= p
    requires l.bs[p].size % 2 == 0
    requires var l' := SplitLayout(l, p, size); Tiling(l'.bs, l'.last, |h|)
    ensures Marked(SplitTags(h, p, size, l.bs[p].size), Split(l.bs, p, size))
  {
    hide Follows, Preceded;
    hide Split;
    var h', bs' := SplitTags(h, p, size, l.bs[p].size), Split(l.bs, p, size);
    forall x | x in bs' ensures Shape(x, bs'[x], |h|) && Tagged(h', x, bs'[x]) {
      assert Shape(x, bs'[x], |h|);
      SplitTag(h, l, p, size, x);
    }
  }

  lemma SplitTag(h: seq<UInt>, l: Layout, p: Addr, size: nat, x: Addr)
    requires Represents(h, l) && Splittable(l, p, size) && p + l.bs[p].size <= |h| < LIMIT && 1 <= p
    requires l.bs[p].size % 2 == 0
    requires x in Split(l.bs, p, size) && Shape(x, Split(l.bs, p, size)[x], |h|)
    ensures Tagged(SplitTags(h, p, size, l.bs[p].size), x, Split(l.bs, p, size)[x])
  {
    hide Pack, Ringed, Listed, Follows, Preceded, Tiling, Retagged, Split, SplitTags;
    SplitSizes(l.bs, p, size, x);
    SplitIsNew(l.bs, l.last, |h|, p, size);
    if x in l.bs {
      TilingAt(l.bs, l.last, |h|, x);
      assert Tagged(h, x, l.bs[x]);
      if x < p {
        TilingOrder(l.bs, l.last, |h|, x, p);
      } else if p < x {
        TilingOrder(l.bs, l.last, |h|, p, x);
      }
    }
    hide Tagged;
    SplitTagsAt(h, p, size, l.bs[p].size, x, Split(l.bs, p, size)[x]);
  }

  /** Where tags are after writing those of two blocks. */
  lemma SplitTagsAt(h: seq<UInt>, p: Addr, size: nat, whole: nat, x: Addr, b: Block)
    requires 1 <= p && MIN_BLK <= size && size + MIN_BLK <= whole && p + whole <= |h| < LIMIT && size % 2 == 0
    requires whole % 2 == 0
    requires Shape(x, b, |h|)
    requires if x == p then b.size == size && b.alloc
             else if x == p + size then b.size == whole - size && !b.alloc
             else Tagged(h, x, b) && (x + b.size <= p || p + whole <= x)
    ensures Tagged(SplitTags(h, p, size, whole), x, b)
  {
    hide Pack, Retagged, Tagged;
    if x != p + size {
      RetaggedAt(h, p, p + size, true, x, b);
    }
    RetaggedAt(Retagged(h, p, p + size, true), p + size, p + whole, false, x, b);
  }

  lemma SplitSizes(bs: Blocks, p: Addr, size: nat, x: Addr)
    requires p in bs && 0 < size < bs[p].size && p + bs[p].size < LIMIT && x in Split(bs, p, size)
    ensures var b := Split(bs, p, size)[x];
      if x == p then b.size == size && b.alloc
      else if x == p + size then b.size == bs[p].size - size && !b.alloc
      else x in bs && b.size == bs[x].size && b.alloc == bs[x].alloc
  {}

  lemma SplitKeeps(h: seq<UInt>, l: Layout, p: Addr, size: nat)
    requires Represents(h, l) && Splittable(l, p, size) && p + l.bs[p].size <= |h| < LIMIT && 1 <= p
    requires l.bs[p].size % 2 == 0
    ensures Keeps(h, l.bs, SplitTags(h, p, size, l.bs[p].size), Split(l.bs, p, size), p)
  {
    hide Tiling;
    SplitIsNew(l.bs, l.last, |h|, p, size);
    forall x: Addr | Live(l.bs, x) && x != p
      ensures KeptBlock(h, l.bs, SplitTags(h, p, size, l.bs[p].size), Split(l.bs, p, size), x)
    {
      TilingAt(l.bs, l.last, |h|, x);
      if x < p {
        TilingOrder(l.bs, l.last, |h|, x, p);
      } else {
        TilingOrder(l.bs, l.last, |h|, p, x);
      }
    }
  }

  // ----- growing the heap -----

  /** The heap grown by the words of more, which are made a free block before a new epilogue. */
  function Extended(h: seq<UInt>, more: seq<UInt>): (h': seq<UInt>)
    requires |h| >= 1 && |more| >= 2 && |more| % 2 == 0 && |h| + |more| < LIMIT
    ensures |h'| == |h| + |more|
  {
    var n := |more|;
    (h + more)[|h| - 1 := Pack(n, false)][|h| + n - 2 := Pack(n, false)][|h| + n - 1 := 1]
  }

  function Appended(l: Layout, end: Addr, n: nat): Layout {
    Layout(l.bs[end := Block(n, false, l.last)], end, l.rings, l.skip + {end})
  }

  lemma AppendRepresents(h: seq<UInt>, l: Layout, more: seq<UInt>)
    requires Represents(h, l) && |more| >= MIN_BLK && |more| % 2 == 0 && |h| + |more| < LIMIT
    ensures |h| >= 1 && |h| !in l.bs
    ensures Represents(Extended(h, more), Appended(l, |h|, |more|))
    ensures Keeps(h, l.bs, Extended(h, more), Appended(l, |h|, |more|).bs, PROLOGUE)
  {
    hide Tiling, Ringed, Marked, Keeps, Listed;
    TilingEnd(l.bs, l.last, |h|);
    EndIsNew(l.bs, l.last, |h|);
    AppendedTiling(l, |h|, |more|);
    AppendedMarked(h, l, more);
    AppendedListed(l, |h|, |more|);
    var h', l' := Extended(h, more), Appended(l, |h|, |more|);
    assert |h| in l'.bs && forall i :: 0 <= i < |h| && h'[i] != h[i] ==> i == |h| - 1;
    RingsKept(h, h', l, l'.bs, l'.last, l'.skip);
    AppendedKeeps(h, l, more);
  }

  lemma EndIsNew(bs: Blocks, last: Addr, end: nat)
    requires Tiling(bs, last, end)
    ensures end !in bs && end >= PROLOGUE + PROLOGUE_SIZE
  {
    TilingEnd(bs, last, end);
    TilingAt(bs, last, end, PROLOGUE);
    if end in bs {
      TilingAt(bs, last, end, end);
    }
  }

  lemma AppendedTiling(l: Layout, end: Addr, n: nat)
    requires Tiling(l.bs, l.last, end) && n >= MIN_BLK && n % 2 == 0 && end + n < LIMIT
    ensures Tiling(Appended(l, end, n).bs, end, end + n)
  {
    hide Follows, Preceded;
    var bs' := Appended(l, end, n).bs;
    EndIsNew(l.bs, l.last, end);
    forall x | x in bs' ensures Shape(x, bs'[x], end + n) && Follows(bs', x, end + n) && Preceded(bs', x) {
      AppendedBlock(l, end, n, x);
    }
    forall x, y | x in bs' && y in bs' && x < y ensures Before(x, bs'[x], y) {
      if x in l.bs {
        TilingAt(l.bs, l.last, end, x);
        if y in l.bs {
          TilingOrder(l.bs, l.last, end, x, y);
        }
      } else {
        TilingAt(l.bs, l.last, end, y);
      }
    }
  }

  lemma AppendedBlock(l: Layout, end: Addr, n: nat, x: Addr)
    requires Tiling(l.bs, l.last, end) && n >= MIN_BLK && n % 2 == 0 && end + n < LIMIT && end !in l.bs
    requires x in Appended(l, end, n).bs
    ensures var bs' := Appended(l, end, n).bs;
      Shape(x, bs'[x], end + n) && Follows(bs', x, end + n) && Preceded(bs', x)
  {
    hide Tiling;
    TilingEnd(l.bs, l.last, end);
    EndIsNew(l.bs, l.last, end);
    if x in l.bs {
      TilingAt(l.bs, l.last, end, x);
      LastIsUnique(l.bs, l.last, end, x);
    }
  }

  lemma LastIsUnique(bs: Blocks, last: Addr, end: nat, x: Addr)
    requires Tiling(bs, last, end) && x in bs
    ensures x + bs[x].size == end <==> x == last
  {
    hide Tiling;
    TilingEnd(bs, last, end);
    TilingAt(bs, last, end, last);
    if x < last {
      TilingOrder(bs, last, end, x, last);
    } else if last < x {
      TilingOrder(bs, last, end, last, x);
      TilingAt(bs, last, end, x);
    }
  }

  lemma AppendedListed(l: Layout, end: Addr, n: nat)
    requires Listed(l.bs, l.rings, l.skip) && end !in l.bs
    ensures var l' := Appended(l, end, n); Listed(l'.bs, l'.rings, l'.skip)
  {
    var l' := Appended(l, end, n);
    forall g, x: Addr | 0 <= g < 3 ensures x in l'.rings[g] <==> IsFree(l'.bs, x, g) && x !in l'.skip {
      assert x in l.rings[g] <==> IsFree(l.bs, x, g) && x !in l.skip;
    }
  }

  lemma AppendedMarked(h: seq<UInt>, l: Layout, more: seq<UInt>)
    requires Represents(h, l) && |more| >= MIN_BLK && |more| % 2 == 0 && |h| + |more| < LIMIT && |h| >= 1
    requires Tiling(Appended(l, |h|, |more|).bs, |h|, |h| + |more|)
    ensures Marked(Extended(h, more), Appended(l, |h|, |more|).bs)
  {
    var h', bs' := Extended(h, more), Appended(l, |h|, |more|).bs;
    forall x | x in bs' ensures Shape(x, bs'[x], |h'|) && Tagged(h', x, bs'[x]) {
      if x in l.bs && x != |h| {
        TilingAt(l.bs, l.last, |h|, x);
        assert Tagged(h, x, l.bs[x]);
      }
    }
  }

  lemma AppendedKeeps(h: seq<UInt>, l: Layout, more: seq<UInt>)
    requires Represents(h, l) && |more| >= 2 && |more| % 2 == 0 && |h| + |more| < LIMIT && |h| >= 1 && |h| !in l.bs
    ensures Keeps(h, l.bs, Extended(h, more), Appended(l, |h|, |more|).bs, PROLOGUE)
  {
    hide Tiling;
    var h', bs' := Extended(h, more), Appended(l, |h|, |more|).bs;
    forall x: Addr | Live(l.bs, x) ensures KeptBlock(h, l.bs, h', bs', x) {
      TilingAt(l.bs, l.last, |h|, x);
    }
  }

  /** The last block, stretched over the words by which the heap has grown. */
  function Stretched(l: Layout, n: nat): Layout
    requires l.last in l.bs
  {
    l.(bs := l.bs[l.last := Block(l.bs[l.last].size + n, l.bs[l.last].alloc, l.bs[l.last].prev)])
  }

  lemma StretchRepresents(h: seq<UInt>, l: Layout, more: seq<UInt>)
    requires Represents(h, l) && |more| >= 2 && |more| % 2 == 0 && |h| + |more| < LIMIT && Live(l.bs, l.last)
    ensures |h| >= 1 && 1 <= l.last && l.last + MIN_BLK <= |h| && (|h| - l.last) % 2 == 0
    ensures l.bs[l.last].size == |h| - l.last
    ensures var h' := Retagged(Extended(h, more), l.last, |h| + |more|, true);
      && Represents(h', Stretched(l, |more|))
      && Keeps(h, l.bs, h', Stretched(l, |more|).bs, l.last)
      && SameWords(h, h', l.last, l.last + l.bs[l.last].size - 2)
  {
    hide Follows, Preceded;
    hide Tiling, Ringed, Marked, Keeps, Listed;
    TilingEnd(l.bs, l.last, |h|);
    TilingAt(l.bs, l.last, |h|, l.last);
    EndIsNew(l.bs, l.last, |h|);
    var p, h', l' := l.last, Retagged(Extended(h, more), l.last, |h| + |more|, true), Stretched(l, |more|);
    StretchedTiling(l, |h|, |more|);
    StretchedMarked(h, l, more);
    StretchedListed(l, |more|);
    StretchedWords(h, more, p);
    hide Retagged, Extended, Pack;
    assert Ringed(h', l.rings) by {
      // the old epilogue has become payload, which is no ring's
      StretchedRings(h, h', l, |more|);
    }
    StretchedKeeps(h, l, more);
  }

  lemma StretchedWords(h: seq<UInt>, more: seq<UInt>, p: nat)
    requires 1 <= p && p + MIN_BLK <= |h| && |more| >= 2 && |more| % 2 == 0 && |h| + |more| < LIMIT
    requires (|h| - p) % 2 == 0
    ensures var h' := Retagged(Extended(h, more), p, |h| + |more|, true);
      |h'| == |h| + |more| && forall i :: 0 <= i < |h| && h'[i] != h[i] ==> i == p - 1 || i == |h| - 1
  {
    hide Pack;
  }

  lemma StretchedTiling(l: Layout, end: nat, n: nat)
    requires Tiling(l.bs, l.last, end) && n % 2 == 0 && end + n < LIMIT && l.last != PROLOGUE
    ensures Tiling(Stretched(l, n).bs, l.last, end + n)
  {
    hide Follows, Preceded;
    var bs' := Stretched(l, n).bs;
    forall x | x in bs' ensures Shape(x, bs'[x], end + n) && Follows(bs', x, end + n) && Preceded(bs', x) {
      StretchedBlock(l, end, n, x);
    }
    forall x, y | x in bs' && y in bs' && x < y ensures Before(x, bs'[x], y) {
      TilingOrder(l.bs, l.last, end, x, y);
      LastIsUnique(l.bs, l.last, end, x);
      TilingAt(l.bs, l.last, end, y);
    }
  }

  lemma StretchedBlock(l: Layout, end: nat, n: nat, x: Addr)
    requires Tiling(l.bs, l.last, end) && n % 2 == 0 && end + n < LIMIT && l.last != PROLOGUE && x in l.bs
    ensures var bs' := Stretched(l, n).bs;
      Shape(x, bs'[x], end + n) && Follows(bs', x, end + n) && Preceded(bs', x)
  {
    hide Tiling;
    TilingEnd(l.bs, l.last, end);
    TilingAt(l.bs, l.last, end, x);
    LastIsUnique(l.bs, l.last, end, x);
    if x != l.last && x != PROLOGUE && l.bs[x].prev == l.last {
      TilingAt(l.bs, l.last, end, x);
    }
  }

  lemma StretchedListed(l: Layout, n: nat)
    requires Listed(l.bs, l.rings, l.skip) && Live(l.bs, l.last)
    ensures Listed(Stretched(l, n).bs, l.rings, l.skip)
  {
    forall g, x: Addr | 0 <= g < 3 ensures x in l.rings[g] <==> IsFree(Stretched(l, n).bs, x, g) && x !in l.skip {
      assert x in l.rings[g] <==> IsFree(l.bs, x, g) && x !in l.skip;
    }
  }

  lemma StretchedRings(h: seq<UInt>, h': seq<UInt>, l: Layout, n: nat)
    requires Represents(h, l) && |h'| == |h| + n && Live(l.bs, l.last) && l.last >= 1 && |h| >= 1
    requires forall i :: 0 <= i < |h| && h'[i] != h[i] ==> i == l.last - 1 || i == |h| - 1
    ensures Ringed(h', l.rings)
  {
    forall g | 0 <= g < 3 ensures Ring(h', Header(g), l.rings[g]) {
      var ring := l.rings[g];
      assert Ring(h, Header(g), ring);
      forall y | y in [Header(g)] + ring ensures y + 1 < |h| && h'[y] == h[y] && h'[y + 1] == h[y + 1] {
        var q := NodeIsInterior(l.bs, l.last, |h|, l.rings, l.skip, g, y);
        InteriorIsPrivate(l.bs, l.last, |h|, q, y);
        InteriorIsPrivate(l.bs, l.last, |h|, q, y + 1);
      }
      RingFrame(h, h', Header(g), ring);
    }
  }

  lemma StretchedMarked(h: seq<UInt>, l: Layout, more: seq<UInt>)
    requires Represents(h, l) && |more| >= 2 && |more| % 2 == 0 && |h| + |more| < LIMIT && Live(l.bs, l.last)
    requires |h| >= 1 && 1 <= l.last && l.last + MIN_BLK <= |h| && (|h| - l.last) % 2 == 0
    requires Tiling(Stretched(l, |more|).bs, l.last, |h| + |more|)
    ensures Marked(Retagged(Extended(h, more), l.last, |h| + |more|, true), Stretched(l, |more|).bs)
  {
    hide Pack, Ringed, Listed;
    hide Follows, Preceded;
    var h', bs' := Retagged(Extended(h, more), l.last, |h| + |more|, true), Stretched(l, |more|).bs;
    forall x | x in bs' ensures Shape(x, bs'[x], |h'|) && Tagged(h', x, bs'[x]) {
      TilingAt(l.bs, l.last, |h|, x);
      LastIsUnique(l.bs, l.last, |h|, x);
      assert Tagged(h, x, l.bs[x]);
      if x < l.last {
        TilingOrder(l.bs, l.last, |h|, x, l.last);
      }
    }
  }

  lemma StretchedKeeps(h: seq<UInt>, l: Layout, more: seq<UInt>)
    requires Represents(h, l) && |more| >= 2 && |more| % 2 == 0 && |h| + |more| < LIMIT && Live(l.bs, l.last)
    requires |h| >= 1 && 1 <= l.last && l.last + MIN_BLK <= |h| && (|h| - l.last) % 2 == 0
    ensures Keeps(h, l.bs, Retagged(Extended(h, more), l.last, |h| + |more|, true), Stretched(l, |more|).bs, l.last)
  {
    hide Tiling;
    var h', bs' := Retagged(Extended(h, more), l.last, |h| + |more|, true), Stretched(l, |more|).bs;
    forall x: Addr | Live(l.bs, x) && x != l.last ensures KeptBlock(h, l.bs, h', bs', x) {
      TilingAt(l.bs, l.last, |h|, x);
      if x < l.last {
        TilingOrder(l.bs, l.last, |h|, x, l.last);
      }
    }
  }
}
