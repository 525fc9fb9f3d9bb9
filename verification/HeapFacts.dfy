/** What the words of a heap tell about its layout, and which blocks can be merged. */
module HeapFacts {
  import opened Rings
  import opened Layouts
  import opened HeapOps

  lemma ReadyToMerge(h: seq<UInt>, l: Layout, bp: Addr, next: Addr)
    requires Represents(h, l) && bp in l.skip && next == bp + l.bs[bp].size
    requires l.skip == {bp, MergeFrom(l.bs, bp)} + if MergeTo(l.bs, bp, |h|) == next then {} else {next}
    ensures var p, e := MergeFrom(l.bs, bp), MergeTo(l.bs, bp, |h|);
      p < e <= |h| && Joinable(l, p, e, |h|) && forall x :: x in l.skip ==> p <= x < e
  {
    SkippedIsFree(h, l, bp);
    MergeRange(h, l, bp);
    hide Represents;
  }

  lemma SkippedIsFree(h: seq<UInt>, l: Layout, bp: Addr)
    requires Represents(h, l) && bp in l.skip
    ensures bp in l.bs && bp != PROLOGUE && !l.bs[bp].alloc && bp + l.bs[bp].size <= |h| < LIMIT
  {
    TilingAt(l.bs, l.last, |h|, bp);
    TilingEnd(l.bs, l.last, |h|);
  }

  lemma AllShaped(h: seq<UInt>, l: Layout)
    requires Represents(h, l)
    ensures forall p :: p in l.bs ==> Shape(p, l.bs[p], |h|)
  {
    forall q | q in l.bs ensures Shape(q, l.bs[q], |h|) {
      TilingAt(l.bs, l.last, |h|, q);
    }
  }

  lemma FreeIsNotPrologue(h: seq<UInt>, l: Layout, bp: Addr)
    requires Represents(h, l) && bp in l.bs && !l.bs[bp].alloc
    ensures bp != PROLOGUE && bp + l.bs[bp].size <= |h| < LIMIT
  {
    TilingAt(l.bs, l.last, |h|, bp);
    TilingEnd(l.bs, l.last, |h|);
  }

  /** A live block, or a free one off the rings, can be given tags of its own size. */
  lemma SelfJoinable(h: seq<UInt>, l: Layout, bp: Addr)
    requires Represents(h, l) && (bp in l.skip || Live(l.bs, bp))
    ensures bp in l.bs && bp + l.bs[bp].size <= |h| && Joinable(l, bp, bp + l.bs[bp].size, |h|)
  {
    if bp in l.skip {
      SkippedIsFree(h, l, bp);
    }
    TilingAt(l.bs, l.last, |h|, bp);
    forall x: Addr | x in l.bs && bp < x ensures bp + l.bs[bp].size <= x {
      TilingOrder(l.bs, l.last, |h|, bp, x);
    }
  }

  lemma SplitFront(bs: Blocks, p: Addr, size: nat)
    requires p in bs && p + bs[p].size < LIMIT
    ensures 0 < size < bs[p].size ==> p in Split(bs, p, size) && Split(bs, p, size)[p] == Block(size, true, bs[p].prev)
  {
    if 0 < size < bs[p].size {
      SplitParts(bs, p, size);
    }
  }

  /** Keeping all live blocks, one may except any. */
  lemma KeepsAny(h: seq<UInt>, bs: Blocks, h': seq<UInt>, bs': Blocks, x: Addr)
    requires Keeps(h, bs, h', bs', PROLOGUE)
    ensures Keeps(h, bs, h', bs', x)
  {}

  lemma TagsKnown(h: seq<UInt>, l: Layout, p: Addr)
    requires Represents(h, l) && p in l.bs
    ensures 1 <= p <= |h| && SizeOf(h[p - 1]) == l.bs[p].size
  {
    HeaderSize(h, l, p);
  }

  lemma KeepsSame(h: seq<UInt>, bs: Blocks)
    requires forall p :: p in bs ==> Shape(p, bs[p], |h|)
    ensures Keeps(h, bs, h, bs, PROLOGUE)
  {}

  /** What is merged is a range of whole blocks, with none but bp and its free successor inside. */
  lemma MergeRange(h: seq<UInt>, l: Layout, bp: Addr)
    requires Represents(h, l) && bp in l.bs && bp != PROLOGUE
    ensures forall p :: p in l.bs ==> Shape(p, l.bs[p], |h|)
    ensures var p, e := MergeFrom(l.bs, bp), MergeTo(l.bs, bp, |h|);
      && p in l.bs && p != PROLOGUE && p <= bp < e <= |h| && (e == |h| || e in l.bs)
      && bp + l.bs[bp].size <= e
      && forall x :: x in l.bs && p < x < e ==> x == bp || (x == bp + l.bs[bp].size && !l.bs[x].alloc)
  {
    hide Tiling, Ringed, Marked, Listed;
    TilingEnd(l.bs, l.last, |h|);
    TilingAt(l.bs, l.last, |h|, bp);
    var p, e, next := MergeFrom(l.bs, bp), MergeTo(l.bs, bp, |h|), bp + l.bs[bp].size;
    if next < |h| {
      TilingAt(l.bs, l.last, |h|, next);
    }
    forall x: Addr | x in l.bs && p < x < e ensures x == bp || (x == next && !l.bs[x].alloc) {
      TilingOrder(l.bs, l.last, |h|, p, x);
      if bp < x {
        TilingOrder(l.bs, l.last, |h|, bp, x);
        if next < x && next < |h| {
          TilingOrder(l.bs, l.last, |h|, next, x);
        }
      }
    }
    AllShaped(h, l);
  }

  lemma JoinedIdentity(h: seq<UInt>, l: Layout, bp: Addr)
    requires Represents(h, l) && bp in l.bs && bp + l.bs[bp].size < LIMIT
    ensures l.bs[bp].size > 0 && Joined(l.bs, bp, bp + l.bs[bp].size, l.bs[bp].alloc) == l.bs
  {
    TilingAt(l.bs, l.last, |h|, bp);
    forall x: Addr | x in l.bs && bp < x ensures bp + l.bs[bp].size <= x {
      TilingOrder(l.bs, l.last, |h|, bp, x);
    }
  }

  /** The block before bp, when it is free, is where merging starts. */
  function MergeFrom(bs: Blocks, bp: Addr): Addr
    requires bp in bs
  {
    var prev := bs[bp].prev;
    if prev in bs && !bs[prev].alloc then prev else bp
  }

  /** The end of the block after bp, when there is one and it is free, is where merging ends. */
  function MergeTo(bs: Blocks, bp: Addr, end: Addr): int
    requires bp in bs
  {
    var next := bp + bs[bp].size;
    if next < end && next in bs && !bs[next].alloc then next + bs[next].size else next
  }

  /** The blocks after block bp is freed and merged with its free neighbours. */
  function Freed(bs: Blocks, bp: Addr, end: Addr): Blocks
    requires bp in bs && bs[bp].size > 0
  {
    var free := bs[bp := bs[bp].(alloc := false)];
    var p, e := MergeFrom(free, bp), MergeTo(free, bp, end);
    if p in free && p < e < LIMIT then Joined(free, p, e, false) else free
  }

  /** The blocks after block bp is cut down to asize words and the rest is freed. */
  predicate CutDown(bs: Blocks, bp: Addr, asize: nat, end: Addr, bs': Blocks)
    requires bp in bs && asize < bs[bp].size && bp + bs[bp].size < LIMIT
  {
    var parts, rest := Split(bs, bp, asize), bp + asize;
    rest in parts && parts[rest].size > 0 && bs' == Freed(parts, rest, end)
  }

  lemma FreedAlone(h: seq<UInt>, l: Layout, bp: Addr)
    requires Represents(h, l) && bp in l.bs && bp + l.bs[bp].size < LIMIT
    ensures l.bs[bp].size > 0 && Joined(l.bs, bp, bp + l.bs[bp].size, false) == l.bs[bp := l.bs[bp].(alloc := false)]
  {
    TilingAt(l.bs, l.last, |h|, bp);
    forall x: Addr | x in l.bs && bp < x ensures bp + l.bs[bp].size <= x {
      TilingOrder(l.bs, l.last, |h|, bp, x);
    }
  }

  /** The words before and after a block tell the size and state of its neighbours. */
  lemma NeighbourTags(h: seq<UInt>, l: Layout, bp: Addr)
    requires Represents(h, l) && bp in l.bs && bp != PROLOGUE
    ensures var b, prev := l.bs[bp], l.bs[bp].prev; var next := bp + b.size;
      && 2 <= bp && next <= |h| && SizeOf(h[bp - 1]) == b.size && b.size >= MIN_BLK
      && prev in l.bs && prev < bp && prev + SizeOf(h[bp - 2]) == bp && l.bs[prev].size == SizeOf(h[bp - 2])
      && 1 <= prev && SizeOf(h[prev - 1]) == l.bs[prev].size && (AllocOf(h[bp - 2]) <==> l.bs[prev].alloc)
      && (if next == |h| then AllocOf(h[next - 1]) && SizeOf(h[next - 1]) == 0
          else && next in l.bs && SizeOf(h[next - 1]) == l.bs[next].size && next + l.bs[next].size <= |h| && l.bs[next].size >= MIN_BLK
               && (AllocOf(h[next - 1]) <==> l.bs[next].alloc))
  {
    TilingAt(l.bs, l.last, |h|, bp);
    TilingEnd(l.bs, l.last, |h|);
    HeaderSize(h, l, bp);
    HeaderSize(h, l, l.bs[bp].prev);
    if bp + l.bs[bp].size < |h| {
      HeaderSize(h, l, bp + l.bs[bp].size);
    }
  }

  lemma HeaderSize(h: seq<UInt>, l: Layout, bp: Addr)
    requires Represents(h, l) && bp in l.bs
    ensures 1 <= bp && bp + l.bs[bp].size <= |h| && l.bs[bp].size >= MIN_BLK
    ensures h[bp - 1] == h[bp + l.bs[bp].size - 2]
    ensures SizeOf(h[bp - 1]) == l.bs[bp].size && (AllocOf(h[bp - 1]) <==> l.bs[bp].alloc)
  {
    hide Tiling, Pack, SizeOf, AllocOf;
    TilingAt(l.bs, l.last, |h|, bp);
    TilingEnd(l.bs, l.last, |h|);
    assert Tagged(h, bp, l.bs[bp]);
  }

  lemma HeapNotEmpty(h: seq<UInt>, l: Layout)
    requires Represents(h, l)
    ensures |h| >= PROLOGUE + PROLOGUE_SIZE
  {
    TilingEnd(l.bs, l.last, |h|);
    TilingAt(l.bs, l.last, |h|, PROLOGUE);
  }

  /** One step to the right on the ring of group g. */
  lemma RingWalk(h: seq<UInt>, l: Layout, g: nat, k: nat)
    requires Represents(h, l) && g < 3 && k <= |l.rings[g]|
    ensures var c, ring := Cycle(Header(g), l.rings[g]), l.rings[g];
      && |c| == |ring| + 2 && c[0] == Header(g)
      && c[k] + 1 < |h| && Right(h, c[k]) == c[k + 1]
      && (c[k + 1] == Header(g) <==> k == |ring|)
      && (k < |ring| ==> c[k + 1] == ring[k] && ring[k] in l.bs && !l.bs[ring[k]].alloc)
  {
    var c, ring := Cycle(Header(g), l.rings[g]), l.rings[g];
    assert Ring(h, Header(g), ring);
    assert Linked(h, c[k], c[k + 1]);
    if k < |ring| {
      assert IsFree(l.bs, ring[k], g);
      FreeIsNotPrologue(h, l, ring[k]);
      BlocksApart(l.bs, l.last, |h|, ring[k], PROLOGUE);
    }
  }

  /** Splitting a block takes two pairs of tags. */
  lemma SplitSteps(h: seq<UInt>, l: Layout, p: Addr, size: nat)
    requires Represents(h, l) && Splittable(l, p, size)
    ensures var whole := l.bs[p].size;
      && 1 <= p && MIN_BLK <= size && size % 2 == 0 && size + MIN_BLK <= whole && p + whole <= |h| < LIMIT
      && whole % 2 == 0
      && SplitLayout(l, p, size).bs == Split(l.bs, p, size)
      && SplitTags(h, p, size, whole) == Retagged(Retagged(h, p, p + size, true), p + size, p + whole, false)
  {
    SplitRepresents(h, l, p, size);
  }

  lemma RingsComplete(h: seq<UInt>, l: Layout, g: nat)
    requires Represents(h, l) && l.skip == {} && g < 3
    ensures |l.rings| == 3
    ensures forall x :: x in l.rings[g] <==> IsFree(l.bs, x, g)
  {}

  // ----- payload bytes -----

  /** Byte k of a word, lowest first. */
  function ByteOf(w: UInt, k: nat): int {
    if k == 0 then w % 256
    else if k == 1 then w / 256 % 256
    else if k == 2 then w / 0x1_0000 % 256
    else w / 0x100_0000
  }

  /** Byte i of the payload at p. */
  function PayloadByte(h: seq<UInt>, p: Addr, i: nat): int
    requires p + i / 4 < |h|
  {
    ByteOf(h[p + i / 4], i % 4)
  }

  type Octet = x: int | 0 <= x < 256

  function WordOf(b0: Octet, b1: Octet, b2: Octet, b3: Octet): (w: UInt)
    ensures ByteOf(w, 0) == b0 && ByteOf(w, 1) == b1 && ByteOf(w, 2) == b2 && ByteOf(w, 3) == b3
  {
    var w := b0 + 256 * (b1 + 256 * (b2 + 256 * b3));
    assert w / 256 == b1 + 256 * (b2 + 256 * b3);
    assert w / 0x1_0000 == b2 + 256 * b3;
    assert w / 0x100_0000 == b3;
    w
  }

  /** A word whose lowest r bytes are those of s and whose others are those of d. */
  function Blend(d: UInt, s: UInt, r: nat): (w: UInt)
    ensures forall k :: 0 <= k < 4 ==> ByteOf(w, k) == ByteOf(if k < r then s else d, k)
  {
    WordOf(ByteOf(if 0 < r then s else d, 0), ByteOf(if 1 < r then s else d, 1),
           ByteOf(if 2 < r then s else d, 2), ByteOf(if 3 < r then s else d, 3))
  }

  // ----- what a request sees -----

  /** Except for x before and y after, the allocated blocks are the same, with the same payload. */
  ghost predicate KeepsOthers(h: seq<UInt>, bs: Blocks, x: Addr, h': seq<UInt>, bs': Blocks, y: Addr) {
    && (forall p: Addr :: Live(bs, p) && p != x ==> KeptBlock(h, bs, h', bs', p))
    && (forall p: Addr :: Live(bs', p) && p != y ==> Live(bs, p) && p != x)
  }

  lemma KeepsInPlace(h: seq<UInt>, bs: Blocks, h': seq<UInt>, bs': Blocks, x: Addr)
    requires Keeps(h, bs, h', bs', x)
    ensures KeepsOthers(h, bs, x, h', bs', x)
  {}

  /** A block moved: allocated at y, copied, and freed at x. */
  lemma KeepsMoved(h0: seq<UInt>, b0: Blocks, h1: seq<UInt>, b1: Blocks, h2: seq<UInt>, b2: Blocks, x: Addr, y: Addr)
    requires Keeps(h0, b0, h1, b1, y) && Keeps(h1, b1, h2, b2, x) && !Live(b2, x) && !Live(b0, y)
    ensures KeepsOthers(h0, b0, x, h2, b2, y)
  {
    hide SameWords;
    forall p: Addr | Live(b0, p) && p != x ensures KeptBlock(h0, b0, h2, b2, p) {
      assert KeptBlock(h0, b0, h1, b1, p) && KeptBlock(h1, b1, h2, b2, p);
      SameWordsTransitive(h0, h1, h2, p, p + b0[p].size - 2);
    }
  }

  /** Writing payload of a live block disturbs nothing else. */
  lemma PayloadWrite(h: seq<UInt>, h': seq<UInt>, l: Layout, p: Addr)
    requires Represents(h, l) && Live(l.bs, p) && |h'| == |h|
    requires forall i :: 0 <= i < |h| && h'[i] != h[i] ==> p <= i < p + l.bs[p].size - 2
    ensures Represents(h', l) && Keeps(h, l.bs, h', l.bs, p)
  {
    hide Tiling, Tagged, KeptBlock, Shape;
    TilingEnd(l.bs, l.last, |h|);
    forall q | q in l.bs
      ensures Shape(q, l.bs[q], |h|) && Tagged(h', q, l.bs[q])
      ensures Live(l.bs, q) && q != p ==> KeptBlock(h, l.bs, h', l.bs, q)
    {
      PayloadTag(h, h', l, p, q);
    }
    PayloadTag(h, h', l, p, p);
    forall g | 0 <= g < 3 ensures Ring(h', Header(g), l.rings[g]) {
      PayloadIsNoLink(h, h', l, p, g);
    }
  }

  lemma PayloadTag(h: seq<UInt>, h': seq<UInt>, l: Layout, p: Addr, q: Addr)
    requires Represents(h, l) && Live(l.bs, p) && |h'| == |h| && q in l.bs
    requires forall i :: 0 <= i < |h| && h'[i] != h[i] ==> p <= i < p + l.bs[p].size - 2
    ensures |h| < LIMIT && Shape(q, l.bs[q], |h|) && Tagged(h', q, l.bs[q])
    ensures Live(l.bs, q) && q != p ==> KeptBlock(h, l.bs, h', l.bs, q)
    ensures |h| > 0 && h'[|h| - 1] == h[|h| - 1]
  {
    hide Tiling;
    TilingAt(l.bs, l.last, |h|, q);
    TilingAt(l.bs, l.last, |h|, p);
    TilingEnd(l.bs, l.last, |h|);
    assert Tagged(h, q, l.bs[q]);
    if q < p {
      TilingOrder(l.bs, l.last, |h|, q, p);
    } else if p < q {
      TilingOrder(l.bs, l.last, |h|, p, q);
    }
  }

  lemma PayloadIsNoLink(h: seq<UInt>, h': seq<UInt>, l: Layout, p: Addr, g: nat)
    requires Represents(h, l) && Live(l.bs, p) && |h'| == |h| && g < 3
    requires forall i :: 0 <= i < |h| && h'[i] != h[i] ==> p <= i < p + l.bs[p].size - 2
    ensures Ring(h', Header(g), l.rings[g])
  {
    var ring := l.rings[g];
    assert Ring(h, Header(g), ring);
    forall y | y in [Header(g)] + ring ensures y + 1 < |h| && h'[y] == h[y] && h'[y + 1] == h[y + 1] {
      var q := NodeIsInterior(l.bs, l.last, |h|, l.rings, l.skip, g, y);
      InteriorIsPrivate(l.bs, l.last, |h|, q, y);
      InteriorIsPrivate(l.bs, l.last, |h|, q, y + 1);
      assert !Interior(l.bs, p, y) && !Interior(l.bs, p, y + 1);
    }
    RingFrame(h, h', Header(g), ring);
  }

  /** The tags of a split block overwrite those of the block it is made from. */
  lemma SplitOverJoin(h: seq<UInt>, p: Addr, size: nat, whole: nat, alloc: bool)
    requires 1 <= p && MIN_BLK <= size && size + MIN_BLK <= whole && p + whole <= |h| < LIMIT && size % 2 == 0
    requires whole % 2 == 0
    ensures SplitTags(Retagged(h, p, p + whole, alloc), p, size, whole) == SplitTags(h, p, size, whole)
  {}

  /** A block's own tags are already there. */
  lemma RetaggedSame(h: seq<UInt>, l: Layout, p: Addr)
    requires Represents(h, l) && p in l.bs
    ensures 1 <= p && p + MIN_BLK <= p + l.bs[p].size <= |h| < LIMIT && l.bs[p].size % 2 == 0
    ensures Retagged(h, p, p + l.bs[p].size, l.bs[p].alloc) == h
  {
    hide Tiling, Pack;
    TilingAt(l.bs, l.last, |h|, p);
    TilingEnd(l.bs, l.last, |h|);
    assert Tagged(h, p, l.bs[p]);
  }

  /** With one pair of tags, bp and the block next behind it make one live block of whole words. */
  ghost predicate TakenOver(h: seq<UInt>, l: Layout, bp: Addr, next: Addr, whole: nat)
    requires bp in l.bs && 1 <= bp && MIN_BLK <= whole && bp + whole <= |h| < LIMIT && whole % 2 == 0
  {
    var h', l' := Retagged(h, bp, bp + whole, true), JoinedLayout(l, bp, bp + whole, true, |h|);
    && Represents(h', l') && l'.skip == {} && Live(l'.bs, bp) && l'.bs[bp].size == whole
    && Keeps(h, l.bs, h', l'.bs, bp) && SameWords(h, h', bp, next - 2)
  }

  /** Live block bp and the free block behind it, taken off its ring, make one live block. */
  lemma MergedWithNext(h: seq<UInt>, l: Layout, bp: Addr, next: Addr)
    requires Represents(h, l) && Live(l.bs, bp) && next == bp + l.bs[bp].size && next in l.bs && l.skip == {next}
    ensures var whole := l.bs[bp].size + l.bs[next].size;
      && 1 <= bp && MIN_BLK <= whole && bp + whole <= |h| < LIMIT && whole % 2 == 0
      && TakenOver(h, l, bp, next, whole)
  {
    hide Tiling, Keeps, Marked, Ringed, Listed, Joined;
    var e := next + l.bs[next].size;
    TilingAt(l.bs, l.last, |h|, bp);
    TilingAt(l.bs, l.last, |h|, next);
    TilingEnd(l.bs, l.last, |h|);
    assert l.bs[bp].size + l.bs[next].size == e - bp;
    forall x: Addr | x in l.bs && bp < x < e ensures x == next {
      TilingOrder(l.bs, l.last, |h|, bp, x);
      if next < x {
        TilingOrder(l.bs, l.last, |h|, next, x);
      }
    }
    JoinRepresents(h, l, bp, e, true);
    JoinedSelf(l, bp, e, true);
  }

  /** The words of h from p on and those of h' from p' on hold the same n bytes. */
  ghost predicate SameBytes(h: seq<UInt>, p: Addr, h': seq<UInt>, p': Addr, n: nat) {
    && p + (n + 3) / 4 <= |h| && p' + (n + 3) / 4 <= |h'|
    && forall i :: 0 <= i < n ==> PayloadByte(h, p, i) == PayloadByte(h', p', i)
  }

  lemma SameBytesOfWords(h: seq<UInt>, h': seq<UInt>, p: Addr, k: nat, n: nat)
    requires SameWords(h, h', p, p + k) && n <= 4 * k && k > 0
    ensures SameBytes(h, p, h', p, n)
  {}

  /** A live block keeps its payload when all live blocks do. */
  lemma KeptWords(h: seq<UInt>, bs: Blocks, h': seq<UInt>, bs': Blocks, p: Addr, x: Addr)
    requires Keeps(h, bs, h', bs', x) && Live(bs, p) && p != x
    ensures Live(bs', p) && bs'[p].size == bs[p].size && SameWords(h, h', p, p + bs[p].size - 2)
  {
    assert KeptBlock(h, bs, h', bs', p);
  }

  lemma SameWordsWithin(h: seq<UInt>, h': seq<UInt>, lo: int, hi: int, hi': int)
    requires SameWords(h, h', lo, hi) && hi' <= hi
    ensures SameWords(h, h', lo, hi')
  {}

  lemma SameBytesThen(h: seq<UInt>, p: Addr, h': seq<UInt>, p': Addr, n: nat, h'': seq<UInt>, k: nat)
    requires SameBytes(h, p, h', p', n) && SameWords(h', h'', p', p' + k) && n <= 4 * k && p' + k <= |h''|
    ensures SameBytes(h, p, h'', p', n)
  {}

  lemma SameBytesTransitive(h: seq<UInt>, p: Addr, h': seq<UInt>, p': Addr, h'': seq<UInt>, p'': Addr, m: nat, n: nat)
    requires SameBytes(h, p, h', p', m) && SameBytes(h', p', h'', p'', n) && m <= n
    ensures SameBytes(h, p, h'', p'', m)
  {}

  lemma LastBlock(h: seq<UInt>, l: Layout, bp: Addr)
    requires Represents(h, l) && bp in l.bs && bp + l.bs[bp].size == |h|
    ensures bp == l.last
  {
    LastIsUnique(l.bs, l.last, |h|, bp);
  }

  lemma BlocksDisjoint(h: seq<UInt>, l: Layout, p: Addr, q: Addr)
    requires Represents(h, l) && p in l.bs && q in l.bs && p != q
    ensures p + l.bs[p].size <= q || q + l.bs[q].size <= p
    ensures p + l.bs[p].size <= |h| && q + l.bs[q].size <= |h|
  {
    hide Tiling;
    TilingAt(l.bs, l.last, |h|, p);
    TilingAt(l.bs, l.last, |h|, q);
    if p < q {
      TilingOrder(l.bs, l.last, |h|, p, q);
    } else {
      TilingOrder(l.bs, l.last, |h|, q, p);
    }
  }

  lemma BlockShape(h: seq<UInt>, l: Layout, p: Addr)
    requires Represents(h, l) && p in l.bs
    ensures Shape(p, l.bs[p], |h|)
  {
    TilingAt(l.bs, l.last, |h|, p);
  }

  /** The block a payload is moved to lies apart from the one it comes from. */
  lemma MovedApart(h0: seq<UInt>, b0: Blocks, h1: seq<UInt>, l1: Layout, x: Addr, y: Addr)
    requires Live(b0, x) && Keeps(h0, b0, h1, l1.bs, y) && Represents(h1, l1) && Live(l1.bs, y) && !Live(b0, y)
    ensures x != y && Live(l1.bs, x) && l1.bs[x].size == b0[x].size
    ensures x + b0[x].size <= y || y + l1.bs[y].size <= x
    ensures x + b0[x].size <= |h1| && y + l1.bs[y].size <= |h1|
  {
    hide Represents, Keeps;
    KeptWords(h0, b0, h1, l1.bs, x, y);
    BlocksDisjoint(h1, l1, x, y);
  }

  /** The payload survives allocation at y, copying there and freeing at x. */
  lemma MovedBytes(h0: seq<UInt>, b0: Blocks, h1: seq<UInt>, b1: Blocks, h2: seq<UInt>, h3: seq<UInt>, b3: Blocks,
                   x: Addr, y: Addr, size: nat, n: nat)
    requires x != y && Live(b0, x) && Live(b1, y) && b0[x].size >= MIN_BLK && size > 0 && Payload(b1[y].size) >= size
    requires Keeps(h0, b0, h1, b1, y) && SameBytes(h1, x, h2, y, n) && Keeps(h2, b1, h3, b3, x)
    requires n == if size < 4 * b0[x].size then size else 4 * b0[x].size
    ensures var m := if size < Payload(b0[x].size) then size else Payload(b0[x].size);
      SameBytes(h0, x, h3, y, m)
    ensures Live(b3, y) && b3[y].size == b1[y].size
  {
    hide Keeps, SameWords, SameBytes;
    var m := if size < Payload(b0[x].size) then size else Payload(b0[x].size);
    KeptWords(h0, b0, h1, b1, x, y);
    KeptWords(h2, b1, h3, b3, y, x);
    SameBytesOfWords(h0, h1, x, b0[x].size - 2, m);
    SameBytesTransitive(h0, x, h1, x, h2, y, m, n);
    SameBytesThen(h0, x, h2, y, m, h3, b1[y].size - 2);
  }

  lemma NotLiveBefore(h: seq<UInt>, bs: Blocks, h': seq<UInt>, bs': Blocks, p: Addr)
    requires Keeps(h, bs, h', bs', PROLOGUE) && !Live(bs', p)
    ensures !Live(bs, p)
  {
    assert Live(bs, p) ==> KeptBlock(h, bs, h', bs', p);
  }

  lemma NotLiveAfter(h: seq<UInt>, bs: Blocks, h': seq<UInt>, bs': Blocks, p: Addr)
    requires Keeps(h, bs, h', bs', PROLOGUE) && !Live(bs, p)
    ensures !Live(bs', p)
  {}

  // ----- the first heap -----

  function Fresh(): Layout {
    Layout(map[PROLOGUE := Block(PROLOGUE_SIZE, true, 0)], PROLOGUE, [[], [], []], {})
  }

  /** A prologue with three empty rings and an epilogue. */
  lemma FreshRepresents(h: seq<UInt>)
    requires |h| == 10 && h[1] == h[8] == Pack(PROLOGUE_SIZE, true) && h[9] == Pack(0, true)
    requires forall g :: 0 <= g < 3 ==> h[Header(g)] == h[Header(g) + 1] == Ptr(Header(g))
    ensures Represents(h, Fresh())
  {
    var l := Fresh();
    assert Shape(PROLOGUE, l.bs[PROLOGUE], |h|) && Tagged(h, PROLOGUE, l.bs[PROLOGUE]);
    forall g | 0 <= g < 3 ensures Ring(h, Header(g), l.rings[g]) {
      assert Linked(h, Header(g), Header(g));
    }
  }

  // ----- what the layout means to the caller -----

  /** The payload of a live block is aligned and inside the heap, and holds no tag, no link and nothing of
      another block. */
  lemma PayloadIsPrivate(h: seq<UInt>, l: Layout, p: Addr)
    requires Represents(h, l) && Live(l.bs, p)
    ensures p % 2 == 0 && PROLOGUE + PROLOGUE_SIZE <= p && p + l.bs[p].size - 2 < |h|
    ensures forall q :: q in l.bs && q != p ==> q + l.bs[q].size - 1 < p || p + l.bs[p].size - 2 < q - 1
    ensures forall g, x :: 0 <= g < 3 && x in [Header(g)] + l.rings[g] ==> x + 1 < p || p + l.bs[p].size - 2 <= x
  {
    TilingAt(l.bs, l.last, |h|, p);
    BlocksDisjoint(h, l, p, PROLOGUE);
    forall q | q in l.bs && q != p ensures q + l.bs[q].size - 1 < p || p + l.bs[p].size - 2 < q - 1 {
      BlocksDisjoint(h, l, p, q);
    }
    forall g, x | 0 <= g < 3 && x in [Header(g)] + l.rings[g] ensures x + 1 < p || p + l.bs[p].size - 2 <= x {
      var q := NodeIsInterior(l.bs, l.last, |h|, l.rings, l.skip, g, x);
      BlocksDisjoint(h, l, p, q);
    }
  }
}
