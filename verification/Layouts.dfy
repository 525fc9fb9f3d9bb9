/** The ghost layout of the segregated-fit heap: the blocks that tile it and the three rings of free
    blocks, with the words of the heap that represent them. */
module Layouts {
  import opened Rings

  // ----- sizes, in words of 4 bytes -----

  const NULL: Addr := 0

  const MIN_BLK: nat := 4
  const G1_MAX: nat := 12
  const G2_MAX: nat := 108
  const CHUNK: nat := 108
  const PROLOGUE: Addr := 2
  const PROLOGUE_SIZE: nat := 8

  /** Words for a block whose payload holds size bytes: header and footer added, then rounded up to 8. */
  function BlockWords(size: nat): (w: nat)
    ensures w % 2 == 0 && w >= MIN_BLK - 2 && Payload(w) >= size
    ensures size > 0 ==> w >= MIN_BLK && Payload(w) < size + 8
  {
    2 * ((size + 15) / 8)
  }

  function Group(size: nat): nat {
    if size <= G1_MAX then 0 else if size <= G2_MAX then 1 else 2
  }

  /** The bytes between the header and the footer of a block. */
  function Payload(size: nat): nat {
    if size < 2 then 0 else 4 * (size - 2)
  }

  /** The ring headers share the payload of the prologue block. */
  function Header(g: nat): Addr
    requires g < 3
  {
    PROLOGUE + 2 * g
  }

  function SizeOf(w: UInt): Addr { w / 8 * 2 }

  predicate AllocOf(w: UInt) { w % 2 == 1 }

  /** A header or footer word: the size in bytes with the allocated bit. */
  function Pack(size: nat, alloc: bool): (w: UInt)
    requires size < LIMIT && size % 2 == 0
    ensures SizeOf(w) == size && (AllocOf(w) <==> alloc)
  {
    assert size == 2 * (size / 2);
    var bit := if alloc then 1 else 0;
    PackedSize(size / 2, bit);
    PackedBit(size / 2, bit);
    4 * size + bit
  }

  /** In a tag the size in bytes is what the three lowest bits leave, and the lowest is the allocated bit. */
  lemma TagBits(size: nat, alloc: bool)
    requires size < LIMIT && size % 2 == 0
    ensures var w := Pack(size, alloc); w - w % 8 == 4 * size && w % 8 == if alloc then 1 else 0
  {
    assert size == 2 * (size / 2);
  }

  lemma PackedSize(half: int, bit: int)
    requires bit == 0 || bit == 1
    ensures (8 * half + bit) / 8 == half
  {}

  lemma PackedBit(half: int, bit: int)
    requires bit == 0 || bit == 1
    ensures (8 * half + bit) % 2 == bit
  {}

  // ----- the blocks -----

  datatype Block = Block(size: nat, alloc: bool, prev: Addr)

  type Blocks = map<Addr, Block>

  predicate Shape(p: Addr, b: Block, end: nat) {
    p >= PROLOGUE && p % 2 == 0 && b.size % 2 == 0 && b.size >= MIN_BLK && p + b.size <= end
  }

  predicate Before(p: Addr, b: Block, q: Addr) {
    p + b.size <= q
  }

  /** Whatever follows block p is a block that knows p as its predecessor, or the epilogue. */
  predicate Follows(bs: Blocks, p: Addr, end: nat)
    requires p in bs
  {
    var q := p + bs[p].size;
    q == end || (q in bs && bs[q].prev == p)
  }

  predicate Preceded(bs: Blocks, p: Addr)
    requires p in bs
  {
    p == PROLOGUE || (bs[p].prev in bs && bs[p].prev + bs[bs[p].prev].size == p)
  }

  /** The blocks tile the heap from the prologue to the epilogue at end; last is the last of them. */
  predicate Tiling(bs: Blocks, last: Addr, end: nat) {
    && end < LIMIT && end % 2 == 0
    && PROLOGUE in bs && bs[PROLOGUE].size == PROLOGUE_SIZE && bs[PROLOGUE].alloc
    && (forall p {:trigger Shape(p, bs[p], end)} :: p in bs ==> Shape(p, bs[p], end))
    && (forall p {:trigger Follows(bs, p, end)} :: p in bs ==> Follows(bs, p, end))
    && (forall p {:trigger Preceded(bs, p)} :: p in bs ==> Preceded(bs, p))
    && (forall p, q {:trigger Before(p, bs[p], q)} :: p in bs && q in bs && p < q ==> Before(p, bs[p], q))
    && last in bs && last + bs[last].size == end
  }

  predicate Tagged(h: seq<UInt>, p: Addr, b: Block)
    requires Shape(p, b, |h|) && |h| < LIMIT
  {
    h[p - 1] == Pack(b.size, b.alloc) && h[p + b.size - 2] == Pack(b.size, b.alloc)
  }

  /** Every block has its size and allocation bit in its header and its footer, and the epilogue header
      ends the heap. */
  predicate Marked(h: seq<UInt>, bs: Blocks)
    requires |h| < LIMIT && forall p :: p in bs ==> Shape(p, bs[p], |h|)
  {
    && (forall p :: p in bs ==> Tagged(h, p, bs[p]))
    && |h| > 0 && h[|h| - 1] == 1
  }

  // ----- the rings -----

  predicate IsFree(bs: Blocks, p: Addr, g: nat) {
    p in bs && !bs[p].alloc && Group(bs[p].size) == g
  }

  /** The rings hold exactly the free blocks of their groups, but for those in skip. */
  ghost predicate Listed(bs: Blocks, rings: seq<seq<Addr>>, skip: set<Addr>) {
    && |rings| == 3
    && forall g, p {:trigger p in rings[g]} {:trigger IsFree(bs, p, g)} :: 0 <= g < 3 ==> (p in rings[g] <==> IsFree(bs, p, g) && p !in skip)
  }

  predicate Ringed(h: seq<UInt>, rings: seq<seq<Addr>>) {
    |rings| == 3 && forall g :: 0 <= g < 3 ==> Ring(h, Header(g), rings[g])
  }

  datatype Layout = Layout(bs: Blocks, last: Addr, rings: seq<seq<Addr>>, skip: set<Addr>)

  /** The heap words represent the layout. */
  ghost predicate Represents(h: seq<UInt>, l: Layout) {
    && Tiling(l.bs, l.last, |h|)
    && Marked(h, l.bs)
    && Listed(l.bs, l.rings, l.skip)
    && Ringed(h, l.rings)
    && (forall p :: p in l.skip ==> p in l.bs && !l.bs[p].alloc)
  }

  /** Word i lies between the header and the footer of block p. */
  predicate Interior(bs: Blocks, p: Addr, i: int) {
    p in bs && p <= i < p + bs[p].size - 2
  }

  predicate Live(bs: Blocks, p: Addr) {
    p in bs && bs[p].alloc && p != PROLOGUE
  }

  ghost predicate SameWords(h: seq<UInt>, h': seq<UInt>, lo: int, hi: int) {
    && (lo < hi ==> 0 <= lo && hi <= |h| && hi <= |h'|)
    && forall i :: lo <= i < hi ==> h[i] == h'[i]
  }

  ghost predicate KeptBlock(h: seq<UInt>, bs: Blocks, h': seq<UInt>, bs': Blocks, p: Addr)
    requires Live(bs, p)
  {
    Live(bs', p) && bs'[p].size == bs[p].size && SameWords(h, h', p, p + bs[p].size - 2)
  }

  /** Except for x, the allocated blocks are the same, with the same payload in every word. */
  ghost predicate Keeps(h: seq<UInt>, bs: Blocks, h': seq<UInt>, bs': Blocks, x: Addr) {
    && (forall p: Addr :: Live(bs, p) && p != x ==> KeptBlock(h, bs, h', bs', p))
    && (forall p: Addr :: Live(bs', p) && p != x ==> Live(bs, p))
  }

  lemma SameWordsTransitive(h0: seq<UInt>, h1: seq<UInt>, h2: seq<UInt>, lo: int, hi: int)
    requires SameWords(h0, h1, lo, hi) && SameWords(h1, h2, lo, hi)
    ensures SameWords(h0, h2, lo, hi)
  {}

  lemma KeepsTransitive(h0: seq<UInt>, b0: Blocks, h1: seq<UInt>, b1: Blocks, h2: seq<UInt>, b2: Blocks, x: Addr)
    requires Keeps(h0, b0, h1, b1, x) && Keeps(h1, b1, h2, b2, x)
    ensures Keeps(h0, b0, h2, b2, x)
  {
    hide SameWords;
    forall p: Addr | Live(b0, p) && p != x ensures KeptBlock(h0, b0, h2, b2, p) {
      assert KeptBlock(h0, b0, h1, b1, p) && KeptBlock(h1, b1, h2, b2, p);
      SameWordsTransitive(h0, h1, h2, p, p + b0[p].size - 2);
    }
  }

  // ----- where words are -----

  /** A word between the tags of one block is neither a tag nor between the tags of another. */
  lemma InteriorIsPrivate(bs: Blocks, last: Addr, end: nat, p: Addr, i: int)
    requires Tiling(bs, last, end) && Interior(bs, p, i)
    ensures 0 <= i && i + 1 < end
    ensures forall q :: q in bs ==> i != q - 1 && i != q + bs[q].size - 2
    ensures forall q :: q in bs && q != p ==> !Interior(bs, q, i)
  {
    assert Shape(p, bs[p], end);
    forall q | q in bs && q != p ensures !Interior(bs, q, i) && i != q - 1 && i != q + bs[q].size - 2 {
      assert Shape(q, bs[q], end);
      assert if p < q then Before(p, bs[p], q) else Before(q, bs[q], p);
    }
  }

  /** Link words are interior to free blocks or, for the headers, to the prologue. */
  lemma NodeIsInterior(bs: Blocks, last: Addr, end: nat, rings: seq<seq<Addr>>, skip: set<Addr>, g: nat,
                       x: Addr) returns (p: Addr)
    requires Tiling(bs, last, end) && Listed(bs, rings, skip) && g < 3 && x in [Header(g)] + rings[g]
    ensures Interior(bs, p, x) && Interior(bs, p, x + 1) && !Live(bs, p)
    ensures p == if x in rings[g] then x else PROLOGUE
  {
    p := if x in rings[g] then x else PROLOGUE;
    if x in rings[g] {
      assert IsFree(bs, x, g);
      assert Shape(x, bs[x], end);
    }
  }

  /** Free blocks and ring headers are nodes that do not overlap. */
  lemma BlocksApart(bs: Blocks, last: Addr, end: nat, p: Addr, q: Addr)
    requires Tiling(bs, last, end) && p in bs && q in bs && p != q
    ensures NoOverlap(p, q)
    ensures p != PROLOGUE ==> forall g :: 0 <= g < 3 ==> NoOverlap(p, Header(g))
  {
    assert Shape(p, bs[p], end) && Shape(q, bs[q], end);
    assert if p < q then Before(p, bs[p], q) else Before(q, bs[q], p);
    if p != PROLOGUE {
      assert p < PROLOGUE || Before(PROLOGUE, bs[PROLOGUE], p);
    }
  }

  lemma RingsApart(bs: Blocks, last: Addr, end: nat, rings: seq<seq<Addr>>, skip: set<Addr>, g: nat, x: Addr, g': nat,
                   y: Addr)
    requires Tiling(bs, last, end) && Listed(bs, rings, skip) && g < 3 && g' < 3
    requires x in [Header(g)] + rings[g] && y in [Header(g')] + rings[g'] && g != g'
    ensures NoOverlap(x, y)
  {
    if x in rings[g] {
      assert IsFree(bs, x, g) && x != PROLOGUE;
      BlocksApart(bs, last, end, x, PROLOGUE);
    }
    if y in rings[g'] {
      assert IsFree(bs, y, g') && y != PROLOGUE;
      BlocksApart(bs, last, end, y, PROLOGUE);
    }
    if x in rings[g] && y in rings[g'] {
      BlocksApart(bs, last, end, x, y);
    }
  }

  // ----- inserting and removing a free block -----

  /** h' differs from h only in link words of the ring of group g and of block bp. */
  ghost predicate OnlyLinks(h: seq<UInt>, h': seq<UInt>, nodes: seq<Addr>) {
    |h'| == |h| && forall i :: 0 <= i < |h| && h'[i] != h[i] ==> i in nodes || i - 1 in nodes
  }

  /** A word of no consequence for tags and payloads. */
  ghost predicate Scratch(bs: Blocks, i: int) {
    exists p :: Interior(bs, p, i) && !Live(bs, p)
  }

  lemma ScratchIsHarmless(bs: Blocks, last: Addr, end: nat, i: int, q: Addr)
    requires Tiling(bs, last, end) && Scratch(bs, i) && q in bs
    ensures i != end - 1 && i != q - 1 && i != q + bs[q].size - 2
    ensures Live(bs, q) ==> !Interior(bs, q, i)
  {
    var p :| Interior(bs, p, i) && !Live(bs, p);
    InteriorIsPrivate(bs, last, end, p, i);
  }

  /** If only scratch words change, tags and payloads stay. */
  lemma TagsKept(h: seq<UInt>, h': seq<UInt>, bs: Blocks, last: Addr)
    requires Tiling(bs, last, |h|) && Marked(h, bs) && |h'| == |h|
    requires forall i :: 0 <= i < |h| && h'[i] != h[i] ==> Scratch(bs, i)
    ensures Marked(h', bs) && Keeps(h, bs, h', bs, PROLOGUE)
  {
    forall q | q in bs
      ensures Tagged(h', q, bs[q]) && (Live(bs, q) ==> KeptBlock(h, bs, h', bs, q)) && h'[|h| - 1] == h[|h| - 1]
    {
      TagKept(h, h', bs, last, q);
    }
    assert PROLOGUE in bs;
  }

  lemma TagKept(h: seq<UInt>, h': seq<UInt>, bs: Blocks, last: Addr, q: Addr)
    requires Tiling(bs, last, |h|) && Marked(h, bs) && |h'| == |h| && q in bs
    requires forall i :: 0 <= i < |h| && h'[i] != h[i] ==> Scratch(bs, i)
    ensures Tagged(h', q, bs[q]) && (Live(bs, q) ==> KeptBlock(h, bs, h', bs, q)) && h'[|h| - 1] == h[|h| - 1]
  {
    assert Tagged(h, q, bs[q]) && Shape(q, bs[q], |h|);
    forall i | 0 <= i < |h| && Scratch(bs, i)
      ensures i != |h| - 1 && i != q - 1 && i != q + bs[q].size - 2 && (Live(bs, q) ==> !Interior(bs, q, i))
    {
      ScratchIsHarmless(bs, last, |h|, i, q);
    }
    hide Scratch, Tiling;
    if Live(bs, q) {
      forall i | q <= i < q + bs[q].size - 2 ensures h[i] == h'[i] {
        assert Interior(bs, q, i);
      }
    }
  }

  /** The words of a node, either of the ring of group g or of block bp about to enter or leave it. */
  lemma NodeIsScratch(h: seq<UInt>, l: Layout, g: nat, bp: Addr, x: Addr)
    requires Represents(h, l) && g < 3 && IsFree(l.bs, bp, g)
    requires x in [Header(g)] + l.rings[g] + [bp]
    ensures Scratch(l.bs, x) && Scratch(l.bs, x + 1)
  {
    var p;
    if x in [Header(g)] + l.rings[g] {
      p := NodeIsInterior(l.bs, l.last, |h|, l.rings, l.skip, g, x);
    } else {
      p := bp;
      assert Shape(bp, l.bs[bp], |h|);
    }
    assert Interior(l.bs, p, x) && Interior(l.bs, p, x + 1) && !Live(l.bs, p);
  }

  lemma NodesOfOtherRings(h: seq<UInt>, l: Layout, g: nat, bp: Addr, x: Addr, g': nat, y: Addr)
    requires Represents(h, l) && g < 3 && IsFree(l.bs, bp, g) && g' < 3 && g' != g
    requires x in [Header(g)] + l.rings[g] + [bp] && y in [Header(g')] + l.rings[g']
    ensures NoOverlap(x, y)
  {
    if x in [Header(g)] + l.rings[g] {
      RingsApart(l.bs, l.last, |h|, l.rings, l.skip, g, x, g', y);
    } else {
      BlocksApart(l.bs, l.last, |h|, bp, PROLOGUE);
      if y in l.rings[g'] {
        assert IsFree(l.bs, y, g');
        BlocksApart(l.bs, l.last, |h|, bp, y);
      }
    }
  }

  /** Changing link words of one group's nodes keeps tags, payloads and the other rings. */
  lemma LinkChange(h: seq<UInt>, h': seq<UInt>, l: Layout, g: nat, bp: Addr)
    requires Represents(h, l) && g < 3 && IsFree(l.bs, bp, g)
    requires OnlyLinks(h, h', [Header(g)] + l.rings[g] + [bp])
    ensures Marked(h', l.bs) && Keeps(h, l.bs, h', l.bs, PROLOGUE)
    ensures forall g' :: 0 <= g' < 3 && g' != g ==> Ring(h', Header(g'), l.rings[g'])
  {
    var nodes := [Header(g)] + l.rings[g] + [bp];
    forall i | 0 <= i < |h| && h'[i] != h[i] ensures Scratch(l.bs, i) {
      var x: int := if i in nodes then i else i - 1;
      assert x in nodes;
      var k :| 0 <= k < |nodes| && nodes[k] == x;
      NodeIsScratch(h, l, g, bp, nodes[k]);
    }
    TagsKept(h, h', l.bs, l.last);
    forall g' | 0 <= g' < 3 && g' != g ensures Ring(h', Header(g'), l.rings[g']) {
      OtherRingKept(h, h', l, g, bp, g');
    }
  }

  lemma OtherRingKept(h: seq<UInt>, h': seq<UInt>, l: Layout, g: nat, bp: Addr, g': nat)
    requires Represents(h, l) && g < 3 && IsFree(l.bs, bp, g) && g' < 3 && g' != g
    requires OnlyLinks(h, h', [Header(g)] + l.rings[g] + [bp])
    ensures Ring(h', Header(g'), l.rings[g'])
  {
    var nodes := [Header(g)] + l.rings[g] + [bp];
    forall y | y in [Header(g')] + l.rings[g'] ensures y + 1 < |h| && h'[y] == h[y] && h'[y + 1] == h[y + 1] {
      var q := NodeIsInterior(l.bs, l.last, |h|, l.rings, l.skip, g', y);
      InteriorIsPrivate(l.bs, l.last, |h|, q, y + 1);
      forall x | x in nodes ensures NoOverlap(x, y) {
        NodesOfOtherRings(h, l, g, bp, x, g', y);
      }
      hide Represents;
      assert y !in nodes && y - 1 !in nodes && y + 1 !in nodes;
    }
    RingFrame(h, h', Header(g'), l.rings[g']);
  }
}
