/** The segregated-fit allocator with its metadata in the heap. Addresses and block sizes are counted in
    words of 4 bytes, request sizes in bytes. */
module Mm7 {
  import opened Arithmetic
  import opened Rings
  import opened Layouts
  import opened HeapOps
  import opened HeapFacts

  /** The least growth of the heap on behalf of a group. */
  function Chunk(g: nat): nat {
    if g == 0 then G1_MAX else if g == 1 then G2_MAX else CHUNK
  }

  /** The words by which a request may grow the heap. */
  function Growth(asize: nat): nat {
    Max(asize, Chunk(Group(asize)))
  }

  /** Blocks up to 48 bytes are in the first group, up to 432 bytes in the second, and all others in the
      third. */
  lemma GroupBytes(size: nat)
    ensures Group(size) == 0 <==> 4 * size <= 48
    ensures Group(size) == 1 <==> 48 < 4 * size <= 432
    ensures Group(size) == 2 <==> 432 < 4 * size
  {}

  /** The heap grows by the request, but by no less than 48 bytes for the first group and 432 for the
      others. */
  lemma GrowthBytes(asize: nat)
    ensures var bytes, least := 4 * Growth(asize), if 4 * asize <= 48 then 48 else 432;
      bytes >= 4 * asize && bytes >= least && (bytes == 4 * asize || bytes == least)
  {}

  /** Some block on the ring of group g has at least asize words. */
  ghost predicate Fits(l: Layout, g: nat, asize: nat) {
    exists x :: x in l.bs && IsFree(l.bs, x, g) && l.bs[x].size >= asize
  }

  /** Block bp can be made asize words long where it is: by shrinking, by growing the heap behind it, or by
      taking over the free block behind it. */
  predicate CanStay(bs: Blocks, bp: Addr, end: Addr, asize: nat)
    requires bp in bs
  {
    var next := bp + bs[bp].size;
    || asize <= bs[bp].size
    || next == end
    || (next < end && next in bs && !bs[next].alloc && bs[bp].size + bs[next].size >= asize)
  }

  /** A request for asize words can be met: from the ring of its group, or by growing the heap. */
  ghost predicate HasRoom(l: Layout, asize: nat, brk: Addr, capacity: nat) {
    Fits(l, Group(asize), asize) || brk + Growth(asize) <= capacity
  }

  /** Block bp can be given asize words: it has them, or they are there behind it, or it can move. The heap
      grows for a last block, and for one that has to move and fits nowhere. */
  ghost predicate HasRoomAt(l: Layout, bp: Addr, asize: nat, brk: Addr, capacity: nat) {
    if bp in l.bs && bp != NULL then
      if asize <= l.bs[bp].size then true
      else if bp + l.bs[bp].size == brk then brk + (asize - l.bs[bp].size) <= capacity
      else CanStay(l.bs, bp, brk, asize) || HasRoom(l, asize, brk, capacity)
    else
      HasRoom(l, asize, brk, capacity)
  }

  /** Block bp is the first on the ring of group g with at least asize words. */
  ghost predicate FirstFit(l: Layout, g: nat, asize: nat, bp: Addr) {
    && bp in l.bs && l.bs[bp].size >= asize && g < |l.rings|
    && exists k :: 0 <= k < |l.rings[g]| && l.rings[g][k] == bp
         && forall j :: 0 <= j < k ==> l.rings[g][j] in l.bs && l.bs[l.rings[g][j]].size < asize
  }

  lemma IsFirstFit(l: Layout, g: nat, asize: nat, k: nat)
    requires g < |l.rings| && k < |l.rings[g]| && l.rings[g][k] in l.bs && l.bs[l.rings[g][k]].size >= asize
    requires forall j :: 0 <= j < k ==> l.rings[g][j] in l.bs && l.bs[l.rings[g][j]].size < asize
    ensures FirstFit(l, g, asize, l.rings[g][k])
  {}

  class Allocator {
    const mem: array<UInt>
    var brk: Addr
    ghost var lay: Layout

    /** The heap proper, up to the break. */
    ghost function Heap(): seq<UInt>
      reads this, mem
      requires brk <= mem.Length
    {
      mem[..brk]
    }

    ghost predicate Consistent()
      reads this, mem
    {
      brk <= mem.Length < LIMIT && Represents(Heap(), lay)
    }

    ghost predicate Valid()
      reads this, mem
    {
      Consistent() && lay.skip == {}
    }

    /** Storage for the heap, which is empty at first. */
    constructor (capacity: nat)
      requires capacity < LIMIT
      ensures brk == 0 && mem.Length == capacity && fresh(mem)
    {
      mem := new UInt[capacity];
      brk := 0;
      lay := Fresh();
    }

    /** Sets up prologue, epilogue and empty rings, and one free block of the least group; or fails for
        want of memory. */
    method MmInit() returns (ok: bool)
      requires brk == 0 && mem.Length < LIMIT && (mem.Length < 10 || 10 + G1_MAX <= mem.Length)
      modifies this, mem
      ensures ok <==> mem.Length >= 10
      ensures !ok ==> brk == 0
      ensures ok ==> Valid() && brk == 10 + G1_MAX && Fits(lay, 0, G1_MAX) && forall p: Addr :: !Live(lay.bs, p)
    {
      if 10 > mem.Length {
        return false;
      }
      brk := 10;
      Put(0, 0);
      Put(1, Pack(PROLOGUE_SIZE, true));
      Put(8, Pack(PROLOGUE_SIZE, true));
      Put(9, Pack(0, true));
      Put(Header(0), Ptr(Header(0)));
      Put(Header(0) + 1, Ptr(Header(0)));
      Put(Header(1), Ptr(Header(1)));
      Put(Header(1) + 1, Ptr(Header(1)));
      Put(Header(2), Ptr(Header(2)));
      Put(Header(2) + 1, Ptr(Header(2)));
      FreshRepresents(Heap());
      lay := Fresh();
      hide Represents;
      var bp := Grow(G1_MAX);
      InsertFreeBlock(bp);
      assert IsFree(lay.bs, bp, 0) && lay.bs[bp].size >= G1_MAX;
      return true;
    }

    method Put(p: Addr, v: UInt)
      requires p < brk <= mem.Length
      modifies mem
      ensures mem[..brk] == old(mem[..brk])[p := v]
    {
      mem[p] := v;
    }

    /** Writes the header and the footer of a block of size words at p. */
    method WriteTags(p: Addr, size: nat, alloc: bool)
      requires 1 <= p && MIN_BLK <= size && p + size <= brk <= mem.Length && size % 2 == 0
      modifies mem
      ensures Heap() == old(Retagged(Heap(), p, p + size, alloc))
    {
      Put(p - 1, Pack(size, alloc));
      Put(p + size - 2, Pack(size, alloc));
    }

    method InsertFreeBlock(bp: Addr)
      requires Consistent() && bp in lay.skip
      modifies mem, `lay
      ensures Consistent()
      ensures var g := Group(old(lay).bs[bp].size);
        lay == Listing(old(lay), g, [bp] + old(lay).rings[g], old(lay).skip - {bp})
      ensures lay.bs == old(lay).bs && lay.skip == old(lay).skip - {bp}
      ensures Keeps(old(Heap()), lay.bs, Heap(), lay.bs, PROLOGUE)
    {
      assert bp in lay.bs && |lay.rings| == 3;
      hide Represents, Keeps, Inserted;
      InsertRepresents(Heap(), lay, bp);
      HeaderSize(Heap(), lay, bp);
      var bsize := SizeOf(mem[bp - 1]);
      ghost var g := Group(lay.bs[bp].size);
      var header := if bsize <= G1_MAX then Header(0) else if bsize <= G2_MAX then Header(1) else Header(2);
      LinkIn(header, bp);
      lay := Listing(lay, g, [bp] + lay.rings[g], lay.skip - {bp});
    }

    /** Inserts bp at the front of the ring of header. */
    method LinkIn(header: Addr, bp: Addr)
      requires brk <= mem.Length && header + 1 < brk && bp + 1 < brk && Right(Heap(), header) + 1 < brk
      requires bp != header && bp + 1 != header && bp != header + 1
      modifies mem
      ensures Heap() == old(Inserted(Heap(), header, bp))
    {
      Put(bp, Ptr(header));
      Put(bp + 1, mem[header + 1]);
      Put(At(mem[header + 1]), Ptr(bp));
      Put(header + 1, Ptr(bp));
    }

    method RemoveFreeBlock(bp: Addr)
      requires Consistent() && bp in lay.bs && !lay.bs[bp].alloc && bp !in lay.skip
      modifies mem, `lay
      ensures Consistent()
      ensures var g := Group(old(lay).bs[bp].size);
        bp in old(lay).rings[g] && lay == Listing(old(lay), g, Without(old(lay).rings[g], bp), old(lay).skip + {bp})
      ensures lay.bs == old(lay).bs && lay.skip == old(lay).skip + {bp}
      ensures Keeps(old(Heap()), lay.bs, Heap(), lay.bs, PROLOGUE)
    {
      RemoveRepresents(Heap(), lay, bp);
      hide Represents, Keeps;
      ghost var h := Heap();
      ghost var g := Group(lay.bs[bp].size);
      Put(At(mem[bp]) + 1, mem[bp + 1]);
      Put(At(mem[bp + 1]), mem[bp]);
      assert Heap() == Removed(h, bp);
      lay := Listing(lay, g, Without(lay.rings[g], bp), lay.skip + {bp});
    }

    /** Writes header and footer of a block of size words at p, in place of the blocks there were. */
    method PutTags(p: Addr, size: nat, alloc: bool)
      requires Consistent() && p + size <= brk && Joinable(lay, p, p + size, brk)
      modifies mem, `lay
      ensures Consistent()
      ensures lay == old(JoinedLayout(lay, p, p + size, alloc, brk))
      ensures lay.bs == old(Joined(lay.bs, p, p + size, alloc)) && p in lay.bs && lay.bs[p].alloc == alloc
      ensures lay.bs[p].size == size
      ensures (forall x :: x in old(lay).skip ==> p <= x < p + size) ==> lay.skip == if alloc then {} else {p}
      ensures 1 <= p && p + MIN_BLK <= p + size <= brk && size % 2 == 0
      ensures Heap() == old(Heap())[p - 1 := Pack(size, alloc)][p + size - 2 := Pack(size, alloc)]
      ensures Keeps(old(Heap()), old(lay).bs, Heap(), lay.bs, p)
      ensures !old(lay.bs[p].alloc) && !alloc ==> Keeps(old(Heap()), old(lay).bs, Heap(), lay.bs, PROLOGUE)
    {
      JoinRepresents(Heap(), lay, p, p + size, alloc);
      hide Represents, Joinable;
      WriteTags(p, size, alloc);
      lay := JoinedLayout(lay, p, p + size, alloc, brk);
    }

    /** Merges the free block bp, which is on no ring, with its free neighbours and puts the result on the
        ring of its size. */
    method Coalesce(bp: Addr) returns (merged: Addr)
      requires Consistent() && lay.skip == {bp} && bp in lay.bs
      modifies mem, `lay
      ensures Valid()
      ensures merged == MergeFrom(old(lay).bs, bp) && merged in old(lay).bs
      ensures merged < MergeTo(old(lay).bs, bp, brk) <= brk
      ensures lay.bs == Joined(old(lay).bs, merged, MergeTo(old(lay).bs, bp, brk), false)
      ensures Keeps(old(Heap()), old(lay).bs, Heap(), lay.bs, PROLOGUE)
    {
      hide Represents, Keeps, Joined, MergeFrom, MergeTo;
      ghost var h, bs := Heap(), lay.bs;
      SkippedIsFree(h, lay, bp);
      NeighbourTags(h, lay, bp);
      var size := SizeOf(mem[bp - 1]);
      var prev, next := bp - SizeOf(mem[bp - 2]), bp + size;
      var prevAlloc, nextAlloc := AllocOf(mem[bp - 2]), AllocOf(mem[next - 1]);
      merged := MergeNeighbours(bp, size, prev, prevAlloc, next, nextAlloc);
      ghost var h', bs' := Heap(), lay.bs;
      InsertFreeBlock(merged);
      KeepsTransitive(h, bs, h', bs', Heap(), bs', PROLOGUE);
    }

    /** The case distinction of coalesce, given what the tags around bp say. */
    method MergeNeighbours(bp: Addr, bsize: Addr, prev: Addr, prevAlloc: bool, next: Addr,
                           nextAlloc: bool) returns (merged: Addr)
      requires Consistent() && lay.skip == {bp} && bp in lay.bs && bsize == lay.bs[bp].size && next == bp + bsize
      requires prev == lay.bs[bp].prev && prev in lay.bs && prev + lay.bs[prev].size == bp && prev < bp < next
      requires prevAlloc == lay.bs[prev].alloc
      requires next == brk || next in lay.bs
      requires if next == brk then nextAlloc else next < brk && nextAlloc == lay.bs[next].alloc && next + lay.bs[next].size <= brk
      modifies mem, `lay
      ensures Consistent() && merged in lay.bs && lay.skip == {merged}
      ensures merged == MergeFrom(old(lay).bs, bp) && merged in old(lay).bs
      ensures merged < MergeTo(old(lay).bs, bp, brk) <= brk
      ensures lay.bs == Joined(old(lay).bs, merged, MergeTo(old(lay).bs, bp, brk), false)
      ensures Keeps(old(Heap()), old(lay).bs, Heap(), lay.bs, PROLOGUE)
    {
      hide Represents, Keeps, Joined, Pack, Joinable, JoinedLayout, SizeOf, AllocOf;
      ghost var h0, bs := Heap(), lay.bs;
      ghost var p, e := MergeFrom(bs, bp), MergeTo(bs, bp, brk);
      assert p == (if prevAlloc then bp else prev) && e == if nextAlloc then next else next + bs[next].size;
      hide MergeFrom, MergeTo;
      SkippedIsFree(h0, lay, bp);
      MergeRange(h0, lay, bp);
      if prevAlloc && nextAlloc {
        JoinedIdentity(h0, lay, bp);
        KeepsSame(h0, bs);
        return bp;
      }
      var size;
      merged, size := UnlinkNeighbours(bp, bsize, prev, prevAlloc, next, nextAlloc);
      ghost var h1 := Heap();
      assert merged == p && merged + size == e;
      ReadyToMerge(h1, lay, bp, next);
      PutTags(merged, size, false);
      KeepsTransitive(h0, bs, h1, bs, Heap(), lay.bs, PROLOGUE);
    }

    /** Takes the free neighbours of bp off their rings, and adds up the words they make with bp. */
    method UnlinkNeighbours(bp: Addr, bsize: Addr, prev: Addr, prevAlloc: bool, next: Addr,
                            nextAlloc: bool) returns (merged: Addr, size: nat)
      requires Consistent() && lay.skip == {bp} && bp in lay.bs && prev < bp < next
      requires prev in lay.bs && prevAlloc == lay.bs[prev].alloc
      requires !nextAlloc ==> next in lay.bs && !lay.bs[next].alloc
      modifies mem, `lay
      ensures Consistent() && lay.bs == old(lay).bs
      ensures lay.skip == {bp} + (if prevAlloc then {} else {prev}) + (if nextAlloc then {} else {next})
      ensures Keeps(old(Heap()), lay.bs, Heap(), lay.bs, PROLOGUE)
      ensures merged == if prevAlloc then bp else prev
      ensures size == bsize + (if prevAlloc then 0 else lay.bs[prev].size) + if nextAlloc then 0 else lay.bs[next].size
    {
      hide Represents, Keeps, SizeOf, AllocOf, Listing;
      ghost var h0, bs := Heap(), lay.bs;
      AllShaped(h0, lay);
      KeepsSame(h0, bs);
      merged, size := bp, bsize;
      if !prevAlloc {
        RemoveFreeBlock(prev);
        TagsKnown(Heap(), lay, prev);
        size := size + SizeOf(mem[prev - 1]);
        merged := prev;
      }
      ghost var h1 := Heap();
      if !nextAlloc {
        RemoveFreeBlock(next);
        KeepsTransitive(h0, bs, h1, bs, Heap(), bs, PROLOGUE);
        TagsKnown(Heap(), lay, next);
        size := size + SizeOf(mem[next - 1]);
      }
    }

    /** Writes the tags of an allocated block of size words at p and of a free block of the rest. */
    method PutSplitTags(p: Addr, size: nat, whole: nat)
      requires Consistent() && p in lay.bs && Splittable(lay, p, size) && whole == lay.bs[p].size
      modifies mem, `lay
      ensures Consistent()
      ensures p + whole < LIMIT && lay == SplitLayout(old(lay), p, size)
      ensures Keeps(old(Heap()), old(lay).bs, Heap(), lay.bs, p)
      ensures SameWords(old(Heap()), Heap(), p, p + size - 2)
    {
      hide Represents, Keeps, Splittable, SplitLayout, Retagged, SameWords, Pack, SplitTags;
      SplitRepresents(Heap(), lay, p, size);
      SplitSteps(Heap(), lay, p, size);
      WriteTags(p, size, true);
      assert (p + size) + (whole - size) == p + whole;
      WriteTags(p + size, whole - size, false);
      lay := SplitLayout(lay, p, size);
    }

    /** Allocates asize words at the start of the free block bp, and keeps the rest free if it is large
        enough for a block. */
    method Place(bp: Addr, asize: nat)
      requires Valid() && bp in lay.bs && !lay.bs[bp].alloc && MIN_BLK <= asize <= lay.bs[bp].size && asize % 2 == 0
      modifies mem, `lay
      ensures Valid()
      ensures bp + old(lay.bs[bp].size) <= brk
      ensures var bs, whole := old(lay).bs, old(lay.bs[bp].size);
        lay.bs == if whole - asize >= MIN_BLK then Split(bs, bp, asize) else Joined(bs, bp, bp + whole, true)
      ensures Live(lay.bs, bp) && asize <= lay.bs[bp].size < asize + MIN_BLK
      ensures Keeps(old(Heap()), old(lay).bs, Heap(), lay.bs, bp)
    {
      hide Represents, Keeps, Joined, Split, Pack, Listing, Joinable, JoinedLayout;
      ghost var h0, bs := Heap(), lay.bs;
      FreeIsNotPrologue(h0, lay, bp);
      TagsKnown(h0, lay, bp);
      SplitFront(bs, bp, asize);
      var bsize := SizeOf(mem[bp - 1]);
      hide SizeOf;
      RemoveFreeBlock(bp);
      ghost var h1 := Heap();
      KeepsAny(h0, bs, h1, bs, bp);
      if bsize - asize >= MIN_BLK {
        PutSplitTags(bp, asize, bsize);
        ghost var h2, bs' := Heap(), lay.bs;
        InsertFreeBlock(bp + asize);
        KeepsAny(h2, bs', Heap(), bs', bp);
        KeepsTransitive(h1, bs, h2, bs', Heap(), bs', bp);
      } else {
        SelfJoinable(h1, lay, bp);
        PutTags(bp, bsize, true);
      }
      KeepsTransitive(h0, bs, h1, bs, Heap(), lay.bs, bp);
    }

    /** Grows the heap by size words, which become a free block before a new epilogue; the block is not
        merged and put on no ring. Returns NULL if there is no room. */
    method ExtendHeap(size: nat) returns (bp: Addr, ghost more: seq<UInt>)
      requires 1 <= brk <= mem.Length < LIMIT && size % 2 == 0 && size >= 2
      modifies mem, `brk
      ensures brk <= mem.Length
      ensures old(brk) + size > mem.Length ==> bp == NULL && brk == old(brk) && Heap() == old(Heap())
      ensures old(brk) + size <= mem.Length ==>
        bp == old(brk) && brk == bp + size && |more| == size && Heap() == Extended(old(Heap()), more)
    {
      more := [];
      if brk + size > mem.Length {
        return NULL, more;
      }
      bp := brk;
      more := mem[brk..brk + size];
      ghost var h := Heap();
      brk := brk + size;
      assert Heap() == h + more;
      Put(bp - 1, Pack(size, false));
      Put(bp + size - 2, Pack(size, false));
      Put(bp + size - 1, Pack(0, true));
    }

    /** Grows the heap by a free block of size words. */
    method Grow(size: nat) returns (bp: Addr)
      requires Valid() && size % 2 == 0 && size >= MIN_BLK && brk + size <= mem.Length
      modifies this, mem
      ensures Consistent() && bp == old(brk) && brk == bp + size
      ensures lay == Appended(old(lay), bp, size)
      ensures Keeps(old(Heap()), old(lay).bs, Heap(), lay.bs, PROLOGUE)
    {
      HeapNotEmpty(Heap(), lay);
      hide Represents, Keeps, Extended;
      ghost var h := Heap();
      ghost var more;
      bp, more := ExtendHeap(size);
      AppendRepresents(h, lay, more);
      lay := Appended(lay, bp, size);
    }

    /** The first block on the ring of group g with at least asize words, or NULL if there is none. */
    method SearchGroup(header: Addr, asize: nat, ghost g: nat) returns (bp: Addr)
      requires Valid() && g < 3 && header == Header(g)
      ensures bp == NULL <==> !Fits(lay, g, asize)
      ensures bp != NULL ==> bp in lay.bs && IsFree(lay.bs, bp, g) && FirstFit(lay, g, asize, bp)
    {
      ghost var ring, k := lay.rings[g], 0;
      RingsComplete(Heap(), lay, g);
      hide Represents, Cycle, FirstFit;
      RingWalk(Heap(), lay, g, 0);
      bp := At(mem[header + 1]);
      while bp != header
        invariant 0 <= k <= |ring| && bp == Cycle(header, ring)[k + 1]
        invariant k == |ring| <==> bp == header
        invariant k < |ring| ==> bp == ring[k] && bp in lay.bs
        invariant forall j :: 0 <= j < k ==> ring[j] in lay.bs && lay.bs[ring[j]].size < asize
        decreases |ring| - k
      {
        TagsKnown(Heap(), lay, bp);
        if asize <= SizeOf(mem[bp - 1]) {
          IsFirstFit(lay, g, asize, k);
          return bp;
        }
        RingWalk(Heap(), lay, g, k + 1);
        bp := At(mem[bp + 1]);
        k := k + 1;
      }
      bp := NULL;
    }

    /** A free block of group g with at least asize words; if there is none, a new one. */
    method FindFitGroup(header: Addr, asize: nat, esize: nat, ghost g: nat) returns (bp: Addr)
      requires Valid() && g < 3 && header == Header(g)
      requires MIN_BLK <= asize && asize % 2 == 0 && MIN_BLK <= esize && esize % 2 == 0
      requires Fits(lay, g, asize) || brk + Max(asize, esize) <= mem.Length
      modifies this, mem
      ensures Valid() && bp in lay.bs && !lay.bs[bp].alloc && lay.bs[bp].size >= asize
      ensures Keeps(old(Heap()), old(lay).bs, Heap(), lay.bs, PROLOGUE)
      ensures if old(Fits(lay, g, asize))
              then brk == old(brk) && lay == old(lay) && Heap() == old(Heap()) && FirstFit(lay, g, asize, bp)
              else brk == old(brk) + Max(asize, esize) && bp == old(brk)
    {
      hide Represents, Keeps;
      ghost var h, bs := Heap(), lay.bs;
      bp := SearchGroup(header, asize, g);
      if bp == NULL {
        bp := Grow(Max(asize, esize));
        ghost var h', bs' := Heap(), lay.bs;
        InsertFreeBlock(bp);
        KeepsTransitive(h, bs, h', bs', Heap(), lay.bs, PROLOGUE);
      } else {
        AllShaped(h, lay);
        KeepsSame(h, bs);
      }
    }

    /** Segregated fit: only the group of the request's own size is searched. */
    method FindFit(asize: nat) returns (bp: Addr)
      requires Valid() && MIN_BLK <= asize && asize % 2 == 0 && HasRoom(lay, asize, brk, mem.Length)
      modifies this, mem
      ensures Valid() && bp in lay.bs && !lay.bs[bp].alloc && lay.bs[bp].size >= asize
      ensures Keeps(old(Heap()), old(lay).bs, Heap(), lay.bs, PROLOGUE)
      ensures var g := Group(asize);
        if old(Fits(lay, g, asize))
        then brk == old(brk) && lay == old(lay) && Heap() == old(Heap()) && FirstFit(lay, g, asize, bp)
        else brk == old(brk) + Growth(asize) && bp == old(brk)
    {
      if asize <= G1_MAX {
        bp := FindFitGroup(Header(0), asize, G1_MAX, 0);
      } else if asize <= G2_MAX {
        bp := FindFitGroup(Header(1), asize, G2_MAX, 1);
      } else {
        bp := FindFitGroup(Header(2), asize, CHUNK, 2);
      }
    }

    /** Allocates a block with room for size bytes. */
    method MmMalloc(size: nat) returns (bp: Addr)
      requires Valid() && (size > 0 ==> HasRoom(lay, BlockWords(size), brk, mem.Length))
      modifies this, mem
      ensures Valid()
      ensures size == 0 ==> bp == NULL && brk == old(brk) && lay == old(lay) && Heap() == old(Heap())
      ensures size > 0 ==>
        && Live(lay.bs, bp) && !old(Live(lay.bs, bp)) && bp != NULL && Payload(lay.bs[bp].size) >= size
        && lay.bs[bp].size < BlockWords(size) + MIN_BLK
        && Keeps(old(Heap()), old(lay).bs, Heap(), lay.bs, bp)
        && (if old(Fits(lay, Group(BlockWords(size)), BlockWords(size)))
            then brk == old(brk) && FirstFit(old(lay), Group(BlockWords(size)), BlockWords(size), bp)
            else brk == old(brk) + Growth(BlockWords(size)) && bp == old(brk))
    {
      hide Represents, Keeps, Fits, Growth;
      if size == 0 {
        return NULL;
      }
      var asize := BlockWords(size);
      ghost var h, bs := Heap(), lay.bs;
      bp := FindFit(asize);
      ghost var h', bs' := Heap(), lay.bs;
      NotLiveBefore(h, bs, h', bs', bp);
      FreeIsNotPrologue(h', lay, bp);
      TagsKnown(h', lay, bp);
      Place(bp, asize);
      KeepsAny(h, bs, h', bs', bp);
      KeepsTransitive(h, bs, h', bs', Heap(), lay.bs, bp);
    }

    /** Frees a live block and merges it with its free neighbours. */
    method MmFree(bp: Addr)
      requires Valid() && Live(lay.bs, bp)
      modifies this, mem
      ensures Valid() && !Live(lay.bs, bp) && brk == old(brk)
      ensures old(lay).bs[bp].size > 0 && lay.bs == Freed(old(lay).bs, bp, brk)
      ensures Keeps(old(Heap()), old(lay).bs, Heap(), lay.bs, bp)
    {
      hide Represents, Keeps, Joined, Joinable, JoinedLayout;
      ghost var h, bs := Heap(), lay.bs;
      TagsKnown(h, lay, bp);
      SelfJoinable(h, lay, bp);
      FreedAlone(h, lay, bp);
      var size := SizeOf(mem[bp - 1]);
      hide SizeOf, MergeFrom, MergeTo;
      PutTags(bp, size, false);
      ghost var h', bs' := Heap(), lay.bs;
      var merged := Coalesce(bp);
      NotLiveAfter(h', bs', Heap(), lay.bs, bp);
      KeepsAny(h', bs', Heap(), lay.bs, bp);
      KeepsTransitive(h, bs, h', bs', Heap(), lay.bs, bp);
    }

    /** Copies n bytes between places that do not overlap. */
    method Memcpy(dst: Addr, src: Addr, n: nat)
      requires brk <= mem.Length && dst + (n + 3) / 4 <= brk && src + (n + 3) / 4 <= brk
      requires dst + (n + 3) / 4 <= src || src + (n + 3) / 4 <= dst
      modifies mem
      ensures SameBytes(old(Heap()), src, Heap(), dst, n)
      ensures forall i :: 0 <= i < brk && Heap()[i] != old(Heap())[i] ==> dst <= i < dst + (n + 3) / 4
    {
      hide ByteOf, Blend;
      var k := 0;
      while 4 * (k + 1) <= n
        invariant 0 <= 4 * k <= n
        invariant forall j :: dst <= j < dst + k ==> mem[j] == old(mem[src + (j - dst)])
        invariant forall i :: 0 <= i < brk && !(dst <= i < dst + k) ==> mem[i] == old(mem[i])
      {
        mem[dst + k] := mem[src + k];
        k := k + 1;
      }
      if 4 * k < n {
        mem[dst + k] := Blend(mem[dst + k], mem[src + k], n - 4 * k);
      }
      forall i | 0 <= i < n ensures PayloadByte(old(Heap()), src, i) == PayloadByte(Heap(), dst, i) {
        var j := dst + i / 4;
        assert src + (j - dst) == src + i / 4;
      }
    }

    /** Cuts the live block bp of whole words down to asize words and gives back the rest. The words of
        the heap need not yet have the tags of the block; l is the layout with them. */
    method CutOff(bp: Addr, asize: nat, whole: nat, ghost l: Layout)
      requires 1 <= bp && MIN_BLK <= whole && bp + whole <= brk <= mem.Length < LIMIT && whole % 2 == 0
      requires Represents(Retagged(Heap(), bp, bp + whole, true), l) && l.skip == {}
      requires Live(l.bs, bp) && l.bs[bp].size == whole
      requires MIN_BLK <= asize && asize % 2 == 0 && asize + MIN_BLK <= whole
      modifies mem, `lay
      ensures Valid() && Live(lay.bs, bp) && lay.bs[bp].size == asize
      ensures Keeps(old(Retagged(Heap(), bp, bp + whole, true)), l.bs, Heap(), lay.bs, bp)
      ensures SameWords(old(Retagged(Heap(), bp, bp + whole, true)), Heap(), bp, bp + asize - 2)
      ensures CutDown(l.bs, bp, asize, brk, lay.bs)
    {
      hide Represents, Keeps, Split, Retagged, SameWords, Pack, MergeFrom, MergeTo, Joined;
      ghost var h := Retagged(Heap(), bp, bp + whole, true);
      SplitRepresents(h, l, bp, asize);
      SplitSteps(h, l, bp, asize);
      SplitParts(l.bs, bp, asize);
      SplitOverJoin(Heap(), bp, asize, whole, true);
      WriteTags(bp, asize, true);
      assert (bp + asize) + (whole - asize) == bp + whole;
      WriteTags(bp + asize, whole - asize, false);
      lay := SplitLayout(l, bp, asize);
      ghost var h', bs' := Heap(), lay.bs;
      assert bs'[bp + asize := bs'[bp + asize].(alloc := false)] == bs';
      var rest := Coalesce(bp + asize);
      KeptWords(h', bs', Heap(), lay.bs, bp, PROLOGUE);
      SameWordsTransitive(h, h', Heap(), bp, bp + asize - 2);
      KeepsAny(h', bs', Heap(), lay.bs, bp);
      KeepsTransitive(h, l.bs, h', bs', Heap(), lay.bs, bp);
    }

    /** Makes the last block asize words long by growing the heap. */
    method GrowLast(bp: Addr, bsize: Addr, asize: nat)
      requires Valid() && Live(lay.bs, bp) && bsize == lay.bs[bp].size && bp + bsize == brk
      requires bsize < asize && asize % 2 == 0 && bsize % 2 == 0 && brk + (asize - bsize) <= mem.Length
      modifies this, mem
      ensures Valid() && Live(lay.bs, bp) && lay.bs[bp].size == asize && brk == old(brk) + (asize - bsize)
      ensures Keeps(old(Heap()), old(lay).bs, Heap(), lay.bs, bp)
      ensures SameWords(old(Heap()), Heap(), bp, bp + bsize - 2)
    {
      hide Represents, Keeps, SameWords, Retagged, Extended, Pack;
      ghost var h := Heap();
      LastBlock(h, lay, bp);
      HeapNotEmpty(h, lay);
      HeaderSize(h, lay, bp);
      var end;
      ghost var more;
      end, more := ExtendHeap(asize - bsize);
      StretchRepresents(h, lay, more);
      WriteTags(bp, asize, true);
      assert bp + asize == |h| + |more|;
      lay := Stretched(lay, asize - bsize);
    }

    /** Makes block bp asize words long by taking over the free block behind it. */
    method GrowInto(bp: Addr, bsize: Addr, next: Addr, asize: nat)
      requires Valid() && Live(lay.bs, bp) && bsize == lay.bs[bp].size && next == bp + bsize
      requires next in lay.bs && !lay.bs[next].alloc
      requires MIN_BLK <= asize && asize % 2 == 0 && bsize < asize <= bsize + lay.bs[next].size
      modifies mem, `lay
      ensures Valid() && Live(lay.bs, bp) && asize <= lay.bs[bp].size < asize + MIN_BLK
      ensures Keeps(old(Heap()), old(lay).bs, Heap(), lay.bs, bp)
      ensures SameWords(old(Heap()), Heap(), bp, bp + bsize - 2)
    {
      hide Represents, Keeps, SameWords, Retagged, Pack, JoinedLayout, Listing, SizeOf;
      ghost var h, bs := Heap(), lay.bs;
      RemoveFreeBlock(next);
      ghost var h1 := Heap();
      MergedWithNext(h1, lay, bp, next);
      KeptWords(h, bs, h1, bs, bp, PROLOGUE);
      KeepsAny(h, bs, h1, bs, bp);
      TagsKnown(h1, lay, next);
      var whole := bsize + SizeOf(mem[next - 1]);
      ghost var l' := JoinedLayout(lay, bp, bp + whole, true, brk);
      ghost var h2 := Retagged(h1, bp, bp + whole, true);
      KeepsTransitive(h, bs, h1, bs, h2, l'.bs, bp);
      SameWordsTransitive(h, h1, h2, bp, next - 2);
      if whole - asize >= MIN_BLK {
        CutOff(bp, asize, whole, l');
        KeepsTransitive(h, bs, h2, l'.bs, Heap(), lay.bs, bp);
        SameWordsWithin(h2, Heap(), bp, bp + asize - 2, next - 2);
        SameWordsTransitive(h, h2, Heap(), bp, next - 2);
      } else {
        WriteTags(bp, whole, true);
        lay := l';
      }
    }

    /** Makes block bp shorter, if what is left over is large enough for a block. */
    method Shrink(bp: Addr, bsize: Addr, asize: nat)
      requires Valid() && Live(lay.bs, bp) && bsize == lay.bs[bp].size
      requires MIN_BLK <= asize <= bsize && asize % 2 == 0
      modifies mem, `lay
      ensures Valid() && Live(lay.bs, bp) && asize <= lay.bs[bp].size < asize + MIN_BLK && lay.bs[bp].size <= bsize
      ensures Keeps(old(Heap()), old(lay).bs, Heap(), lay.bs, bp)
      ensures SameWords(old(Heap()), Heap(), bp, bp + asize - 2)
    {
      hide Represents, Keeps, Retagged, Pack;
      ghost var h := Heap();
      RetaggedSame(h, lay, bp);
      if bsize - asize >= MIN_BLK {
        CutOff(bp, asize, bsize, lay);
      } else {
        AllShaped(h, lay);
        KeepsSame(h, lay.bs);
        KeepsAny(h, lay.bs, h, lay.bs, bp);
      }
    }

    /** Allocates another block, copies the payload there and frees block bp. */
    method Move(bp: Addr, bsize: Addr, size: nat) returns (p: Addr)
      requires Valid() && Live(lay.bs, bp) && bsize == lay.bs[bp].size && bsize < BlockWords(size)
      requires size > 0 && HasRoom(lay, BlockWords(size), brk, mem.Length)
      modifies this, mem
      ensures Valid() && Live(lay.bs, p) && p != bp && p != NULL
      ensures Payload(lay.bs[p].size) >= size && lay.bs[p].size < BlockWords(size) + MIN_BLK
      ensures KeepsOthers(old(Heap()), old(lay).bs, bp, Heap(), lay.bs, p)
      ensures SameBytes(old(Heap()), bp, Heap(), p, Min(size, Payload(bsize)))
    {
      hide Represents, Keeps, KeepsOthers, SameWords, SameBytes, Fits, Growth;
      ghost var h0, b0 := Heap(), lay.bs;
      BlockShape(h0, lay, bp);
      p := MmMalloc(size);
      ghost var h1, l1 := Heap(), lay;
      var n := Min(size, 4 * bsize);
      MovedApart(h0, b0, h1, l1, bp, p);
      Memcpy(p, bp, n);
      ghost var h2 := Heap();
      PayloadWrite(h1, h2, l1, p);
      MmFree(bp);
      MovedBytes(h0, b0, h1, l1.bs, h2, Heap(), lay.bs, bp, p, size, n);
      KeepsTransitive(h0, b0, h1, l1.bs, h2, l1.bs, p);
      KeepsMoved(h0, b0, h2, l1.bs, Heap(), lay.bs, bp, p);
    }

    /** Changes the size of a block; it moves only when there is no other way. */
    method MmRealloc(bp: Addr, size: nat) returns (p: Addr)
      requires Valid() && (bp != NULL ==> Live(lay.bs, bp))
      requires size > 0 ==> HasRoomAt(lay, bp, BlockWords(size), brk, mem.Length)
      modifies this, mem
      ensures Valid()
      ensures bp == NULL && size == 0 ==> p == NULL && lay == old(lay) && Heap() == old(Heap())
      ensures bp == NULL && size > 0 ==>
        && Live(lay.bs, p) && !old(Live(lay.bs, p)) && p != NULL
        && Payload(lay.bs[p].size) >= size && lay.bs[p].size < BlockWords(size) + MIN_BLK
        && Keeps(old(Heap()), old(lay).bs, Heap(), lay.bs, p)
      ensures bp != NULL && size == 0 ==>
        p == NULL && !Live(lay.bs, bp) && Keeps(old(Heap()), old(lay).bs, Heap(), lay.bs, bp)
      ensures bp != NULL && size > 0 ==>
        && Live(lay.bs, p) && p != NULL
        && Payload(lay.bs[p].size) >= size && lay.bs[p].size < BlockWords(size) + MIN_BLK
        && KeepsOthers(old(Heap()), old(lay).bs, bp, Heap(), lay.bs, p)
        && SameBytes(old(Heap()), bp, Heap(), p, Min(size, Payload(old(lay).bs[bp].size)))
        && (p == bp <==> CanStay(old(lay).bs, bp, old(brk), BlockWords(size)))
      ensures bp != NULL && size > 0 && p == bp ==>
        var bsize, asize := old(lay).bs[bp].size, BlockWords(size);
        brk == if asize > bsize && bp + bsize == old(brk) then old(brk) + (asize - bsize) else old(brk)
    {
      hide Represents, Keeps, KeepsOthers, SameWords, SameBytes, Fits, SizeOf, AllocOf;
      var asize := BlockWords(size);
      if bp == NULL {
        p := MmMalloc(size);
        return;
      }
      ghost var h, bs := Heap(), lay.bs;
      NeighbourTags(h, lay, bp);
      BlockShape(h, lay, bp);
      var bsize := SizeOf(mem[bp - 1]);
      var next := bp + bsize;
      if size == 0 {
        MmFree(bp);
        return NULL;
      } else if asize <= bsize {
        Shrink(bp, bsize, asize);
        SameBytesOfWords(h, Heap(), bp, asize - 2, Min(size, Payload(bsize)));
      } else if SizeOf(mem[next - 1]) == 0 {
        GrowLast(bp, bsize, asize);
        SameBytesOfWords(h, Heap(), bp, bsize - 2, Min(size, Payload(bsize)));
      } else if !AllocOf(mem[next - 1]) && bsize + SizeOf(mem[next - 1]) >= asize {
        GrowInto(bp, bsize, next, asize);
        SameBytesOfWords(h, Heap(), bp, bsize - 2, Min(size, Payload(bsize)));
      } else {
        p := Move(bp, bsize, size);
        return;
      }
      KeepsInPlace(h, bs, Heap(), lay.bs, bp);
      return bp;
    }
  }
}
