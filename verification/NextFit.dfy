/** The next-fit allocator: the search for a free block goes on where the last one ended. */
module NextFit {
  import opened Arithmetic
  import opened Rings
  import opened Layouts
  import opened Implicit

  const CHUNK_WORDS: nat := 1024

  predicate Fits(b: Blk, asize: nat) { !b.alloc && b.size >= asize }

  predicate SomeFits(row: Row, asize: nat) {
    exists i :: 0 <= i < |row| && Fits(row[i], asize)
  }

  /** Block k is the first that fits, going round from block at. */
  predicate FirstFrom(row: Row, at: nat, asize: nat, k: nat) {
    && at < |row| && k < |row| && Fits(row[k], asize)
    && forall i :: 0 <= i < |row| && (if at <= k then at <= i < k else at <= i || i < k) ==> !Fits(row[i], asize)
  }

  /** What becomes of a free block when asize words of it are allocated. */
  function Parts(size: nat, asize: nat): Row
    requires asize <= size
  {
    if size > asize then [Blk(asize, true), Blk(size - asize, false)] else [Blk(size, true)]
  }

  function Placed(row: Row, k: nat, asize: nat): Row
    requires k < |row| && asize <= row[k].size
  {
    Splice(row, k, k + 1, Parts(row[k].size, asize))
  }

  /** The number of block i after block k has been split. */
  function NumberAfterSplit(row: Row, k: nat, asize: nat, i: nat): nat
    requires k < |row|
  {
    if i > k && row[k].size > asize then i + 1 else i
  }

  lemma PlacedParts(row: Row, k: nat, asize: nat, i: nat)
    requires 1 <= k < |row| && asize <= row[k].size && i < |row|
    ensures var row' := Placed(row, k, asize);
      && |Parts(row[k].size, asize)| >= 1 && |row'| == |row| + |Parts(row[k].size, asize)| - 1
      && Sum(Parts(row[k].size, asize)) == Sum(row[k..k + 1]) == row[k].size
      && row'[k].alloc && row'[k].size == (if row[k].size > asize then asize else row[k].size)
      && NumberAfterSplit(row, k, asize, i) < |row'| && Start(row', NumberAfterSplit(row, k, asize, i)) == Start(row, i)
  {
    var blocks := Parts(row[k].size, asize);
    assert row[k..k + 1] == [row[k]];
    OneSum(row[k].size, row[k].alloc);
    OneSum(row[k].size, true);
    TwoSum(Blk(asize, true), Blk(row[k].size - asize, false));
    assert blocks[..|blocks|] == blocks;
    hide Sum, Start;
    SpliceStart(row, k, k + 1, blocks, if i <= k then i else i + |blocks| - 1);
    StartSpan(row, k, k + 1);
  }

  lemma PlacedNotAdjacent(row: Row, k: nat, asize: nat)
    requires 1 <= k < |row| && asize <= row[k].size && !row[k].alloc && NoTwoFree(row)
    ensures NoTwoFree(Placed(row, k, asize))
  {
    var row', n := Placed(row, k, asize), |Parts(row[k].size, asize)|;
    forall i | 0 <= i < |row'| - 1 ensures row'[i].alloc || row'[i + 1].alloc {
      if i + 1 < k {
        assert row'[i] == row[i] && row'[i + 1] == row[i + 1];
      } else if i >= k + n {
        assert row'[i] == row[i - n + 1] && row'[i + 1] == row[i - n + 2];
      } else if i == k + n - 1 {
        assert row'[i + 1] == row[k + 1] && (row[k].alloc || row[k + 1].alloc);
      }
    }
  }

  lemma NothingChanged(h: seq<UInt>, lo: int, hi: int)
    ensures OnlyWithin(h, h, lo, hi)
  {}

  class Allocator {
    const mem: array<UInt>
    var brk: Addr
    var just: Addr
    var end: Addr
    ghost var row: Row
    ghost var at: nat

    ghost function Heap(): seq<UInt>
      reads this, mem
      requires brk <= mem.Length
    {
      mem[..brk]
    }

    /** The words represent the row, and just is the start of block at. */
    ghost predicate Consistent()
      reads this, mem
    {
      brk <= mem.Length < LIMIT && Holds(Heap(), row) && at < |row| && just == Start(row, at)
    }

    ghost predicate Valid()
      reads this, mem
    {
      Consistent() && NoTwoFree(row)
    }

    method Put(p: Addr, v: UInt)
      requires p < brk <= mem.Length
      modifies mem
      ensures Heap() == old(Heap())[p := v]
    {
      mem[p] := v;
    }

    method WriteTags(p: Addr, size: nat, alloc: bool)
      requires 1 <= p && 2 <= size && p + size <= brk <= mem.Length < LIMIT && size % 2 == 0
      modifies mem
      ensures HasTags(Heap(), p, Blk(size, alloc)) && OnlyWithin(old(Heap()), Heap(), p, p + size)
      ensures forall w :: 0 <= w < brk && w != p - 1 && w != p + size - 2 ==> Heap()[w] == old(Heap())[w]
    {
      hide Pack;
      Put(p - 1, Pack(size, alloc));
      Put(p + size - 2, Pack(size, alloc));
    }

    /** Merges the free block bp, number k, with its free neighbours; just follows if it pointed inside. */
    method Coalesce(bp: Addr, ghost k: nat) returns (merged: Addr)
      requires Consistent() && 1 <= k < |row| && !row[k].alloc && bp == Start(row, k) && TwoFreeOnlyAt(row, k)
      modifies mem, `row, `just, `at
      ensures Valid() && row == Merged(old(row), k) && at == NumberAfterMerge(old(row), k, old(at))
      ensures merged == Start(row, Lo(old(row), k)) >= 1 && 1 <= Lo(old(row), k) < |row|
      ensures just == if merged < old(just) < merged + row[Lo(old(row), k)].size then merged else old(just)
      ensures Kept(old(Heap()), old(row), Heap(), row, NULL)
    {
      hide Start, Sum, Holds, HasTags, Kept, SizeOf, AllocOf, Merged, OnlyWithin, Even, Lo, Hi, NoTwoFree;
      hide TwoFreeOnlyAt, NumberAfterMerge;
      ghost var h, row0, lo, hi := Heap(), row, Lo(row, k), Hi(row, k);
      Around(h, row, k);
      OwnTags(h, row, k);
      var prevAlloc, size := AllocOf(mem[bp - 2]), SizeOf(mem[bp - 1]);
      var next := bp + size;
      var nextAlloc := AllocOf(mem[next - 1]);
      merged := bp;
      if !nextAlloc {
        size := size + SizeOf(mem[next - 1]);
      }
      if !prevAlloc {
        size := size + SizeOf(mem[bp - 2]);
        merged := bp - SizeOf(mem[bp - 2]);
      }
      NothingChanged(h, Start(row, lo), Start(row, hi));
      if !prevAlloc || !nextAlloc {
        WriteTags(merged, size, false);
      }
      assert merged == Start(row0, lo) && merged + size == Start(row0, hi);
      MergeDone(h, Heap(), row0, k, at);
      if merged < just < merged + SizeOf(mem[merged - 1]) {
        just := merged;
      }
      at, row := NumberAfterMerge(row0, k, at), Merged(row0, k);
    }

    /** Allocates asize words at the start of the free block bp, number k; the rest stays free. */
    method Place(bp: Addr, asize: nat, ghost k: nat)
      requires Valid() && 1 <= k < |row| && bp == Start(row, k) && !row[k].alloc && 2 <= asize <= row[k].size
      requires asize % 2 == 0
      modifies mem, `row, `at
      ensures Valid() && row == Placed(old(row), k, asize) && at == NumberAfterSplit(old(row), k, asize, old(at))
      ensures Kept(old(Heap()), old(row), Heap(), row, NULL)
    {
      hide Start, Sum, Holds, HasTags, Kept, SizeOf, AllocOf, OnlyWithin, Placed, Parts;
      ghost var h, row0 := Heap(), row;
      HeaderTells(h, row, k);
      PlacedParts(row, k, asize, at);
      PlacedNotAdjacent(row, k, asize);
      var csize := SizeOf(mem[bp - 1]);
      if csize > asize {
        WriteTags(bp, asize, true);
        ghost var h1 := Heap();
        assert (bp + asize) + (csize - asize) == bp + csize;
        WriteTags(bp + asize, csize - asize, false);
        SplitHolds(h, h1, Heap(), row0, k, asize, NULL);
      } else {
        WriteTags(bp, csize, true);
        WholeHolds(h, Heap(), row0, k, asize);
      }
      at := NumberAfterSplit(row0, k, asize, at);
      row := Placed(row0, k, asize);
    }

    /** Grows the heap by a free block and merges it with the last block if that is free. Returns NULL if
        there is no room. */
    method ExtendHeap(words: nat) returns (bp: Addr)
      requires Valid() && words >= 1
      modifies this, mem
      ensures var n := words + words % 2;
        && (brk == old(brk) && bp == NULL <==> old(brk) + n > mem.Length)
        && (bp == NULL ==> Valid() && row == old(row) && Heap() == old(Heap()))
        && (bp != NULL ==>
              var grown := old(row) + [Blk(n, false)]; var k := |old(row)|;
              && Valid() && brk == old(brk) + n && row == Merged(grown, k)
              && bp == Start(row, Lo(grown, k)) && Lo(grown, k) >= 1
              && Kept(old(Heap()), old(row), Heap(), row, NULL))
      ensures end == old(end) && just == old(just) && at == old(at)
    {
      hide Start, Sum, Holds, Kept, Merged, Grown, NumberAfterMerge, NoTwoFree;
      var size := if words % 2 == 1 then words + 1 else words;
      if brk + size > mem.Length {
        return NULL;
      }
      ghost var h, row0, more := Heap(), row, mem[brk..brk + size];
      bp := brk;
      EpilogueTells(h, row);
      GrownHolds(h, row, more);
      GrownKeeps(h, row, more);
      brk := brk + size;
      assert Heap() == h + more;
      Fill(bp, size, h, more);
      row := row + [Blk(size, false)];
      OnlyNewFree(row0, Blk(size, false));
      ghost var h', row' := Heap(), row;
      OldBlockStays(row', |row0|, at);
      bp := Coalesce(bp, |row0|);
      KeptTransitive(h, row0, h', row', Heap(), row, NULL);
    }

    method Fill(bp: Addr, size: nat, ghost h: seq<UInt>, ghost more: seq<UInt>)
      requires 1 <= bp && size >= 2 && size % 2 == 0 && brk == bp + size <= mem.Length < LIMIT
      requires |h| == bp && |more| == size && Heap() == h + more
      modifies mem
      ensures Heap() == Grown(h, more)
    {
      hide Pack;
      Put(bp - 1, Pack(size, false));
      Put(bp + size - 2, Pack(size, false));
      Put(bp + size - 1, Pack(0, true));
    }

    /** Looks for a free block of at least asize words, from the recent block to the end of the heap and
        then from its start on. If there is none, end is the last block. */
    method Search(asize: nat) returns (bp: Addr, ghost k: nat)
      requires Valid() && asize > 0
      modifies `just, `end, `at
      ensures Valid()
      ensures bp == NULL <==> !SomeFits(row, asize)
      ensures bp == NULL ==> just == old(just) && at == old(at) && end == Start(row, |row| - 1)
      ensures bp != NULL ==> FirstFrom(row, old(at), asize, k) && bp == just == Start(row, k) && k == at >= 1
    {
      hide Start, Sum, Holds, SizeOf, AllocOf;
      ghost var h := Heap();
      PrologueStays(h, row);
      bp, k := just, at;
      HeaderTells(h, row, at);
      while SizeOf(mem[bp - 1]) > 0
        invariant at == old(at) && just == old(just)
        invariant at <= k <= |row| && bp == Start(row, k) && 1 <= bp <= brk
        invariant k == |row| <==> SizeOf(mem[bp - 1]) == 0
        invariant k < |row| ==> SizeOf(mem[bp - 1]) == row[k].size && AllocOf(mem[bp - 1]) == row[k].alloc
        invariant k > at ==> end == Start(row, k - 1)
        invariant forall i :: at <= i < k ==> !Fits(row[i], asize)
        decreases |row| - k
      {
        HeaderTells(h, row, k);
        if !AllocOf(mem[bp - 1]) && asize <= SizeOf(mem[bp - 1]) {
          just, at := bp, k;
          return;
        }
        end := bp;
        bp := bp + SizeOf(mem[bp - 1]);
        k := k + 1;
        if k < |row| {
          HeaderTells(h, row, k);
        } else {
          EpilogueTells(h, row);
        }
      }
      bp, k := FIRST, 0;
      FirstStart(row);
      while bp < just
        invariant at == old(at) && just == old(just) && end == Start(row, |row| - 1)
        invariant 0 <= k <= at && bp == Start(row, k)
        invariant forall i :: 0 <= i < k ==> !Fits(row[i], asize)
        decreases at - k
      {
        assert k != at;
        HeaderTells(h, row, k);
        if !AllocOf(mem[bp - 1]) && asize <= SizeOf(mem[bp - 1]) {
          just, at := bp, k;
          return;
        }
        bp := bp + SizeOf(mem[bp - 1]);
        k := k + 1;
      }
      AllEven(h, row);
      StartOrder(row, k, at);
      return NULL, 0;
    }

    /** Allocates asize words: from the first block that fits, going round from the recent one; otherwise
        from a heap grown by just what the free last block lacks, or by a chunk if the last block is
        allocated. Returns NULL if there is no room for that. */
    method NormMalloc(asize: nat) returns (bp: Addr, ghost k: nat)
      requires Valid() && 2 <= asize && asize % 2 == 0
      modifies this, mem
      ensures Valid()
      ensures bp == NULL ==>
        row == old(row) && Heap() == old(Heap()) && !SomeFits(row, asize) && brk + Lacking(row, asize) > mem.Length
      ensures bp != NULL ==> Serves(old(row), old(at), asize, k, row, at) && bp == Start(row, k) && 1 <= k < |row|
      ensures bp != NULL ==> brk == old(brk) + if SomeFits(old(row), asize) then 0 else Lacking(old(row), asize)
      ensures if SomeFits(old(row), asize) then bp != NULL && at == k && just == bp
              else at == old(at) && just == old(just)
      ensures Kept(old(Heap()), old(row), Heap(), row, NULL)
    {
      hide Start, Sum, Holds, Kept, SizeOf, AllocOf, Placed, Merged, SomeFits, NoTwoFree, Parts, Splice;
      ghost var h, row0 := Heap(), row;
      PrologueStays(h, row);
      KeptSame(h, row, NULL);
      bp, k := Search(asize);
      if bp != NULL {
        PlacedParts(row, k, asize, k);
        Place(bp, asize, k);
        return;
      }
      ghost var last := |row| - 1;
      HeaderTells(h, row, last);
      if !row[last].alloc {
        NoneFits(row, asize);
      }
      var extend := if !AllocOf(mem[end - 1]) then asize - SizeOf(mem[end - 1]) else Max(asize, CHUNK_WORDS);
      bp := ExtendHeap(extend);
      if bp == NULL {
        return;
      }
      ghost var h', row' := Heap(), row;
      GrownParts(row0, Blk(extend, false));
      k := if row0[last].alloc then |row0| else last;
      if !row0[last].alloc {
        ExactlyPlaced(row0[..last], asize);
      }
      PlacedParts(row', k, asize, k);
      Place(bp, asize, k);
      KeptTransitive(h, row0, h', row', Heap(), row, NULL);
    }

    /** Allocates a block with room for size bytes. */
    method MmMalloc(size: nat) returns (bp: Addr, ghost k: nat)
      requires Valid()
      modifies this, mem
      ensures Valid() && Kept(old(Heap()), old(row), Heap(), row, NULL)
      ensures bp == NULL ==> row == old(row) && Heap() == old(Heap())
      ensures if size > 0 && SomeFits(old(row), BlockWords(size)) then bp != NULL && at == k && just == bp
              else at == old(at) && just == old(just)
      ensures bp == NULL ==>
        size == 0 || (!SomeFits(row, BlockWords(size)) && brk + Lacking(row, BlockWords(size)) > mem.Length)
      ensures bp != NULL ==>
        && Serves(old(row), old(at), BlockWords(size), k, row, at) && 1 <= k < |row| && bp == Start(row, k)
        && row[k].alloc && Payload(row[k].size) >= size
    {
      hide Start, Sum, Holds, Kept, Placed, SomeFits, NoTwoFree, Splice;
      if size == 0 {
        KeptSame(Heap(), row, NULL);
        return NULL, 0;
      }
      ghost var row0 := row;
      PrologueStays(Heap(), row);
      bp, k := NormMalloc(BlockWords(size));
      if bp != NULL {
        ObtainedSize(row0, old(at), BlockWords(size), k, row);
      }
    }

    /** Frees block bp, number k, and merges it with its free neighbours. */
    method MmFree(bp: Addr, ghost k: nat)
      requires Valid() && (bp != NULL ==> 1 <= k < |row| && bp == Start(row, k) && row[k].alloc)
      modifies mem, `row, `just, `at
      ensures Valid()
      ensures bp == NULL ==> row == old(row) && Heap() == old(Heap()) && at == old(at) && just == old(just)
      ensures bp != NULL ==>
        var freed := old(row)[k := Blk(old(row[k].size), false)];
        row == Merged(freed, k) && at == NumberAfterMerge(freed, k, old(at))
      ensures Kept(old(Heap()), old(row), Heap(), row, bp)
    {
      hide Start, Sum, Holds, HasTags, Kept, SizeOf, AllocOf, OnlyWithin, Merged;
      ghost var h, row0 := Heap(), row;
      KeptSame(h, row, bp);
      if bp == NULL {
        return;
      }
      HeaderTells(h, row, k);
      var size := SizeOf(mem[bp - 1]);
      WriteTags(bp, size, false);
      ghost var h' := Heap();
      FreedHolds(h, h', row, k, at);
      row := row[k := Blk(size, false)];
      var merged := Coalesce(bp, k);
      KeptFrom(h', row0[k := Blk(size, false)], Heap(), row, bp);
      KeptTransitive(h, row0, h', row0[k := Blk(size, false)], Heap(), row, bp);
    }

    /** Reallocation to a smaller size: the block stays and the rest becomes free. */
    method Shrink(bp: Addr, asize: nat, ghost k: nat)
      requires Valid() && 1 <= k < |row| && bp == Start(row, k) && row[k].alloc && 2 <= asize < row[k].size
      requires asize % 2 == 0
      modifies mem, `row, `just, `at
      ensures Valid() && |Placed(old(row), k, asize)| > k + 1 && row == Merged(Placed(old(row), k, asize), k + 1)
      ensures at == NumberAfterMerge(Placed(old(row), k, asize), k + 1, NumberAfterSplit(old(row), k, asize, old(at)))
      ensures row[k] == Blk(asize, true) && Start(row, k) == bp
      ensures Kept(old(Heap()), old(row), Heap(), row, bp) && SameWords(old(Heap()), Heap(), bp, bp + asize - 2)
    {
      hide Start, Sum, Holds, HasTags, Kept, SizeOf, AllocOf, OnlyWithin, Merged, SameWords, Allocated;
      ghost var h, row0 := Heap(), row;
      HeaderTells(h, row, k);
      var oldsize := SizeOf(mem[bp - 1]);
      WriteTags(bp, asize, true);
      ghost var h1 := Heap();
      assert (bp + asize) + (oldsize - asize) == bp + oldsize;
      WriteTags(bp + asize, oldsize - asize, false);
      ghost var h2 := Heap();
      SplitHolds(h, h1, h2, row0, k, asize, bp);
      PlacedParts(row0, k, asize, at);
      PlacedParts(row0, k, asize, k);
      ShrunkParts(row0, k, asize);
      at := NumberAfterSplit(row0, k, asize, at);
      row := Placed(row0, k, asize);
      ghost var row2 := row;
      assert SameWords(h, h2, bp, bp + asize - 2) by { SameBelow(h, h1, h2, bp, asize, oldsize); }
      LiveAt(row2, k, bp, asize);
      var merged := Coalesce(bp + asize, k + 1);
      MergedParts(row2, k + 1);
      KeptBlockAt(h2, row2, Heap(), row, bp, asize);
      SameWordsTransitive(h, h2, Heap(), bp, bp + asize - 2);
      KeptFrom(h2, row2, Heap(), row, bp);
      KeptTransitive(h, row0, h2, row2, Heap(), row, bp);
    }

    /** A prologue, an epilogue and one free chunk; false if there is no room. */
    method MmInit() returns (ok: bool)
      requires brk == 0 && mem.Length < LIMIT
      modifies this, mem
      ensures ok <==> 4 + CHUNK_WORDS <= mem.Length
      ensures ok ==>
        Valid() && row == [Blk(2, true), Blk(CHUNK_WORDS, false)] && brk == 4 + CHUNK_WORDS && just == FIRST
    {
      hide Pack, Start, Sum, Holds, Kept, Merged;
      if 4 > mem.Length {
        return false;
      }
      brk := 4;
      Put(0, 0);
      Put(1, Pack(2, true));
      Put(2, Pack(2, true));
      Put(3, Pack(0, true));
      just, at, row := FIRST, 0, [Blk(2, true)];
      FreshHolds(Heap());
      var bp := ExtendHeap(CHUNK_WORDS);
      if bp == NULL {
        return false;
      }
      GrownParts([Blk(2, true)], Blk(CHUNK_WORDS, false));
      FirstStart(row);
      return true;
    }
  }

  /** The words by which the heap must grow for a request that fits nowhere. */
  function Lacking(row: Row, asize: nat): nat
    requires row != []
  {
    var last := row[|row| - 1];
    if last.alloc then Max(asize, CHUNK_WORDS) else if last.size < asize then asize - last.size else 0
  }

  /** Block k of row' serves the request. */
  predicate Obtained(row: Row, at: nat, asize: nat, k: nat, row': Row) {
    && row != []
    && if SomeFits(row, asize) then FirstFrom(row, at, asize, k) && row' == Placed(row, k, asize)
       else if row[|row| - 1].alloc then
         var grown := row + [Blk(Lacking(row, asize), false)];
         k == |row| && Lacking(row, asize) >= asize && row' == Placed(grown, k, asize)
       else
         k == |row| - 1 && row' == row[..k] + [Blk(asize, true)]
  }

  /** What serving a request for asize words from block k does to the row and to the roving pointer: it goes
      to the block found, and stays where it is if the heap had to grow. */
  predicate Serves(row: Row, at: nat, asize: nat, k: nat, row': Row, at': nat) {
    Obtained(row, at, asize, k, row') && at' == if SomeFits(row, asize) then k else at
  }

  /** Next fit: a request that fits is served by the first fit going round from the block that the request
      before it got. What lies before that block is used only if nothing behind it fits. */
  lemma NextFitGoesOn(row0: Row, at0: nat, n1: nat, j: nat, row1: Row, at1: nat, n2: nat, k: nat, row2: Row, at2: nat)
    requires Serves(row0, at0, n1, j, row1, at1) && SomeFits(row0, n1)
    requires Serves(row1, at1, n2, k, row2, at2) && SomeFits(row1, n2)
    ensures at1 == j && k != j && at2 == k
    ensures k > j ==> forall i :: j <= i < k ==> !Fits(row1[i], n2)
    ensures k < j ==> forall i :: 0 <= i < k || j <= i < |row1| ==> !Fits(row1[i], n2)
  {
    assert row1[j].alloc;
  }

  /** So a freed block is passed by: after malloc(8) twice and free of the first block, the third malloc(8)
      gets the block at byte 48, although the one at byte 16 fits. */
  lemma FreedIsPassedBy(r1: Row, k1: nat, a1: nat, r2: Row, k2: nat, a2: nat, r4: Row, k4: nat, a4: nat)
    requires Serves([Blk(2, true), Blk(1024, false)], 0, BlockWords(8), k1, r1, a1)
    requires Serves(r1, a1, BlockWords(8), k2, r2, a2) && 1 <= k1 < |r2|
    requires var freed := r2[k1 := Blk(r2[k1].size, false)];
      Serves(Merged(freed, k1), NumberAfterMerge(freed, k1, a2), BlockWords(8), k4, r4, a4)
    ensures var freed := r2[k1 := Blk(r2[k1].size, false)];
      && Fits(Merged(freed, k1)[1], BlockWords(8)) && 4 * Start(Merged(freed, k1), 1) == 16
      && k4 < |r4| && 4 * Start(r4, k4) == 48
  {
    var r0 := [Blk(2, true), Blk(1024, false)];
    assert Fits(r0[1], 4) && k1 == 1;
    assert r1 == [Blk(2, true), Blk(4, true), Blk(1020, false)];
    assert Fits(r1[2], 4) && k2 == 2;
    assert r2 == [Blk(2, true), Blk(4, true), Blk(4, true), Blk(1016, false)];
    var freed := r2[1 := Blk(4, false)];
    assert freed == [Blk(2, true), Blk(4, false), Blk(4, true), Blk(1016, false)];
    assert freed[1..2] == [Blk(4, false)];
    OneSum(4, false);
    assert Merged(freed, 1) == freed && Fits(freed[3], 4) && k4 == 3;
    StartNext(r4, 0);
    StartNext(r4, 1);
    StartNext(r4, 2);
    StartNext(freed, 0);
  }

  lemma FirstStart(row: Row)
    ensures Start(row, 0) == FIRST
  {}

  /** A heap without a fit grows by the bytes that a free last block lacks, and otherwise by the request or
      4096 bytes, whichever is more. */
  lemma LackingBytes(row: Row, asize: nat)
    requires row != [] && !SomeFits(row, asize)
    ensures var last, bytes := row[|row| - 1], 4 * Lacking(row, asize);
      if last.alloc then bytes >= 4 * asize && bytes >= 4096 && (bytes == 4 * asize || bytes == 4096)
      else bytes > 0 && 4 * last.size + bytes == 4 * asize
  {
    if !row[|row| - 1].alloc {
      NoneFits(row, asize);
    }
  }

  lemma NoneFits(row: Row, asize: nat)
    requires row != [] && !SomeFits(row, asize) && !row[|row| - 1].alloc
    ensures row[|row| - 1].size < asize
  {
    assert !Fits(row[|row| - 1], asize);
  }

  /** A new free block at the end: it stays alone or makes one block with a free last block. */
  lemma GrownParts(row: Row, b: Blk)
    requires row != [] && !b.alloc
    ensures var last, grown := row[|row| - 1], row + [b];
      && Lo(grown, |row|) == (if last.alloc then |row| else |row| - 1)
      && Merged(grown, |row|) == if last.alloc then grown else row[..|row| - 1] + [Blk(last.size + b.size, false)]
  {
    var last, grown := row[|row| - 1], row + [b];
    var lo := Lo(grown, |row|);
    OneSum(b.size, false);
    TwoSum(last, b);
    assert grown[lo..|row| + 1] == if last.alloc then [b] else [last, b];
  }

  lemma ExactlyPlaced(front: Row, asize: nat)
    ensures Placed(front + [Blk(asize, false)], |front|, asize) == front + [Blk(asize, true)]
  {}

  lemma ObtainedSize(row: Row, at: nat, asize: nat, k: nat, row': Row)
    requires Obtained(row, at, asize, k, row') && row[0].alloc
    ensures k < |row'| && row'[k].alloc && row'[k].size >= asize
  {}

  lemma FreedHolds(h: seq<UInt>, h': seq<UInt>, row: Row, k: nat, i: nat)
    requires Holds(h, row) && 1 <= k < |row| && NoTwoFree(row) && i <= |row| && Start(row, k) < LIMIT
    requires OnlyWithin(h, h', Start(row, k), Start(row, k) + row[k].size)
    requires HasTags(h', Start(row, k), Blk(row[k].size, false))
    ensures var row' := row[k := Blk(row[k].size, false)];
      && Holds(h', row') && TwoFreeOnlyAt(row', k) && Start(row', k) == Start(row, k) && Start(row', i) == Start(row, i)
      && Kept(h, row, h', row', Start(row, k))
  {
    hide Sum, Start, Holds, HasTags, Kept, OnlyWithin;
    var b := Blk(row[k].size, false);
    assert Splice(row, k, k + 1, [b]) == row[k := b];
    assert row[k..k + 1] == [row[k]];
    OneSum(row[k].size, row[k].alloc);
    OneSum(b.size, false);
    StartNext(row, k);
    SpliceOne(h, h', row, k, k + 1, b, Start(row, k));
    SpliceStart(row, k, k + 1, [b], k);
    SpliceStart(row, k, k + 1, [b], i);
    assert i == k + 1 ==> [b][..i - k] == [b];
  }

  lemma KeptFrom(h: seq<UInt>, row: Row, h': seq<UInt>, row': Row, x: Addr)
    requires Kept(h, row, h', row', NULL) && Holds(h, row)
    ensures Kept(h, row, h', row', x)
  {
    hide Start, HasTags;
    forall p: Addr, size: nat | Allocated(row, p, size) ensures p != NULL {
      var k :| 1 <= k < |row| && Start(row, k) == p && row[k] == Blk(size, true);
      TagsInside(h, row, k);
    }
  }

  lemma LiveAt(row: Row, k: nat, p: Addr, size: nat)
    requires 1 <= k < |row| && Start(row, k) == p && row[k] == Blk(size, true)
    ensures Allocated(row, p, size)
  {}

  lemma KeptBlockAt(h: seq<UInt>, row: Row, h': seq<UInt>, row': Row, p: Addr, size: nat)
    requires Kept(h, row, h', row', NULL) && Allocated(row, p, size) && p != NULL
    ensures SameWords(h, h', p, p + size - 2)
  {}

  /** Writing the tags of the two parts leaves the payload of the first alone. */
  lemma SameBelow(h: seq<UInt>, h1: seq<UInt>, h2: seq<UInt>, p: Addr, asize: nat, whole: nat)
    requires |h| == |h1| == |h2| && 1 <= p && p + whole <= |h| && 2 <= asize < whole
    requires forall w :: 0 <= w < |h| && w != p - 1 && w != p + asize - 2 ==> h1[w] == h[w]
    requires forall w :: 0 <= w < |h| && w != p + asize - 1 && w != p + whole - 2 ==> h2[w] == h1[w]
    ensures SameWords(h, h2, p, p + asize - 2)
  {}

  lemma ShrunkParts(row: Row, k: nat, asize: nat)
    requires 1 <= k < |row| && 0 < asize < row[k].size && row[k].alloc && NoTwoFree(row)
    ensures var row' := Placed(row, k, asize);
      && |row'| == |row| + 1 && row'[k] == Blk(asize, true) && row'[k + 1] == Blk(row[k].size - asize, false)
      && TwoFreeOnlyAt(row', k + 1) && Start(row', k + 1) == Start(row', k) + asize
  {
    var row' := Placed(row, k, asize);
    forall i | 0 <= i < |row'| - 1 && i != k + 1 && i + 1 != k + 1 ensures row'[i].alloc || row'[i + 1].alloc {
      if i + 1 <= k {
        assert row'[i] == row[i];
      } else {
        assert row'[i] == row[i - 1] && row'[i + 1] == row[i];
      }
    }
    hide Start, Placed, TwoFreeOnlyAt;
    StartNext(row', k);
  }

  lemma FreshHolds(h: seq<UInt>)
    requires |h| == 4 && h[1] == h[2] == Pack(2, true) && h[3] == Pack(0, true)
    ensures Holds(h, [Blk(2, true)]) && Start([Blk(2, true)], 0) == FIRST
  {
    OneSum(2, true);
    FirstStart([Blk(2, true)]);
  }

  /** Merging the last block leaves the numbers and the starts of those before as they are. */
  lemma OldBlockStays(row: Row, k: nat, i: nat)
    requires 1 <= k == |row| - 1 && i < k && !row[k].alloc
    ensures NumberAfterMerge(row, k, i) == i
    ensures Start(row, i) <= Start(row, Lo(row, k)) == Start(Merged(row, k), Lo(row, k))
  {
    StartOrder(row, i, Lo(row, k));
    MergedParts(row, k);
  }

  lemma OnlyNewFree(row: Row, b: Blk)
    requires NoTwoFree(row)
    ensures TwoFreeOnlyAt(row + [b], |row|)
  {
    var row' := row + [b];
    forall i | 0 <= i < |row'| - 1 && i != |row| && i + 1 != |row| ensures row'[i].alloc || row'[i + 1].alloc {
      assert row'[i] == row[i] && row'[i + 1] == row[i + 1];
    }
  }

  /** The tags of an allocated block of asize words and of a free block of the rest. */
  lemma SplitHolds(h: seq<UInt>, h1: seq<UInt>, h2: seq<UInt>, row: Row, k: nat, asize: nat, x: Addr)
    requires Holds(h, row) && 1 <= k < |row| && asize < row[k].size && (!row[k].alloc || Start(row, k) == x)
    requires var p, whole := Start(row, k), row[k].size;
      && OnlyWithin(h, h1, p, p + asize) && HasTags(h1, p, Blk(asize, true))
      && OnlyWithin(h1, h2, p + asize, p + whole) && HasTags(h2, p + asize, Blk(whole - asize, false))
    ensures Holds(h2, Placed(row, k, asize)) && Kept(h, row, h2, Placed(row, k, asize), x)
  {
    hide Start, Sum, Holds, Kept, Splice, HasTags, OnlyWithin;
    FirstTags(h1, h2, Start(row, k), asize, Start(row, k) + row[k].size);
    BothWithin(h, h1, h2, Start(row, k), asize, row[k].size);
    SpliceTwo(h, h2, row, k, Blk(asize, true), Blk(row[k].size - asize, false), x);
  }

  lemma FirstTags(h1: seq<UInt>, h2: seq<UInt>, p: nat, asize: nat, e: nat)
    requires HasTags(h1, p, Blk(asize, true)) && OnlyWithin(h1, h2, p + asize, e)
    ensures HasTags(h2, p, Blk(asize, true))
  {}

  lemma BothWithin(h: seq<UInt>, h1: seq<UInt>, h2: seq<UInt>, p: nat, asize: nat, whole: nat)
    requires OnlyWithin(h, h1, p, p + asize) && OnlyWithin(h1, h2, p + asize, p + whole) && asize <= whole
    ensures OnlyWithin(h, h2, p, p + whole)
  {}

  lemma WholeHolds(h: seq<UInt>, h': seq<UInt>, row: Row, k: nat, asize: nat)
    requires Holds(h, row) && 1 <= k < |row| && asize == row[k].size && !row[k].alloc
    requires var p := Start(row, k); OnlyWithin(h, h', p, p + asize) && HasTags(h', p, Blk(asize, true))
    ensures Holds(h', Placed(row, k, asize)) && Kept(h, row, h', Placed(row, k, asize), NULL)
  {
    PlacedParts(row, k, asize, k);
    StartNext(row, k);
    hide Start, Sum, HasTags, Holds, Kept, OnlyWithin;
    SpliceOne(h, h', row, k, k + 1, Blk(asize, true), NULL);
  }
}
