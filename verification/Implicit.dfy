/** A heap that is nothing but a row of blocks, each with a header and a footer, as the words that
    represent it. Addresses and sizes are counted in words of 4 bytes. */
module Implicit {
  import opened Rings
  import opened Layouts

  datatype Blk = Blk(size: nat, alloc: bool)

  type Row = seq<Blk>

  const FIRST: nat := 2

  function Sum(row: Row): nat {
    if row == [] then 0 else Sum(row[..|row| - 1]) + row[|row| - 1].size
  }

  /** The address of block k, or of the epilogue. */
  function Start(row: Row, k: nat): nat
    requires k <= |row|
  {
    FIRST + Sum(row[..k])
  }

  predicate Even(b: Blk) { b.size >= 2 && b.size % 2 == 0 }

  predicate HasTags(h: seq<UInt>, p: nat, b: Blk) {
    && 1 <= p && p + b.size <= |h| < LIMIT && Even(b)
    && h[p - 1] == Pack(b.size, b.alloc) && h[p + b.size - 2] == Pack(b.size, b.alloc)
  }

  /** The row starts with the prologue, every block has its tags and the epilogue follows. */
  ghost predicate Holds(h: seq<UInt>, row: Row) {
    && row != [] && row[0] == Blk(2, true)
    && |h| == FIRST + Sum(row) < LIMIT && h[|h| - 1] == Pack(0, true)
    && (forall k :: 0 <= k < |row| ==> HasTags(h, Start(row, k), row[k]))
  }

  lemma StartNext(row: Row, k: nat)
    requires k < |row|
    ensures Start(row, k + 1) == Start(row, k) + row[k].size
  {
    assert row[..k + 1][..k] == row[..k];
  }

  lemma StartEnd(row: Row)
    ensures Start(row, |row|) == FIRST + Sum(row)
  {
    assert row[..|row|] == row;
  }

  lemma {:induction false} SumConcat(r: Row, s: Row)
    ensures Sum(r + s) == Sum(r) + Sum(s)
  {
    if s == [] {
      assert r + s == r;
    } else {
      assert (r + s)[..|r + s| - 1] == r + s[..|s| - 1];
      SumConcat(r, s[..|s| - 1]);
    }
  }

  lemma {:induction false} StartOrder(row: Row, j: nat, k: nat)
    requires j <= k <= |row|
    ensures Start(row, j) <= Start(row, k)
    ensures j < k && (forall i :: 0 <= i < |row| ==> Even(row[i])) ==> Start(row, j) + row[j].size <= Start(row, k)
    decreases k - j
  {
    if j < k {
      StartOrder(row, j, k - 1);
      StartNext(row, k - 1);
    }
  }

  /** Blocks from i up to j replaced by others. */
  function Splice(row: Row, i: nat, j: nat, blocks: Row): Row
    requires i <= j <= |row|
  {
    row[..i] + blocks + row[j..]
  }

  /** Replacing blocks by others of the same total size moves nothing else. */
  lemma SpliceStart(row: Row, i: nat, j: nat, blocks: Row, k: nat)
    requires i <= j <= |row| && Sum(blocks) == Sum(row[i..j]) && k <= |Splice(row, i, j, blocks)|
    ensures Start(Splice(row, i, j, blocks), k)
         == if k <= i then Start(row, k)
            else if k <= i + |blocks| then Start(row, i) + Sum(blocks[..k - i])
            else Start(row, k - |blocks| + (j - i))
    ensures Sum(Splice(row, i, j, blocks)) == Sum(row)
  {
    hide Sum;
    var row' := Splice(row, i, j, blocks);
    SumOfThree(row[..i], blocks, row[j..]);
    SumOfThree(row[..i], row[i..j], row[j..]);
    assert row == row[..i] + row[i..j] + row[j..];
    if k <= i {
      assert row'[..k] == row[..k];
    } else if k <= i + |blocks| {
      assert row'[..k] == row[..i] + blocks[..k - i];
      SumConcat(row[..i], blocks[..k - i]);
    } else {
      var m := k - |blocks| + (j - i);
      assert row'[..k] == row[..i] + blocks + row[j..m];
      assert row[..m] == row[..i] + row[i..j] + row[j..m];
      SumOfThree(row[..i], blocks, row[j..m]);
      SumOfThree(row[..i], row[i..j], row[j..m]);
    }
  }

  lemma SumOfThree(r: Row, s: Row, t: Row)
    ensures Sum(r + s + t) == Sum(r) + Sum(s) + Sum(t)
  {
    SumConcat(r + s, t);
    SumConcat(r, s);
  }

  /** h' differs from h at most in the tags of the words from block i up to block j. */
  predicate OnlyWithin(h: seq<UInt>, h': seq<UInt>, lo: int, hi: int) {
    |h'| == |h| && forall w :: 0 <= w < |h| && !(lo - 1 <= w < hi - 1) ==> h'[w] == h[w]
  }

  lemma SpliceHolds(h: seq<UInt>, h': seq<UInt>, row: Row, i: nat, j: nat, blocks: Row)
    requires Holds(h, row) && 1 <= i <= j <= |row| && Sum(blocks) == Sum(row[i..j])
    requires OnlyWithin(h, h', Start(row, i), Start(row, j))
    requires forall t :: 0 <= t < |blocks| ==> HasTags(h', Start(row, i) + Sum(blocks[..t]), blocks[t])
    ensures Holds(h', Splice(row, i, j, blocks))
  {
    hide HasTags, Sum, Start, OnlyWithin, Splice;
    var row' := Splice(row, i, j, blocks);
    SpliceStart(row, i, j, blocks, 0);
    SpliceFirst(row, i, j, blocks);
    EpilogueStays(h, h', row, i, j);
    forall k | 0 <= k < |row'| ensures HasTags(h', Start(row', k), row'[k]) {
      SpliceTag(h, h', row, i, j, blocks, k);
    }
  }

  lemma SpliceFirst(row: Row, i: nat, j: nat, blocks: Row)
    requires 1 <= i <= j <= |row|
    ensures Splice(row, i, j, blocks) != [] && Splice(row, i, j, blocks)[0] == row[0]
  {}

  lemma EpilogueStays(h: seq<UInt>, h': seq<UInt>, row: Row, i: nat, j: nat)
    requires Holds(h, row) && i <= j <= |row| && OnlyWithin(h, h', Start(row, i), Start(row, j))
    ensures |h'| == |h| > 0 && h'[|h| - 1] == h[|h| - 1]
  {
    hide Sum;
    LastWord(row, j);
  }

  lemma SpliceTag(h: seq<UInt>, h': seq<UInt>, row: Row, i: nat, j: nat, blocks: Row, k: nat)
    requires Holds(h, row) && 1 <= i <= j <= |row| && Sum(blocks) == Sum(row[i..j]) && k < |Splice(row, i, j, blocks)|
    requires OnlyWithin(h, h', Start(row, i), Start(row, j))
    requires forall t :: 0 <= t < |blocks| ==> HasTags(h', Start(row, i) + Sum(blocks[..t]), blocks[t])
    ensures HasTags(h', Start(Splice(row, i, j, blocks), k), Splice(row, i, j, blocks)[k])
  {
    hide HasTags, Sum, Start, OnlyWithin, Holds;
    var row' := Splice(row, i, j, blocks);
    SpliceStart(row, i, j, blocks, k);
    if k < i {
      TagsStay(h, h', row, i, j, k);
    } else if k < i + |blocks| {
      assert row'[k] == blocks[k - i];
      if k == i {
        NoBlocks(blocks);
      }
    } else {
      var m := k - |blocks| + (j - i);
      TagsStay(h, h', row, i, j, m);
      assert row'[k] == row[m];
      if k == i + |blocks| {
        StartSpan(row, i, j);
        assert blocks[..k - i] == blocks;
        NoBlocks(blocks);
      }
    }
  }

  lemma NoBlocks(blocks: Row)
    ensures Sum(blocks[..0]) == 0
  {}

  lemma StartSpan(row: Row, i: nat, j: nat)
    requires i <= j <= |row|
    ensures Start(row, j) == Start(row, i) + Sum(row[i..j])
  {
    assert row[..j] == row[..i] + row[i..j];
    SumConcat(row[..i], row[i..j]);
  }

  lemma LastWord(row: Row, j: nat)
    requires j <= |row|
    ensures Start(row, j) <= FIRST + Sum(row)
  {
    StartOrder(row, j, |row|);
    StartEnd(row);
  }

  lemma AllEven(h: seq<UInt>, row: Row)
    requires Holds(h, row)
    ensures forall k :: 0 <= k < |row| ==> Even(row[k])
  {
    forall k | 0 <= k < |row| ensures Even(row[k]) {
      assert HasTags(h, Start(row, k), row[k]);
    }
  }

  lemma TagsStay(h: seq<UInt>, h': seq<UInt>, row: Row, i: nat, j: nat, m: nat)
    requires Holds(h, row) && i <= j <= |row| && m < |row| && !(i <= m < j)
    requires OnlyWithin(h, h', Start(row, i), Start(row, j))
    ensures HasTags(h', Start(row, m), row[m])
  {
    hide Pack;
    AllEven(h, row);
    assert HasTags(h, Start(row, m), row[m]);
    if m < i {
      StartOrder(row, m, i);
    } else {
      StartOrder(row, j, m);
    }
  }

  // ----- what the words around a block tell -----

  /** Block k has its size and state in the word before it. */
  lemma HeaderTells(h: seq<UInt>, row: Row, k: nat)
    requires Holds(h, row) && k < |row|
    ensures var p := Start(row, k);
      && 1 <= p && p + row[k].size <= |h| < LIMIT && Even(row[k]) && (k > 0 ==> p >= 4)
      && SizeOf(h[p - 1]) == row[k].size && (AllocOf(h[p - 1]) <==> row[k].alloc)
      && Start(row, k + 1) == p + row[k].size
  {
    hide Pack, SizeOf, AllocOf;
    assert HasTags(h, Start(row, k), row[k]);
    StartNext(row, k);
    if k > 0 {
      StartOrder(row, 0, k);
      AllEven(h, row);
    }
  }

  /** The word before the epilogue, and only that one, tells of a size of 0. */
  lemma EpilogueTells(h: seq<UInt>, row: Row)
    requires Holds(h, row)
    ensures |h| == Start(row, |row|) && SizeOf(h[|h| - 1]) == 0 && AllocOf(h[|h| - 1])
  {
    StartEnd(row);
  }

  /** The two words before a block tell about it and the block before. */
  lemma FooterTells(h: seq<UInt>, row: Row, k: nat)
    requires Holds(h, row) && 1 <= k <= |row|
    ensures var p, b := Start(row, k), row[k - 1];
      && 2 <= p <= |h| && SizeOf(h[p - 2]) == b.size && (AllocOf(h[p - 2]) <==> b.alloc)
      && Start(row, k - 1) == p - b.size
  {
    hide Pack, SizeOf, AllocOf;
    assert HasTags(h, Start(row, k - 1), row[k - 1]);
    StartNext(row, k - 1);
  }

  // ----- growing the heap -----

  /** The heap with more words, which are made one free block before a new epilogue. */
  function Grown(h: seq<UInt>, more: seq<UInt>): (h': seq<UInt>)
    requires |h| >= 1 && |more| >= 2 && |more| % 2 == 0 && |h| + |more| < LIMIT
    ensures |h'| == |h| + |more|
  {
    var n := |more|;
    (h + more)[|h| - 1 := Pack(n, false)][|h| + n - 2 := Pack(n, false)][|h| + n - 1 := Pack(0, true)]
  }

  lemma GrownHolds(h: seq<UInt>, row: Row, more: seq<UInt>)
    requires Holds(h, row) && |more| >= 2 && |more| % 2 == 0 && |h| + |more| < LIMIT
    ensures |h| >= 1 && Holds(Grown(h, more), row + [Blk(|more|, false)])
    ensures forall k :: 0 <= k <= |row| ==> Start(row + [Blk(|more|, false)], k) == Start(row, k)
    ensures forall w :: 0 <= w < |h| - 1 ==> Grown(h, more)[w] == h[w]
  {
    var row', h' := row + [Blk(|more|, false)], Grown(h, more);
    hide Pack, Sum, Start, HasTags, Grown, SizeOf, AllocOf;
    OneSum(|more|, false);
    SumConcat(row, [Blk(|more|, false)]);
    forall k | 0 <= k <= |row| ensures Start(row', k) == Start(row, k) {
      StartPrefix(row, [Blk(|more|, false)], k);
    }
    TagsInside(h, row, 0);
    GrownWords(h, more);
    forall k | 0 <= k < |row'| ensures HasTags(h', Start(row', k), row'[k]) {
      GrownTags(h, row, more, k);
    }
  }

  lemma StartPrefix(row: Row, blocks: Row, k: nat)
    requires k <= |row|
    ensures Start(row + blocks, k) == Start(row, k)
  {
    assert (row + blocks)[..k] == row[..k];
  }

  lemma GrownWords(h: seq<UInt>, more: seq<UInt>)
    requires |h| >= 1 && |more| >= 2 && |more| % 2 == 0 && |h| + |more| < LIMIT
    ensures HasTags(Grown(h, more), |h|, Blk(|more|, false)) && Grown(h, more)[|h| + |more| - 1] == Pack(0, true)
    ensures forall w :: 0 <= w < |h| - 1 ==> Grown(h, more)[w] == h[w]
  {
    hide Pack;
  }

  lemma GrownTags(h: seq<UInt>, row: Row, more: seq<UInt>, k: nat)
    requires Holds(h, row) && |more| >= 2 && |more| % 2 == 0 && |h| + |more| < LIMIT && k <= |row| && |h| >= 1
    ensures var row' := row + [Blk(|more|, false)]; HasTags(Grown(h, more), Start(row', k), row'[k])
  {
    StartEnd(row);
    hide Pack, Sum, Start, Grown;
    GrownWords(h, more);
    StartPrefix(row, [Blk(|more|, false)], k);
    assert k < |row| ==> HasTags(h, Start(row, k), row[k]);
  }

  // ----- what stays of the allocated blocks -----

  ghost predicate Allocated(row: Row, p: Addr, size: nat) {
    exists k :: 1 <= k < |row| && Start(row, k) == p && row[k] == Blk(size, true)
  }

  /** Except for x, live blocks stay live where they are, with the same payload. */
  ghost predicate Kept(h: seq<UInt>, row: Row, h': seq<UInt>, row': Row, x: Addr) {
    forall p: Addr, size: nat :: Allocated(row, p, size) && p != x ==>
      Allocated(row', p, size) && SameWords(h, h', p, p + size - 2)
  }

  lemma KeptTransitive(h0: seq<UInt>, r0: Row, h1: seq<UInt>, r1: Row, h2: seq<UInt>, r2: Row, x: Addr)
    requires Kept(h0, r0, h1, r1, x) && Kept(h1, r1, h2, r2, x)
    ensures Kept(h0, r0, h2, r2, x)
  {
    hide SameWords, Allocated;
    forall p: Addr, size: nat | Allocated(r0, p, size) && p != x ensures SameWords(h0, h2, p, p + size - 2) {
      SameWordsTransitive(h0, h1, h2, p, p + size - 2);
    }
  }

  lemma SpliceKeeps(h: seq<UInt>, h': seq<UInt>, row: Row, i: nat, j: nat, blocks: Row, x: Addr)
    requires Holds(h, row) && 1 <= i <= j <= |row| && Sum(blocks) == Sum(row[i..j])
    requires OnlyWithin(h, h', Start(row, i), Start(row, j))
    requires forall m :: i <= m < j ==> !row[m].alloc || Start(row, m) == x
    ensures Kept(h, row, h', Splice(row, i, j, blocks), x)
  {
    hide Start, HasTags;
    var row' := Splice(row, i, j, blocks);
    forall p: Addr, size: nat | Allocated(row, p, size) && p != x
      ensures Allocated(row', p, size) && SameWords(h, h', p, p + size - 2)
    {
      var k :| 1 <= k < |row| && Start(row, k) == p && row[k] == Blk(size, true);
      var k' := if k < i then k else k - (j - i) + |blocks|;
      AllEven(h, row);
      assert HasTags(h, Start(row, k), row[k]);
      SpliceStart(row, i, j, blocks, k');
      StartSpan(row, i, j);
      assert blocks[..|blocks|] == blocks;
      assert row'[k'] == row[k];
      if k < i {
        StartOrder(row, k, i);
      } else {
        StartOrder(row, j, k);
      }
      TagsInside(h, row, k);
    }
  }

  lemma TagsInside(h: seq<UInt>, row: Row, k: nat)
    requires Holds(h, row) && k < |row|
    ensures 1 <= Start(row, k) && Start(row, k) + row[k].size <= |h| && row[k].size >= 2
  {
    assert HasTags(h, Start(row, k), row[k]);
  }

  lemma GrownKeeps(h: seq<UInt>, row: Row, more: seq<UInt>)
    requires Holds(h, row) && |more| >= 2 && |more| % 2 == 0 && |h| + |more| < LIMIT && |h| >= 1
    ensures Kept(h, row, Grown(h, more), row + [Blk(|more|, false)], 0)
  {
    hide Start, HasTags, Grown;
    var row' := row + [Blk(|more|, false)];
    GrownHolds(h, row, more);
    forall p: Addr, size: nat | Allocated(row, p, size) && p != 0
      ensures Allocated(row', p, size) && SameWords(h, Grown(h, more), p, p + size - 2)
    {
      var k :| 1 <= k < |row| && Start(row, k) == p && row[k] == Blk(size, true);
      TagsInside(h, row, k);
      assert row'[k] == row[k] && Start(row', k) == p;
    }
  }

  lemma KeptSame(h: seq<UInt>, row: Row, x: Addr)
    requires Holds(h, row)
    ensures Kept(h, row, h, row, x)
  {
    hide Start;
    forall p: Addr, size: nat | Allocated(row, p, size) && p != x ensures SameWords(h, h, p, p + size - 2) {
      var k :| 1 <= k < |row| && Start(row, k) == p && row[k] == Blk(size, true);
      TagsInside(h, row, k);
    }
  }

  // ----- merging -----

  /** No two blocks in a row are free. */
  predicate NoTwoFree(row: Row) {
    forall k :: 0 <= k < |row| - 1 ==> row[k].alloc || row[k + 1].alloc
  }

  /** Two free blocks in a row are found at block k only. */
  predicate TwoFreeOnlyAt(row: Row, k: nat) {
    forall i :: 0 <= i < |row| - 1 && i != k && i + 1 != k ==> row[i].alloc || row[i + 1].alloc
  }

  function Lo(row: Row, k: nat): (lo: nat)
    requires 1 <= k < |row|
    ensures lo <= k
  {
    if row[k - 1].alloc then k else k - 1
  }

  function Hi(row: Row, k: nat): (hi: nat)
    requires k < |row|
    ensures k < hi <= |row|
  {
    if k + 1 < |row| && !row[k + 1].alloc then k + 2 else k + 1
  }

  /** The row with block k merged with its free neighbours. */
  function Merged(row: Row, k: nat): Row
    requires 1 <= k < |row|
  {
    Splice(row, Lo(row, k), Hi(row, k), [Blk(Sum(row[Lo(row, k)..Hi(row, k)]), false)])
  }

  lemma MergedParts(row: Row, k: nat)
    requires 1 <= k < |row| && !row[k].alloc
    ensures var lo, hi, row' := Lo(row, k), Hi(row, k), Merged(row, k);
      && |row'| == |row| - (hi - lo - 1)
      && row'[lo] == Blk(Sum(row[lo..hi]), false) && Start(row, hi) == Start(row, lo) + Sum(row[lo..hi])
      && (row[0].alloc ==> lo >= 1)
      && (forall i :: 0 <= i < lo ==> row'[i] == row[i])
      && (forall i :: lo < i < |row'| ==> row'[i] == row[i + hi - lo - 1])
      && (forall i :: 0 <= i <= lo ==> Start(row', i) == Start(row, i))
      && (forall i :: lo < i <= |row'| ==> Start(row', i) == Start(row, i + hi - lo - 1))
  {
    hide Sum, Start;
    var lo, hi, row' := Lo(row, k), Hi(row, k), Merged(row, k);
    var blocks := [Blk(Sum(row[lo..hi]), false)];
    StartSpan(row, lo, hi);
    OneSum(Sum(row[lo..hi]), false);
    forall i | 0 <= i <= |row'| ensures Start(row', i) == Start(row, if i <= lo then i else i + hi - lo - 1) {
      SpliceStart(row, lo, hi, blocks, i);
      assert i == lo + 1 ==> blocks[..i - lo] == blocks;
    }
  }

  lemma MergedNotAdjacent(row: Row, k: nat)
    requires 1 <= k < |row| && !row[k].alloc && TwoFreeOnlyAt(row, k)
    ensures NoTwoFree(Merged(row, k))
  {
    hide Sum, Start, Merged;
    MergedParts(row, k);
    var lo, hi, row' := Lo(row, k), Hi(row, k), Merged(row, k);
    forall i | 0 <= i < |row'| - 1 ensures row'[i].alloc || row'[i + 1].alloc {
      if i + 1 < lo {
        assert row'[i] == row[i] && row'[i + 1] == row[i + 1];
      } else if i + 1 == lo {
        assert row'[i] == row[i];
      } else if i == lo {
        assert row'[i + 1] == row[hi];
      } else {
        var m := i + hi - lo - 1;
        assert row'[i] == row[m] && row'[i + 1] == row[m + 1];
      }
    }
  }

  lemma OneSum(size: nat, alloc: bool)
    ensures Sum([Blk(size, alloc)]) == size
  {
    assert [Blk(size, alloc)][..0] == [];
  }

  lemma TwoSum(a: Blk, b: Blk)
    ensures Sum([a, b]) == a.size + b.size && Sum([a, b][..1]) == a.size && Sum([a, b][..0]) == 0
  {
    OneSum(a.size, a.alloc);
    assert [a, b][..1] == [a] && [a, b][..0] == [];
  }

  /** What the words before and behind block k tell about its neighbours, and where merging starts and ends. */
  lemma Around(h: seq<UInt>, row: Row, k: nat)
    requires Holds(h, row) && 1 <= k < |row|
    ensures var p, size, prev := Start(row, k), row[k].size, row[k - 1]; var next := p + size;
      && 4 <= p && 2 <= size && next <= |h| && SizeOf(h[p - 1]) == size
      && SizeOf(h[p - 2]) == prev.size && (AllocOf(h[p - 2]) <==> prev.alloc) && Start(row, k - 1) == p - prev.size
      && Start(row, Lo(row, k)) == (if prev.alloc then p else p - prev.size)
      && (AllocOf(h[next - 1]) <==> (k + 1 < |row| ==> row[k + 1].alloc))
      && (k + 1 < |row| ==> SizeOf(h[next - 1]) == row[k + 1].size)
      && Start(row, Hi(row, k)) == (if k + 1 < |row| && !row[k + 1].alloc then next + row[k + 1].size else next)
      && 1 <= Start(row, Lo(row, k)) && Start(row, Hi(row, k)) <= |h| && size % 2 == prev.size % 2 == 0
      && (k + 1 < |row| ==> row[k + 1].size % 2 == 0)
  {
    hide Start, Sum, SizeOf, AllocOf, Holds;
    HeaderTells(h, row, k);
    HeaderTells(h, row, k - 1);
    FooterTells(h, row, k);
    if k + 1 < |row| {
      HeaderTells(h, row, k + 1);
    } else {
      EpilogueTells(h, row);
    }
  }

  /** Once the tags of the merged block are there, the heap holds the merged row. */
  lemma MergeHolds(h: seq<UInt>, h': seq<UInt>, row: Row, k: nat)
    requires Holds(h, row) && 1 <= k < |row| && !row[k].alloc
    requires var lo, hi := Lo(row, k), Hi(row, k);
      && OnlyWithin(h, h', Start(row, lo), Start(row, hi)) && Start(row, lo) <= Start(row, hi)
      && HasTags(h', Start(row, lo), Blk(Start(row, hi) - Start(row, lo), false))
    ensures Lo(row, k) >= 1 && Holds(h', Merged(row, k)) && Kept(h, row, h', Merged(row, k), 0)
  {
    hide Start, Sum, HasTags, Holds, OnlyWithin, Kept, Splice;
    StartSpan(row, Lo(row, k), Hi(row, k));
    PrologueStays(h, row);
    SpliceOne(h, h', row, Lo(row, k), Hi(row, k), Blk(Sum(row[Lo(row, k)..Hi(row, k)]), false), 0);
  }

  lemma PrologueStays(h: seq<UInt>, row: Row)
    requires Holds(h, row)
    ensures row != [] && row[0].alloc
  {}

  /** One block in place of some, none of which is live but x. */
  lemma SpliceOne(h: seq<UInt>, h': seq<UInt>, row: Row, i: nat, j: nat, b: Blk, x: Addr)
    requires Holds(h, row) && 1 <= i <= j <= |row| && b.size == Sum(row[i..j])
    requires OnlyWithin(h, h', Start(row, i), Start(row, j)) && HasTags(h', Start(row, i), b)
    requires forall m :: i <= m < j ==> !row[m].alloc || Start(row, m) == x
    ensures Holds(h', Splice(row, i, j, [b])) && Kept(h, row, h', Splice(row, i, j, [b]), x)
  {
    hide Start, Sum, HasTags, Holds, OnlyWithin, Kept, Splice;
    OneSum(b.size, b.alloc);
    NoBlocks([b]);
    SpliceHolds(h, h', row, i, j, [b]);
    SpliceKeeps(h, h', row, i, j, [b], x);
  }

  lemma OwnTags(h: seq<UInt>, row: Row, k: nat)
    requires Holds(h, row) && k < |row|
    ensures HasTags(h, Start(row, k), row[k])
  {}

  /** Where the start of block i is after merging at block k. */
  lemma BoundaryAfterMerge(h: seq<UInt>, row: Row, k: nat, i: nat)
    requires Holds(h, row) && 1 <= k < |row| && !row[k].alloc && i < |row|
    ensures var lo, hi, row' := Lo(row, k), Hi(row, k), Merged(row, k);
      var p, q := Start(row, lo), Start(row, i);
      var i' := if i <= lo then i else if i < hi then lo else i - (hi - lo - 1);
      && i' < |row'| && Start(row', i') == (if p < q < p + row'[lo].size then p else q) && Start(row', lo) == p
  {
    hide Start, Sum, Holds, Merged;
    AllEven(h, row);
    MergedParts(row, k);
    var lo, hi := Lo(row, k), Hi(row, k);
    if i <= lo {
      StartOrder(row, i, lo);
    } else if i < hi {
      StartOrder(row, lo, i);
      StartOrder(row, i, hi);
    } else {
      StartOrder(row, hi, i);
    }
  }

  /** The number after merging at block k of the block that contains block i. */
  function NumberAfterMerge(row: Row, k: nat, i: nat): nat
    requires 1 <= k < |row|
  {
    var lo, hi := Lo(row, k), Hi(row, k);
    if i <= lo then i else if i < hi then lo else i - (hi - lo - 1)
  }

  /** All that merging at block k does. */
  lemma MergeDone(h: seq<UInt>, h': seq<UInt>, row: Row, k: nat, i: nat)
    requires Holds(h, row) && 1 <= k < |row| && !row[k].alloc && TwoFreeOnlyAt(row, k) && i < |row|
    requires var lo, hi := Lo(row, k), Hi(row, k);
      && OnlyWithin(h, h', Start(row, lo), Start(row, hi)) && Start(row, lo) <= Start(row, hi)
      && HasTags(h', Start(row, lo), Blk(Start(row, hi) - Start(row, lo), false))
    ensures var p, e, q, row' := Start(row, Lo(row, k)), Start(row, Hi(row, k)), Start(row, i), Merged(row, k);
      && Lo(row, k) >= 1 && Holds(h', row') && NoTwoFree(row') && Kept(h, row, h', row', 0)
      && 1 <= p <= |h'| && SizeOf(h'[p - 1]) == e - p
      && Lo(row, k) < |row'| && Start(row', Lo(row, k)) == p && row'[Lo(row, k)] == Blk(e - p, false)
      && NumberAfterMerge(row, k, i) < |row'| && Start(row', NumberAfterMerge(row, k, i)) == if p < q < e then p else q
  {
    hide Start, Sum, HasTags, Holds, OnlyWithin, Kept, Splice, Merged, SizeOf, NoTwoFree, TwoFreeOnlyAt;
    MergeHolds(h, h', row, k);
    MergedParts(row, k);
    MergedNotAdjacent(row, k);
    BoundaryAfterMerge(h, row, k, i);
    HeaderTells(h', Merged(row, k), Lo(row, k));
  }

  /** Two blocks in place of block k, which is not live unless it is x. */
  lemma SpliceTwo(h: seq<UInt>, h': seq<UInt>, row: Row, k: nat, a: Blk, b: Blk, x: Addr)
    requires Holds(h, row) && 1 <= k < |row| && a.size + b.size == row[k].size && (!row[k].alloc || Start(row, k) == x)
    requires var p := Start(row, k);
      OnlyWithin(h, h', p, p + row[k].size) && HasTags(h', p, a) && HasTags(h', p + a.size, b)
    ensures Holds(h', Splice(row, k, k + 1, [a, b])) && Kept(h, row, h', Splice(row, k, k + 1, [a, b]), x)
  {
    hide Start, Sum, HasTags, Holds, OnlyWithin, Kept, Splice;
    TwoSum(a, b);
    assert row[k..k + 1] == [row[k]];
    OneSum(row[k].size, row[k].alloc);
    StartNext(row, k);
    SpliceHolds(h, h', row, k, k + 1, [a, b]);
    SpliceKeeps(h, h', row, k, k + 1, [a, b], x);
  }
}
