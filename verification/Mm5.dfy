/** The eighteen free lists of the allocator that divides its free blocks by powers of two. A list ends in
    NULL; its head is one of the first words of the heap. */
module Mm5 {
  import opened Rings
  import opened Layouts

  const LISTS: nat := 18

  /** The list for blocks of size words. */
  function ListOffset(size: nat): (n: nat)
    ensures n < LISTS
  {
    if size <= 4 then 0
    else if size <= 8 then 1
    else if size <= 16 then 2
    else if size <= 32 then 3
    else if size <= 64 then 4
    else if size <= 128 then 5
    else if size <= 256 then 6
    else if size <= 512 then 7
    else if size <= 1024 then 8
    else if size <= 2048 then 9
    else if size <= 4096 then 10
    else if size <= 8192 then 11
    else if size <= 16384 then 12
    else if size <= 32768 then 13
    else if size <= 65536 then 14
    else if size <= 131072 then 15
    else if size <= 262144 then 16
    else 17
  }

  function Bound(n: nat): nat {
    if n == 0 then 4 else 2 * Bound(n - 1)
  }

  /** The list is that of the least bound which is not below the size, or the last. */
  lemma OffsetIsLeast(size: nat, n: nat)
    requires n < LISTS
    ensures ListOffset(size) == n <==> (n == 17 || size <= Bound(n)) && (n == 0 || Bound(n - 1) < size)
  {
    BoundsAre();
  }

  lemma BoundsAre()
    ensures Bound(0) == 4 && Bound(1) == 8 && Bound(2) == 16 && Bound(3) == 32 && Bound(4) == 64 && Bound(5) == 128
    ensures Bound(6) == 256 && Bound(7) == 512 && Bound(8) == 1024 && Bound(9) == 2048 && Bound(10) == 4096
    ensures Bound(11) == 8192 && Bound(12) == 16384 && Bound(13) == 32768 && Bound(14) == 65536 && Bound(15) == 131072
    ensures Bound(16) == 262144
  {}

  // ----- lists in the heap -----

  type Lists = ls: seq<seq<Addr>> | |ls| == LISTS witness seq(LISTS, _ => [])

  /** The k-th node, or the end. */
  function Node(l: seq<Addr>, k: int): Addr {
    if 0 <= k < |l| then l[k] else NULL
  }

  /** The word that points to the k-th node: the head of list i, or the first word of the node before. */
  function Slot(i: nat, l: seq<Addr>, k: nat): nat
    requires k <= |l|
  {
    if k == 0 then i else l[k - 1]
  }

  predicate Inside(h: seq<UInt>, p: Addr) {
    LISTS < p && p + 1 < |h|
  }

  /** Header and links of different nodes do not overlap. */
  predicate Clear(p: Addr, q: Addr) {
    p + 2 < q || q + 2 < p
  }

  function SizeAt(h: seq<UInt>, p: Addr): nat
    requires Inside(h, p)
  {
    SizeOf(h[p - 1])
  }

  predicate LinkedAt(h: seq<UInt>, i: nat, l: seq<Addr>, k: nat)
    requires k <= |l|
  {
    && Slot(i, l, k) < |h| && h[Slot(i, l, k)] == Ptr(Node(l, k))
    && (k < |l| ==> Inside(h, l[k]) && h[l[k] + 1] == Ptr(Node(l, k - 1)))
  }

  /** List i holds the nodes of l in this order, all of them of its size. */
  predicate Chained(h: seq<UInt>, i: nat, l: seq<Addr>) {
    && (forall k :: 0 <= k <= |l| ==> LinkedAt(h, i, l, k))
    && (forall k :: 0 <= k < |l| ==> Inside(h, l[k]) && ListOffset(SizeAt(h, l[k])) == i)
  }

  predicate AllClear(ls: Lists) {
    forall i, k, j, m :: 0 <= i < LISTS && 0 <= k < |ls[i]| && 0 <= j < LISTS && 0 <= m < |ls[j]| && (i, k) != (j, m) ==>
      Clear(ls[i][k], ls[j][m])
  }

  predicate HoldLists(h: seq<UInt>, ls: Lists) {
    AllClear(ls) && LISTS <= |h| && forall i :: 0 <= i < LISTS ==> Chained(h, i, ls[i])
  }

  /** Node k of list i is the only node at its place. */
  predicate Unlisted(ls: Lists, bp: Addr) {
    forall i, k :: 0 <= i < LISTS && 0 <= k < |ls[i]| ==> Clear(ls[i][k], bp)
  }

  predicate SameNode(h: seq<UInt>, h': seq<UInt>, p: Addr)
    requires Inside(h, p) && |h'| == |h|
  {
    h'[p - 1] == h[p - 1] && h'[p] == h[p] && h'[p + 1] == h[p + 1]
  }

  lemma ListFrame(h: seq<UInt>, h': seq<UInt>, i: nat, l: seq<Addr>)
    requires Chained(h, i, l) && |h'| == |h| && i < |h| && h'[i] == h[i]
    requires forall k :: 0 <= k < |l| ==> Inside(h, l[k]) && SameNode(h, h', l[k])
    ensures Chained(h', i, l)
  {
    forall k | 0 <= k <= |l| ensures LinkedAt(h', i, l, k) {
      assert LinkedAt(h, i, l, k);
    }
  }

  // ----- insertion -----

  function Pushed(h: seq<UInt>, i: nat, bp: Addr): (h': seq<UInt>)
    requires i < LISTS <= |h| && Inside(h, bp) && At(h[i]) + 1 < |h|
    ensures |h'| == |h|
  {
    var first := At(h[i]);
    var h1 := h[bp := h[i]];
    var h2 := if first == NULL then h1 else h1[first + 1 := Ptr(bp)];
    h2[bp + 1 := Ptr(NULL)][i := Ptr(bp)]
  }

  /** The words of the other lists stay. */
  lemma OthersStay(h: seq<UInt>, ls: Lists, i: nat, j: nat, h': seq<UInt>, changed: set<int>)
    requires HoldLists(h, ls) && i < LISTS && j < LISTS && i != j && |h'| == |h|
    requires forall w :: 0 <= w < |h| && w !in changed ==> h'[w] == h[w]
    requires forall w :: w in changed ==>
      w == i || (w >= LISTS && forall m :: 0 <= m < |ls[j]| ==> OffLinks(w, ls[j][m]))
    ensures Chained(h', j, ls[j])
  {
    assert Chained(h, j, ls[j]) && LinkedAt(h, j, ls[j], 0);
    forall m | 0 <= m < |ls[j]|
      ensures Inside(h, ls[j][m]) && SameNode(h, h', ls[j][m])
    {
      assert LinkedAt(h, j, ls[j], m);
    }
    ListFrame(h, h', j, ls[j]);
  }

  predicate OffLinks(w: int, p: Addr) {
    w < p - 1 || p + 1 < w
  }

  lemma FirstNode(h: seq<UInt>, ls: Lists, i: nat)
    requires HoldLists(h, ls) && i < LISTS
    ensures At(h[i]) == Node(ls[i], 0) && At(h[i]) + 1 < |h| && h[i] == Ptr(At(h[i]))
    ensures ls[i] != [] ==> Inside(h, ls[i][0])
  {
    assert Chained(h, i, ls[i]) && LinkedAt(h, i, ls[i], 0);
  }

  lemma PushedHolds(h: seq<UInt>, ls: Lists, i: nat, bp: Addr)
    requires HoldLists(h, ls) && Inside(h, bp) && Unlisted(ls, bp) && i == ListOffset(SizeAt(h, bp))
    ensures At(h[i]) + 1 < |h| && HoldLists(Pushed(h, i, bp), ls[i := [bp] + ls[i]])
  {
    FirstNode(h, ls, i);
    var h', ls' := Pushed(h, i, bp), ls[i := [bp] + ls[i]];
    PushedClear(ls, i, bp);
    forall j | 0 <= j < LISTS ensures Chained(h', j, ls'[j]) {
      if j == i {
        PushedChain(h, ls, i, bp);
      } else {
        PushedOthers(h, ls, i, bp, j);
      }
    }
  }

  lemma PushedOthers(h: seq<UInt>, ls: Lists, i: nat, bp: Addr, j: nat)
    requires HoldLists(h, ls) && Inside(h, bp) && Unlisted(ls, bp) && i < LISTS && j < LISTS && i != j
    requires At(h[i]) + 1 < |h|
    ensures Chained(Pushed(h, i, bp), j, ls[j])
  {
    hide Chained;
    FirstNode(h, ls, i);
    var first: int, own: int := At(h[i]), bp;
    var changed := if first == NULL then {own, own + 1, i} else {own, own + 1, first + 1, i};
    forall w | w in changed ensures w == i || (w >= LISTS && forall m :: 0 <= m < |ls[j]| ==> OffLinks(w, ls[j][m])) {
      forall m | 0 <= m < |ls[j]| ensures w == i || OffLinks(w, ls[j][m]) {
        assert Clear(ls[j][m], bp);
        assert ls[i] != [] ==> Clear(ls[i][0], ls[j][m]);
      }
    }
    OthersStay(h, ls, i, j, Pushed(h, i, bp), changed);
  }

  lemma PushedChain(h: seq<UInt>, ls: Lists, i: nat, bp: Addr)
    requires HoldLists(h, ls) && Inside(h, bp) && Unlisted(ls, bp) && i == ListOffset(SizeAt(h, bp))
    requires At(h[i]) + 1 < |h|
    ensures Chained(Pushed(h, i, bp), i, [bp] + ls[i])
  {
    FirstNode(h, ls, i);
    var l, h' := ls[i], Pushed(h, i, bp);
    var l' := [bp] + l;
    assert Chained(h, i, l);
    forall k | 0 <= k <= |l'| ensures LinkedAt(h', i, l', k) && (k < |l'| ==> ListOffset(SizeAt(h', l'[k])) == i) {
      if k > 0 {
        assert LinkedAt(h, i, l, k - 1);
        if k > 1 {
          assert Clear(l[k - 2], bp) && Clear(l[0], bp) && (k > 2 ==> Clear(l[k - 2], l[0]));
        }
        if k < |l'| {
          assert Clear(l[k - 1], bp) && (k > 1 ==> Clear(l[k - 1], l[0]));
        }
      }
    }
  }

  lemma PushedClear(ls: Lists, i: nat, bp: Addr)
    requires AllClear(ls) && Unlisted(ls, bp) && i < LISTS
    ensures AllClear(ls[i := [bp] + ls[i]])
  {}

  // ----- removal -----

  function Dropped(h: seq<UInt>, i: nat, bp: Addr): (h': seq<UInt>)
    requires i < LISTS <= |h| && Inside(h, bp) && At(h[bp]) + 1 < |h| && At(h[bp + 1]) + 1 < |h|
    ensures |h'| == |h|
  {
    var next, prev := At(h[bp]), At(h[bp + 1]);
    var h1 := h[if prev == NULL then i else prev := h[bp]];
    if next == NULL then h1 else h1[next + 1 := h[bp + 1]]
  }

  lemma InnerNode(h: seq<UInt>, ls: Lists, i: nat, k: nat)
    requires HoldLists(h, ls) && i < LISTS && k < |ls[i]|
    ensures var l, bp := ls[i], ls[i][k];
      && Inside(h, bp) && h[bp] == Ptr(Node(l, k + 1)) && h[bp + 1] == Ptr(Node(l, k - 1))
      && At(h[bp]) == Node(l, k + 1) && At(h[bp + 1]) == Node(l, k - 1)
      && At(h[bp]) + 1 < |h| && At(h[bp + 1]) + 1 < |h|
      && (k > 0 ==> Inside(h, l[k - 1])) && (k + 1 < |l| ==> Inside(h, l[k + 1]))
      && Dropped(h, i, bp)
         == if k + 1 < |l| then h[Slot(i, l, k) := h[bp]][l[k + 1] + 1 := h[bp + 1]] else h[Slot(i, l, k) := h[bp]]
  {
    var l := ls[i];
    assert Chained(h, i, l) && LinkedAt(h, i, l, k) && LinkedAt(h, i, l, k + 1);
    if k > 0 {
      assert LinkedAt(h, i, l, k - 1);
    }
  }

  lemma DroppedHolds(h: seq<UInt>, ls: Lists, i: nat, k: nat)
    requires HoldLists(h, ls) && i < LISTS && k < |ls[i]|
    ensures var bp := ls[i][k];
      && Inside(h, bp) && At(h[bp]) + 1 < |h| && At(h[bp + 1]) + 1 < |h|
      && HoldLists(Dropped(h, i, bp), ls[i := ls[i][..k] + ls[i][k + 1..]])
  {
    InnerNode(h, ls, i, k);
    var h', ls' := Dropped(h, i, ls[i][k]), ls[i := ls[i][..k] + ls[i][k + 1..]];
    DroppedClear(ls, i, k);
    forall j | 0 <= j < LISTS ensures Chained(h', j, ls'[j]) {
      if j == i {
        DroppedChain(h, ls, i, k);
      } else {
        DroppedOthers(h, ls, i, k, j);
      }
    }
  }

  lemma DroppedOthers(h: seq<UInt>, ls: Lists, i: nat, k: nat, j: nat)
    requires HoldLists(h, ls) && i < LISTS && k < |ls[i]| && j < LISTS && i != j
    requires var bp := ls[i][k]; Inside(h, bp) && At(h[bp]) + 1 < |h| && At(h[bp + 1]) + 1 < |h|
    ensures Chained(Dropped(h, i, ls[i][k]), j, ls[j])
  {
    hide Chained, Dropped;
    InnerNode(h, ls, i, k);
    var l := ls[i];
    var next: int := Node(l, k + 1);
    var changed: set<int> := if k + 1 < |l| then {Slot(i, l, k), next + 1} else {Slot(i, l, k)};
    forall w | w in changed ensures w == i || (w >= LISTS && forall m :: 0 <= m < |ls[j]| ==> OffLinks(w, ls[j][m])) {
      forall m | 0 <= m < |ls[j]| ensures w == i || OffLinks(w, ls[j][m]) {
        assert k > 0 ==> Clear(l[k - 1], ls[j][m]);
        assert k + 1 < |l| ==> Clear(l[k + 1], ls[j][m]);
      }
    }
    OthersStay(h, ls, i, j, Dropped(h, i, l[k]), changed);
  }

  /** Nodes of one list, none overlapping another. */
  predicate Spread(l: seq<Addr>) {
    forall k, m :: 0 <= k < |l| && 0 <= m < |l| && k != m ==> Clear(l[k], l[m])
  }

  /** List l without node k, once the link to that node and the link back to it have changed. */
  function Bypassed(h: seq<UInt>, i: nat, l: seq<Addr>, k: nat): (h': seq<UInt>)
    requires k < |l| && i < LISTS <= |h| && forall m :: 0 <= m < |l| ==> Inside(h, l[m])
    ensures |h'| == |h|
  {
    assert (k > 0 ==> Inside(h, l[k - 1])) && (k + 1 < |l| ==> Inside(h, l[k + 1]));
    var h1 := h[Slot(i, l, k) := Ptr(Node(l, k + 1))];
    if k + 1 < |l| then h1[l[k + 1] + 1 := Ptr(Node(l, k - 1))] else h1
  }

  lemma BypassedWords(h: seq<UInt>, i: nat, l: seq<Addr>, k: nat, m: nat)
    requires k < |l| && i < LISTS <= |h| && (forall n :: 0 <= n < |l| ==> Inside(h, l[n])) && Spread(l) && m <= |l|
    ensures var h' := Bypassed(h, i, l, k);
      && h'[Slot(i, l, m)] == (if m == k then Ptr(Node(l, k + 1)) else h[Slot(i, l, m)])
      && (m < |l| ==> h'[l[m] - 1] == h[l[m] - 1]
                      && h'[l[m] + 1] == if m == k + 1 then Ptr(Node(l, k - 1)) else h[l[m] + 1])
  {
    if 0 < k && m < |l| && m != k - 1 { assert Clear(l[m], l[k - 1]); }
    if k + 1 < |l| && m < |l| && m != k + 1 { assert Clear(l[m], l[k + 1]); }
    if 0 < k && 0 < m && m != k { assert Clear(l[m - 1], l[k - 1]); }
    if k + 1 < |l| && 0 < m && m - 1 != k + 1 { assert Clear(l[m - 1], l[k + 1]); }
    if 0 < k && k + 1 < |l| { assert Clear(l[k - 1], l[k + 1]); }
  }

  lemma NodesWithout(i: nat, l: seq<Addr>, k: nat, n: nat)
    requires k < |l| && n < |l|
    ensures var l' := l[..k] + l[k + 1..];
      && Slot(i, l', n) == Slot(i, l, if n <= k then n else n + 1)
      && Node(l', n) == Node(l, if n < k then n else n + 1)
      && Node(l', n - 1) == Node(l, if n <= k then n - 1 else n)
  {}

  /** The links of a list l' that is l without node k. */
  lemma BypassedLink(h: seq<UInt>, i: nat, l: seq<Addr>, k: nat, l': seq<Addr>, n: nat)
    requires k < |l| && i < LISTS <= |h| && (forall m :: 0 <= m < |l| ==> Inside(h, l[m])) && Spread(l)
    requires Chained(h, i, l)
    requires n <= |l'| == |l| - 1
    requires Slot(i, l', n) == Slot(i, l, if n <= k then n else n + 1)
    requires Node(l', n) == Node(l, if n < k then n else n + 1)
    requires Node(l', n - 1) == Node(l, if n <= k then n - 1 else n)
    ensures LinkedAt(Bypassed(h, i, l, k), i, l', n)
  {
    var m := if n < k then n else n + 1;
    assert LinkedAt(h, i, l, n) && LinkedAt(h, i, l, m);
    hide Bypassed, Spread, Chained;
    BypassedWords(h, i, l, k, n);
    BypassedWords(h, i, l, k, m);
    SameLength(Bypassed(h, i, l, k), h);
    if n < |l'| {
      assert l'[n] == Node(l', n) == l[m];
    }
  }

  lemma SameLength(h: seq<UInt>, h': seq<UInt>)
    requires |h| == |h'|
    ensures forall p :: Inside(h, p) <==> Inside(h', p)
  {}

  lemma BypassedChain(h: seq<UInt>, i: nat, l: seq<Addr>, k: nat)
    requires k < |l| && i < LISTS <= |h| && (forall n :: 0 <= n < |l| ==> Inside(h, l[n])) && Spread(l)
    requires Chained(h, i, l)
    ensures Chained(Bypassed(h, i, l, k), i, l[..k] + l[k + 1..])
  {
    var h', l' := Bypassed(h, i, l, k), l[..k] + l[k + 1..];
    assert forall n :: 0 <= n < |l'| ==> l'[n] == if n < k then l[n] else l[n + 1];
    hide Bypassed, Spread;
    forall n | 0 <= n <= |l'| ensures LinkedAt(h', i, l', n) {
      NodesWithout(i, l, k, n);
      BypassedLink(h, i, l, k, l', n);
    }
    forall n | 0 <= n < |l'| ensures ListOffset(SizeAt(h', l'[n])) == i {
      BypassedWords(h, i, l, k, if n < k then n else n + 1);
    }
  }

  lemma DroppedChain(h: seq<UInt>, ls: Lists, i: nat, k: nat)
    requires HoldLists(h, ls) && i < LISTS && k < |ls[i]|
    requires var bp := ls[i][k]; Inside(h, bp) && At(h[bp]) + 1 < |h| && At(h[bp + 1]) + 1 < |h|
    ensures Chained(Dropped(h, i, ls[i][k]), i, ls[i][..k] + ls[i][k + 1..])
  {
    InnerNode(h, ls, i, k);
    assert Chained(h, i, ls[i]);
    hide Chained, Dropped;
    BypassedChain(h, i, ls[i], k);
  }

  lemma DroppedClear(ls: Lists, i: nat, k: nat)
    requires AllClear(ls) && i < LISTS && k < |ls[i]|
    ensures AllClear(ls[i := ls[i][..k] + ls[i][k + 1..]])
  {
    var l' := ls[i][..k] + ls[i][k + 1..];
    assert forall n :: 0 <= n < |l'| ==> l'[n] == if n < k then ls[i][n] else ls[i][n + 1];
  }

  // ----- the search -----

  /** Block bp is the first of its list with at least asize words, and no list before has such a block. */
  predicate BestFit(h: seq<UInt>, ls: Lists, asize: nat, bp: Addr)
    requires HoldLists(h, ls)
  {
    exists i, k :: 0 <= i < LISTS && 0 <= k < |ls[i]| && ls[i][k] == bp && SizeAt(h, bp) >= asize
      && NoneBefore(h, ls, asize, i, k)
  }

  predicate NoneBefore(h: seq<UInt>, ls: Lists, asize: nat, i: nat, k: nat)
    requires HoldLists(h, ls)
  {
    forall j, m :: 0 <= j < LISTS && 0 <= m < |ls[j]| && (j < i || (j == i && m < k)) ==> SizeAt(h, ls[j][m]) < asize
  }

  /** The lists that the search skips hold no block that is large enough. */
  lemma SkippedAreSmall(h: seq<UInt>, ls: Lists, asize: nat)
    requires HoldLists(h, ls)
    ensures NoneBefore(h, ls, asize, ListOffset(asize), 0)
  {
    forall j, m | 0 <= j < ListOffset(asize) && 0 <= m < |ls[j]| ensures SizeAt(h, ls[j][m]) < asize {
      assert Chained(h, j, ls[j]);
    }
  }

  lemma LongEnough(h: seq<UInt>, ls: Lists)
    requires HoldLists(h, ls)
    ensures LISTS <= |h|
  {}

  lemma OffsetOf(h: seq<UInt>, ls: Lists, i: nat, k: nat)
    requires HoldLists(h, ls) && i < LISTS && k < |ls[i]|
    ensures Inside(h, ls[i][k]) && ListOffset(SizeAt(h, ls[i][k])) == i
  {
    assert Chained(h, i, ls[i]);
  }

  lemma PassedOver(h: seq<UInt>, ls: Lists, asize: nat, i: nat, k: nat)
    requires HoldLists(h, ls) && i < LISTS && k < |ls[i]| && NoneBefore(h, ls, asize, i, k)
    requires Inside(h, ls[i][k]) && SizeAt(h, ls[i][k]) < asize
    ensures NoneBefore(h, ls, asize, i, k + 1)
  {}

  lemma AllPassed(h: seq<UInt>, ls: Lists, asize: nat, i: nat)
    requires HoldLists(h, ls) && i < LISTS && NoneBefore(h, ls, asize, i, |ls[i]|)
    ensures NoneBefore(h, ls, asize, i + 1, 0)
  {}

  lemma NoneAtAll(h: seq<UInt>, ls: Lists, asize: nat)
    requires HoldLists(h, ls) && NoneBefore(h, ls, asize, LISTS, 0)
    ensures forall i, k :: 0 <= i < LISTS && 0 <= k < |ls[i]| ==> Inside(h, ls[i][k]) && SizeAt(h, ls[i][k]) < asize
  {
    forall i, k | 0 <= i < LISTS && 0 <= k < |ls[i]| ensures Inside(h, ls[i][k]) {
      OffsetOf(h, ls, i, k);
    }
  }

  lemma NodesAreNodes(h: seq<UInt>, ls: Lists, i: nat, k: nat)
    requires HoldLists(h, ls) && i < LISTS && k <= |ls[i]| && Node(ls[i], k) == NULL
    ensures k == |ls[i]|
  {
    if k < |ls[i]| {
      OffsetOf(h, ls, i, k);
    }
  }

  lemma EmptyLists(h: seq<UInt>, ls: Lists)
    requires LISTS <= |h| && forall i :: 0 <= i < LISTS ==> ls[i] == [] && h[i] == Ptr(NULL)
    ensures HoldLists(h, ls)
  {
    forall i | 0 <= i < LISTS ensures Chained(h, i, ls[i]) {
      assert LinkedAt(h, i, ls[i], 0);
    }
  }

  class FreeLists {
    const mem: array<UInt>
    ghost var lists: Lists

    ghost predicate Valid()
      reads this, mem
    {
      HoldLists(mem[..], lists)
    }

    /** All lists are empty at first. */
    constructor (capacity: nat)
      requires LISTS <= capacity < LIMIT
      ensures Valid() && fresh(mem) && mem.Length == capacity && forall i :: 0 <= i < LISTS ==> lists[i] == []
    {
      mem := new UInt[capacity];
      lists := seq(LISTS, _ => []);
      new;
      for i := 0 to LISTS
        invariant fresh(mem) && lists == seq(LISTS, _ => []) && forall j :: 0 <= j < i ==> mem[j] == Ptr(NULL)
      {
        mem[i] := Ptr(NULL);
      }
      EmptyLists(mem[..], lists);
    }

    method Put(p: nat, v: UInt)
      requires p < mem.Length
      modifies mem
      ensures mem[..] == old(mem[..])[p := v]
    {
      mem[p] := v;
    }

    /** The block goes to the front of the list of its size. */
    method InsertList(bp: Addr)
      requires Valid() && Inside(mem[..], bp) && Unlisted(lists, bp)
      modifies mem, `lists
      ensures Valid()
      ensures var i := ListOffset(SizeAt(old(mem[..]), bp));
        && lists == old(lists)[i := [bp] + old(lists)[i]]
        && At(old(mem[..])[i]) + 1 < mem.Length && mem[..] == Pushed(old(mem[..]), i, bp)
    {
      hide HoldLists;
      ghost var h := mem[..];
      assert LISTS <= |h| by { LongEnough(h, lists); }
      var index := ListOffset(SizeOf(mem[bp - 1]));
      PushedHolds(h, lists, index, bp);
      FirstNode(h, lists, index);
      var first := mem[index];
      if first == Ptr(NULL) {
        Put(index, Ptr(bp));
        Put(bp, Ptr(NULL));
        Put(bp + 1, Ptr(NULL));
      } else {
        Put(bp, first);
        Put(At(first) + 1, Ptr(bp));
        Put(bp + 1, Ptr(NULL));
        Put(index, Ptr(bp));
      }
      lists := lists[index := [bp] + lists[index]];
      assert mem[..] == Pushed(h, index, bp);
    }

    /** The block leaves its list, whether it is the only, the first, the last or an inner node. */
    method DeleteList(bp: Addr, ghost i: nat, ghost k: nat)
      requires Valid() && i < LISTS && k < |lists[i]| && lists[i][k] == bp
      modifies mem, `lists
      ensures Valid() && lists == old(lists)[i := old(lists)[i][..k] + old(lists)[i][k + 1..]]
      ensures var h := old(mem[..]);
        && LISTS <= |h| && Inside(h, bp) && At(h[bp]) + 1 < |h| && At(h[bp + 1]) + 1 < |h|
        && mem[..] == Dropped(h, i, bp)
    {
      hide HoldLists;
      ghost var h := mem[..];
      assert LISTS <= |h| by { LongEnough(h, lists); }
      DroppedHolds(h, lists, i, k);
      InnerNode(h, lists, i, k);
      var index := ListOffset(SizeOf(mem[bp - 1]));
      assert index == i by { OffsetOf(h, lists, i, k); }
      var next, prev := mem[bp], mem[bp + 1];
      if next == Ptr(NULL) && prev == Ptr(NULL) {
        Put(index, Ptr(NULL));
      } else if next == Ptr(NULL) {
        Put(At(prev), Ptr(NULL));
      } else if prev == Ptr(NULL) {
        Put(index, next);
        Put(At(next) + 1, Ptr(NULL));
      } else {
        Put(At(prev), next);
        Put(At(next) + 1, prev);
      }
      lists := lists[i := lists[i][..k] + lists[i][k + 1..]];
      assert mem[..] == Dropped(h, i, bp);
    }

    /** Searches the list of the size asked for and then those of larger blocks. */
    method FindFit(asize: nat) returns (bp: Addr)
      requires Valid()
      ensures bp == NULL <==> forall i, k :: 0 <= i < LISTS && 0 <= k < |lists[i]| ==>
        SizeAt(mem[..], lists[i][k]) < asize
      ensures bp != NULL ==> BestFit(mem[..], lists, asize, bp)
    {
      hide HoldLists, NoneBefore;
      ghost var h := mem[..];
      assert LISTS <= |h| by { LongEnough(h, lists); }
      var index := ListOffset(asize);
      SkippedAreSmall(h, lists, asize);
      while index < LISTS
        invariant index <= LISTS && NoneBefore(h, lists, asize, index, 0)
      {
        FirstNode(h, lists, index);
        var ptr := At(mem[index]);
        ghost var k := 0;
        while ptr != NULL
          invariant k <= |lists[index]| && ptr == Node(lists[index], k) && NoneBefore(h, lists, asize, index, k)
          decreases |lists[index]| - k
        {
          InnerNode(h, lists, index, k);
          if SizeOf(mem[ptr - 1]) >= asize {
            return ptr;
          }
          PassedOver(h, lists, asize, index, k);
          ptr := At(mem[ptr]);
          k := k + 1;
        }
        assert k == |lists[index]| by { NodesAreNodes(h, lists, index, k); }
        AllPassed(h, lists, asize, index);
        index := index + 1;
      }
      NoneAtAll(h, lists, asize);
      return NULL;
    }
  }
}
