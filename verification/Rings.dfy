/** Circular doubly linked lists whose links live in the words of a heap. */
module Rings {

  /** A 32-bit word of the heap. */
  type UInt = x: int | 0 <= x < 0x1_0000_0000

  /** Heap addresses count words from the start of the heap; a stored pointer counts bytes. */
  const LIMIT: nat := 0x4000_0000

  type Addr = x: int | 0 <= x < LIMIT

  function Ptr(a: Addr): UInt { 4 * a }

  function At(w: UInt): Addr { w / 4 }

  function Left(h: seq<UInt>, bp: Addr): Addr
    requires bp + 1 < |h|
  {
    At(h[bp])
  }

  function Right(h: seq<UInt>, bp: Addr): Addr
    requires bp + 1 < |h|
  {
    At(h[bp + 1])
  }

  /** The nodes of a ring in order, with the header at both ends. */
  function Cycle(hd: Addr, l: seq<Addr>): seq<Addr> {
    [hd] + l + [hd]
  }

  /** No node twice, and the two words of different nodes do not overlap. */
  predicate Separate(c: seq<Addr>) {
    forall i, j :: 0 <= i < j < |c| ==> NoOverlap(c[i], c[j])
  }

  predicate NoOverlap(a: int, b: int) {
    a + 1 < b || b + 1 < a
  }

  predicate Linked(h: seq<UInt>, a: Addr, b: Addr) {
    && a + 1 < |h| && b + 1 < |h|
    && h[a + 1] == Ptr(b) && h[b] == Ptr(a)
  }

  /** The ring headed by hd consists of the nodes of l, in this order going right. */
  predicate Ring(h: seq<UInt>, hd: Addr, l: seq<Addr>) {
    && Separate([hd] + l)
    && forall i :: 0 <= i <= |l| ==> Linked(h, Cycle(hd, l)[i], Cycle(hd, l)[i + 1])
  }

  /** The words of h that hold links of the ring are the same in h'. */
  lemma RingFrame(h: seq<UInt>, h': seq<UInt>, hd: Addr, l: seq<Addr>)
    requires Ring(h, hd, l) && |h| <= |h'|
    requires forall x :: x in [hd] + l ==> x + 1 < |h| && h'[x] == h[x] && h'[x + 1] == h[x + 1]
    ensures Ring(h', hd, l)
  {
    var c := Cycle(hd, l);
    forall i | 0 <= i <= |l| ensures Linked(h', c[i], c[i + 1]) {
      assert Linked(h, c[i], c[i + 1]);
      assert c[i] in [hd] + l && c[i + 1] in [hd] + l by {
        assert i <= |l| ==> c[i] == ([hd] + l)[i];
        assert i + 1 <= |l| ==> c[i + 1] == ([hd] + l)[i + 1];
        assert i + 1 == |l| + 1 ==> c[i + 1] == ([hd] + l)[0];
      }
    }
  }

  // ----- insertion behind the header -----

  function Inserted(h: seq<UInt>, hd: Addr, bp: Addr): (h': seq<UInt>)
    requires hd + 1 < |h| && bp + 1 < |h| && Right(h, hd) + 1 < |h| && bp != hd && bp + 1 != hd && bp != hd + 1
    ensures |h'| == |h|
  {
    h[bp := Ptr(hd)][bp + 1 := h[hd + 1]][Right(h, hd) := Ptr(bp)][hd + 1 := Ptr(bp)]
  }

  lemma First(h: seq<UInt>, hd: Addr, l: seq<Addr>)
    requires Ring(h, hd, l)
    ensures hd + 1 < |h| && Right(h, hd) == (if l == [] then hd else l[0]) && Right(h, hd) + 1 < |h|
    ensures h[hd + 1] == Ptr(Right(h, hd))
  {
    var c := Cycle(hd, l);
    assert Linked(h, c[0], c[1]);
  }

  lemma InsertedRing(h: seq<UInt>, hd: Addr, l: seq<Addr>, bp: Addr)
    requires Ring(h, hd, l) && Separate([hd] + ([bp] + l)) && bp + 1 < |h|
    ensures hd + 1 < |h| && Right(h, hd) + 1 < |h| && NoOverlap(hd, bp)
    ensures Ring(Inserted(h, hd, bp), hd, [bp] + l)
  {
    First(h, hd, l);
    var s := [hd] + ([bp] + l);
    assert s[0] == hd && s[1] == bp && NoOverlap(s[0], s[1]);
    var c, h', c' := Cycle(hd, l), Inserted(h, hd, bp), Cycle(hd, [bp] + l);
    var r := Right(h, hd);
    assert r == c[1];
    SameOrApart(hd, [bp] + l, 1, 2);
    assert c'[0] == hd && c'[1] == bp && c'[2] == r;
    forall i | 0 <= i <= |l| + 1 ensures Linked(h', c'[i], c'[i + 1]) {
      if i >= 2 {
        InsertKept(h, hd, l, bp, i);
      } else if l != [] {
        assert s[2] == r;
      }
    }
  }

  lemma InsertKept(h: seq<UInt>, hd: Addr, l: seq<Addr>, bp: Addr, i: nat)
    requires Ring(h, hd, l) && Separate([hd] + ([bp] + l)) && bp + 1 < |h| && 2 <= i <= |l| + 1
    requires hd + 1 < |h| && Right(h, hd) + 1 < |h| && NoOverlap(hd, bp)
    ensures var c' := Cycle(hd, [bp] + l); Linked(Inserted(h, hd, bp), c'[i], c'[i + 1])
  {
    First(h, hd, l);
    var c, c' := Cycle(hd, l), Cycle(hd, [bp] + l);
    assert c'[i] == c[i - 1] && c'[i + 1] == c[i] && c'[0] == hd && c'[1] == bp;
    assert Linked(h, c[i - 1], c[i]);
    assert Right(h, hd) == c'[2];
    DistinctSources(hd, [bp] + l, i, 0);
    DistinctSources(hd, [bp] + l, i, 1);
    SameOrApart(hd, [bp] + l, i, 2);
    SameOrApart(hd, [bp] + l, i + 1, 0);
    SameOrApart(hd, [bp] + l, i + 1, 1);
    hide Cycle, Separate;
  }

  // ----- removal -----

  function Removed(h: seq<UInt>, bp: Addr): (h': seq<UInt>)
    requires bp + 1 < |h| && Left(h, bp) + 1 < |h| && Right(h, bp) + 1 < |h|
    ensures |h'| == |h|
  {
    var l := Left(h, bp);
    // the second write reads its operands after the first
    var h1 := h[l + 1 := h[bp + 1]];
    h1[At(h1[bp + 1]) := h1[bp]]
  }

  lemma SeparateWithout(c: seq<Addr>, k: nat)
    requires Separate(c) && k < |c|
    ensures Separate(c[..k] + c[k + 1..])
  {
    var d := c[..k] + c[k + 1..];
    assert forall i :: 0 <= i < |d| ==> d[i] == if i < k then c[i] else c[i + 1];
  }

  /** The neighbours of node k, and what removing it changes. */
  lemma Neighbours(h: seq<UInt>, hd: Addr, l: seq<Addr>, k: nat)
    requires Ring(h, hd, l) && k < |l|
    ensures var bp, c := l[k], Cycle(hd, l);
      && bp + 1 < |h| && Left(h, bp) == c[k] && Right(h, bp) == c[k + 2] && c[k] + 1 < |h| && c[k + 2] + 1 < |h|
      && NoOverlap(c[k], bp) && NoOverlap(c[k + 2], bp)
      && c[k] in [hd] + l && c[k + 2] in [hd] + l
      && Removed(h, bp) == h[c[k] + 1 := Ptr(c[k + 2])][c[k + 2] := Ptr(c[k])]
  {
    var c, s, bp := Cycle(hd, l), [hd] + l, l[k];
    assert c[k + 1] == bp == s[k + 1];
    assert Linked(h, c[k], c[k + 1]) && Linked(h, c[k + 1], c[k + 2]);
    assert c[k] == s[k];
    assert c[k + 2] == if k + 1 < |l| then s[k + 2] else s[0];
  }

  /** Removing node k leaves the links alone that neither leave it nor enter it. */
  lemma LinkKept(h: seq<UInt>, hd: Addr, l: seq<Addr>, k: nat, n: nat)
    requires Ring(h, hd, l) && k < |l| && n <= |l| && n != k && n != k + 1
    requires l[k] + 1 < |h| && Left(h, l[k]) + 1 < |h| && Right(h, l[k]) + 1 < |h|
    ensures Linked(Removed(h, l[k]), Cycle(hd, l)[n], Cycle(hd, l)[n + 1])
  {
    var c := Cycle(hd, l);
    Neighbours(h, hd, l, k);
    assert Linked(h, c[n], c[n + 1]);
    DistinctSources(hd, l, n, k);
    DistinctSources(hd, l, n, k + 1);
    SameOrApart(hd, l, n, k + 2);
    SameOrApart(hd, l, n + 1, k);
    hide Cycle, Removed, Separate;
  }

  lemma RemovedRing(h: seq<UInt>, hd: Addr, l: seq<Addr>, k: nat)
    requires Ring(h, hd, l) && k < |l|
    requires l[k] + 1 < |h| && Left(h, l[k]) + 1 < |h| && Right(h, l[k]) + 1 < |h|
    ensures Ring(Removed(h, l[k]), hd, l[..k] + l[k + 1..])
  {
    var c, s := Cycle(hd, l), [hd] + l;
    var h', l' := Removed(h, l[k]), l[..k] + l[k + 1..];
    var c' := Cycle(hd, l');
    assert forall i :: 0 <= i < |c'| ==> c'[i] == if i <= k then c[i] else c[i + 1];
    Neighbours(h, hd, l, k);
    hide Linked, Separate, Removed;
    forall i | 0 <= i <= |l'| ensures Linked(h', c'[i], c'[i + 1]) {
      if i < k {
        LinkKept(h, hd, l, k, i);
      } else if i > k {
        LinkKept(h, hd, l, k, i + 1);
      } else {
        NewLink(h, hd, l, k);
      }
    }
    SeparateWithout(s, k + 1);
    assert [hd] + l' == s[..k + 1] + s[k + 2..];
  }

  lemma NewLink(h: seq<UInt>, hd: Addr, l: seq<Addr>, k: nat)
    requires Ring(h, hd, l) && k < |l|
    requires l[k] + 1 < |h| && Left(h, l[k]) + 1 < |h| && Right(h, l[k]) + 1 < |h|
    ensures Linked(Removed(h, l[k]), Cycle(hd, l)[k], Cycle(hd, l)[k + 2])
  {
    Neighbours(h, hd, l, k);
    SameOrApart(hd, l, k, k + 2);
    hide Cycle, Removed, Separate;
  }

  lemma SameOrApart(hd: Addr, l: seq<Addr>, i: nat, j: nat)
    requires Separate([hd] + l) && i <= |l| + 1 && j <= |l| + 1
    ensures var c := Cycle(hd, l); c[i] == c[j] || NoOverlap(c[i], c[j])
  {
    var c, s := Cycle(hd, l), [hd] + l;
    assert c[i] == if i <= |l| then s[i] else s[0];
    assert c[j] == if j <= |l| then s[j] else s[0];
  }

  /** Links leave different nodes and enter different nodes. */
  lemma DistinctSources(hd: Addr, l: seq<Addr>, i: nat, j: nat)
    requires Separate([hd] + l) && i <= |l| && j <= |l| && i != j
    ensures var c := Cycle(hd, l); NoOverlap(c[i], c[j]) && NoOverlap(c[i + 1], c[j + 1])
  {
    var c, s := Cycle(hd, l), [hd] + l;
    assert forall n :: 0 <= n <= |l| ==> c[n] == s[n];
    assert forall n :: 1 <= n <= |l| + 1 ==> c[n] == if n <= |l| then s[n] else s[0];
  }
}
