/** The cache simulator: many sets, a trace of accesses, and the counters of hits, misses and evictions. */
module Csim {
  import opened Arithmetic
  import opened Words
  import opened Lru

  /** 2^s sets of the given number of lines, with blocks of 2^b bytes. */
  datatype Geometry = Geometry(s: nat, b: nat, lines: nat) {
    predicate Ok() { s + b < 64 && lines > 0 }
    function Sets(): nat { Pow2(s) }
  }

  /** A line of the trace, and the clock when it is dealt with. */
  datatype Access = Access(op: char, addr: int, time: int)

  predicate Counted(a: Access) { a.op == 'L' || a.op == 'M' || a.op == 'S' }

  function SetOf(g: Geometry, addr: int): (i: nat)
    ensures i < g.Sets()
  {
    addr / Pow2(g.b) % Pow2(g.s)
  }

  function TagOf(g: Geometry, addr: int): int
    requires g.Ok()
  {
    addr / Pow2(g.s + g.b) % Pow2(64 - g.s - g.b)
  }

  // ----- addresses that share a line -----

  /** Bits b to b + s - 1 of the address select the set, and the t = 64 - s - b bits above are the tag. */
  lemma AddressBits(g: Geometry, addr: int, k: nat)
    requires g.Ok()
    ensures Bit(SetOf(g, addr), k) <==> k < g.s && Bit(addr, g.b + k)
    ensures Bit(TagOf(g, addr), k) <==> k < 64 - g.s - g.b && Bit(addr, g.s + g.b + k)
  {
    BitOfRemainder(addr / Pow2(g.b), g.s, k);
    BitOfQuotient(addr, g.b, k);
    BitOfRemainder(addr / Pow2(g.s + g.b), 64 - g.s - g.b, k);
    BitOfQuotient(addr, g.s + g.b, k);
  }

  /** Addresses of 64 bits, all taken as signed or all as unsigned. */
  predicate Addresses(a: int, a': int) {
    (0 <= a < TWO64 && 0 <= a' < TWO64) || (-TWO63 <= a < TWO63 && -TWO63 <= a' < TWO63)
  }

  /** The block of 2^b bytes that an address is in. */
  function BlockOf(g: Geometry, addr: int): int { addr / Pow2(g.b) }

  /** Two addresses have the same set and the same tag exactly if they are in the same block. */
  lemma SameBlock(g: Geometry, a: int, a': int)
    requires g.Ok() && Addresses(a, a')
    ensures SetOf(g, a) == SetOf(g, a') && TagOf(g, a) == TagOf(g, a') <==> BlockOf(g, a) == BlockOf(g, a')
  {
    var t, x, x' := 64 - g.s - g.b, BlockOf(g, a), BlockOf(g, a');
    Shifted(g, a);
    Shifted(g, a');
    if SetOf(g, a) == SetOf(g, a') && TagOf(g, a) == TagOf(g, a') {
      var n := SameDigits(x, x', Pow2(g.s), Pow2(t));
      BlockRange(g, a, a', n);
    }
  }

  lemma Shifted(g: Geometry, addr: int)
    requires g.Ok()
    ensures TagOf(g, addr) == BlockOf(g, addr) / Pow2(g.s) % Pow2(64 - g.s - g.b)
  {
    Pow2Add(g.b, g.s);
    assert g.b + g.s == g.s + g.b;
    DivideTwice(addr, Pow2(g.b), Pow2(g.s));
  }

  /** Numbers with the same lower digit and the same higher digit differ by a multiple of both bases. */
  lemma SameDigits(x: int, x': int, p: nat, q: nat) returns (n: int)
    requires p > 0 && q > 0 && x % p == x' % p && x / p % q == x' / p % q
    ensures x - x' == p * q * n
  {
    var y, y' := x / p, x' / p;
    n := y / q - y' / q;
    Difference(q, y / q, y' / q);
    assert y - y' == q * n;
    Difference(p, y, y');
    assert x - x' == p * (y - y');
    assert p * (q * n) == p * q * n;
  }

  /** The numbers of the blocks, of which there are no more than sets and tags tell apart. */
  lemma BlockNumbers(g: Geometry, a: int)
    requires g.Ok()
    ensures var half := Pow2(63 - g.b);
      && 2 * half == Pow2(g.s) * Pow2(64 - g.s - g.b)
      && (0 <= a < TWO64 ==> 0 <= BlockOf(g, a) < 2 * half)
      && (-TWO63 <= a < TWO63 ==> -half <= BlockOf(g, a) < half)
  {
    Pow2Add(g.s, 64 - g.s - g.b);
    Pow2Add(g.b, 63 - g.b);
    Pow63();
    TwiceHalf(64 - g.b);
    hide Pow2;
    QuotientRange(a, Pow2(g.b), Pow2(63 - g.b));
  }

  lemma TwiceHalf(n: nat)
    requires n > 0
    ensures Pow2(n) == 2 * Pow2(n - 1)
  {}

  lemma QuotientRange(a: int, size: int, half: int)
    requires size > 0 && size * half == TWO63
    ensures 0 <= a < TWO64 ==> 0 <= a / size < 2 * half
    ensures -TWO63 <= a < TWO63 ==> -half <= a / size < half
  {
    var x, r := a / size, a % size;
    assert a == size * x + r && size * (2 * half) == 2 * (size * half) && size * (-half) == -(size * half);
    Between(size, x, r, 0, 2 * half);
    Between(size, x, r, -half, half);
  }

  lemma Between(d: int, x: int, r: int, lo: int, hi: int)
    requires 0 <= r < d
    ensures d * lo <= d * x + r < d * hi ==> lo <= x < hi
  {
    Difference(d, x, lo);
    Difference(d, hi, x);
    if d * lo <= d * x + r < d * hi {
      Multiples(d, x - lo);
      Multiples(d, hi - x);
    }
  }

  lemma BlockRange(g: Geometry, a: int, a': int, n: int)
    requires g.Ok() && Addresses(a, a')
    requires BlockOf(g, a) - BlockOf(g, a') == Pow2(g.s) * Pow2(64 - g.s - g.b) * n
    ensures BlockOf(g, a) == BlockOf(g, a')
  {
    BlockNumbers(g, a);
    BlockNumbers(g, a');
    hide Pow2, BlockOf;
    SmallMultiple(2 * Pow2(63 - g.b), n);
  }

  datatype State = State(sets: seq<CacheSet>, hit: nat, miss: nat, evict: nat)

  predicate Fits(g: Geometry, x: State) {
    g.Ok() && |x.sets| == g.Sets() && forall i :: 0 <= i < |x.sets| ==> |x.sets[i]| == g.lines
  }

  function Step(g: Geometry, x: State, a: Access): (y: State)
    requires Fits(g, x)
    ensures Fits(g, y)
  {
    if !Counted(a) then x
    else
      var i, tag := SetOf(g, a.addr), TagOf(g, a.addr);
      var lines := x.sets[i];
      State(x.sets[i := Touch(lines, Use(tag, a.time))],
            x.hit + One(Hits(lines, tag)) + One(a.op == 'M'), x.miss + One(!Hits(lines, tag)), x.evict + One(Evicts(lines, tag)))
  }

  function Start(g: Geometry): (x: State)
    requires g.Ok()
    ensures Fits(g, x)
  {
    State(seq(g.Sets(), _ => Empty(g.lines)), 0, 0, 0)
  }

  function Run(g: Geometry, trace: seq<Access>): (x: State)
    requires g.Ok()
    ensures Fits(g, x)
  {
    if trace == [] then Start(g) else Step(g, Run(g, trace[..|trace| - 1]), trace[|trace| - 1])
  }

  // ----- each set sees its own accesses -----

  predicate Concerns(g: Geometry, a: Access, i: nat) {
    Counted(a) && SetOf(g, a.addr) == i
  }

  function UsesOf(g: Geometry, trace: seq<Access>, i: nat): seq<Use>
    requires g.Ok()
  {
    if trace == [] then []
    else
      var before, a := trace[..|trace| - 1], trace[|trace| - 1];
      UsesOf(g, before, i) + if Concerns(g, a, i) then [Use(TagOf(g, a.addr), a.time)] else []
  }

  lemma {:induction false} SetsAreIndependent(g: Geometry, trace: seq<Access>, i: nat)
    requires g.Ok() && i < g.Sets()
    ensures Run(g, trace).sets[i] == After(UsesOf(g, trace, i), g.lines)
  {
    if trace != [] {
      var before, a := trace[..|trace| - 1], trace[|trace| - 1];
      SetsAreIndependent(g, before, i);
      if Concerns(g, a, i) {
        var uses, u := UsesOf(g, before, i), Use(TagOf(g, a.addr), a.time);
        assert (uses + [u])[..|uses|] == uses;
        assert UsesOf(g, trace, i) == uses + [u];
        assert After(uses + [u], g.lines) == Touch(After(uses, g.lines), u);
      } else {
        assert UsesOf(g, trace, i) == UsesOf(g, before, i);
      }
    }
  }

  /** The clock does not go back between the accesses to set i, and where it stands still the order of use
      can be told all the same. Ties between accesses to different sets do not matter. */
  predicate ClockServes(g: Geometry, trace: seq<Access>, i: nat)
    requires g.Ok()
  {
    NonDecreasing(Times(UsesOf(g, trace, i))) && TiesHarmless(Times(UsesOf(g, trace, i)), g.lines)
  }

  /** Every set is least recently used: after any trace over which the clock serves it, it holds the tags of
      its own accesses that fewer than E others have followed. */
  lemma EverySetIsLru(g: Geometry, trace: seq<Access>, i: nat, tag: int)
    requires g.Ok() && i < g.Sets() && ClockServes(g, trace, i)
    ensures var uses := UsesOf(g, trace, i);
      Held(Run(g, trace).sets[i], tag) <==> Used(uses, tag) && |Since(uses, tag)| < g.lines
  {
    SetsAreIndependent(g, trace, i);
    HoldsRecentTags(UsesOf(g, trace, i), g.lines, tag);
  }

  lemma ServesBefore(g: Geometry, trace: seq<Access>, i: nat)
    requires g.Ok() && trace != [] && ClockServes(g, trace, i)
    ensures ClockServes(g, trace[..|trace| - 1], i)
  {
    var uses, before := UsesOf(g, trace, i), UsesOf(g, trace[..|trace| - 1], i);
    assert forall k :: 0 <= k < |before| ==> uses[k] == before[k];
  }

  /** A clock that advances between any two accesses serves every set. */
  lemma TickingServes(g: Geometry, trace: seq<Access>, i: nat)
    requires g.Ok() && forall j, k :: 0 <= j < k < |trace| ==> trace[j].time < trace[k].time
    ensures ClockServes(g, trace, i)
  {
    UsesIncrease(g, trace, i);
    IncreasingIsHarmless(UsesOf(g, trace, i), g.lines);
  }

  lemma {:induction false} UsesIncrease(g: Geometry, trace: seq<Access>, i: nat)
    requires g.Ok() && forall j, k :: 0 <= j < k < |trace| ==> trace[j].time < trace[k].time
    ensures Increasing(UsesOf(g, trace, i))
    ensures forall k :: 0 <= k < |UsesOf(g, trace, i)| ==>
      trace != [] && UsesOf(g, trace, i)[k].time <= trace[|trace| - 1].time
  {
    if trace != [] {
      var before := trace[..|trace| - 1];
      UsesIncrease(g, before, i);
      assert before != [] ==> before[|before| - 1].time < trace[|trace| - 1].time;
    }
  }

  /** The same accesses, at whatever times. */
  predicate SameAccesses(trace: seq<Access>, trace': seq<Access>) {
    |trace| == |trace'| && forall k :: 0 <= k < |trace| ==> trace[k].op == trace'[k].op && trace[k].addr == trace'[k].addr
  }

  /** With more lines in each set no trace has fewer hits or more misses, although the two runs have clocks
      of their own. */
  lemma {:induction false} MoreLinesHitMore(g: Geometry, trace: seq<Access>, m: nat, trace': seq<Access>)
    requires g.Ok() && g.lines <= m && SameAccesses(trace, trace')
    requires forall i :: 0 <= i < g.Sets() ==> ClockServes(g, trace, i) && ClockServes(g.(lines := m), trace', i)
    ensures Run(g, trace).hit <= Run(g.(lines := m), trace').hit
    ensures Run(g.(lines := m), trace').miss <= Run(g, trace).miss
  {
    hide Held, ClockServes, Touch, Hits, Evicts, UsesOf, Pow2;
    if trace != [] {
      var g', before, before', a := g.(lines := m), trace[..|trace| - 1], trace'[..|trace| - 1], trace[|trace| - 1];
      forall i | 0 <= i < g.Sets() ensures ClockServes(g, before, i) && ClockServes(g', before', i) {
        ServesBefore(g, trace, i);
        ServesBefore(g', trace', i);
      }
      MoreLinesHitMore(g, before, m, before');
      MoreLinesHit(g, before, m, before', SetOf(g, a.addr), TagOf(g, a.addr));
    }
  }

  lemma MoreLinesHit(g: Geometry, trace: seq<Access>, m: nat, trace': seq<Access>, i: nat, tag: int)
    requires g.Ok() && g.lines <= m && SameAccesses(trace, trace') && i < g.Sets()
    requires ClockServes(g, trace, i) && ClockServes(g.(lines := m), trace', i)
    ensures Hits(Run(g, trace).sets[i], tag) ==> Hits(Run(g.(lines := m), trace').sets[i], tag)
  {
    hide Held;
    var g' := g.(lines := m);
    UsesAlike(g, trace, m, trace', i);
    SetsAreIndependent(g, trace, i);
    SetsAreIndependent(g', trace', i);
    HitsIsHeld(Run(g, trace).sets[i], tag);
    HitsIsHeld(Run(g', trace').sets[i], tag);
    if Hits(Run(g, trace).sets[i], tag) {
      MoreLinesHoldMore(UsesOf(g, trace, i), g.lines, UsesOf(g', trace', i), m, tag);
    }
  }

  lemma {:induction false} UsesAlike(g: Geometry, trace: seq<Access>, m: nat, trace': seq<Access>, i: nat)
    requires g.Ok() && m > 0 && SameAccesses(trace, trace')
    ensures TagsAlike(UsesOf(g, trace, i), UsesOf(g.(lines := m), trace', i))
  {
    if trace != [] {
      UsesAlike(g, trace[..|trace| - 1], m, trace'[..|trace| - 1], i);
    }
  }

  // ----- blocks -----

  /** An access to the block of the access right before it is a hit. */
  lemma SameBlockHits(g: Geometry, trace: seq<Access>, a: Access, a': Access)
    requires g.Ok() && Counted(a) && Counted(a') && Addresses(a.addr, a'.addr)
    requires BlockOf(g, a.addr) == BlockOf(g, a'.addr)
    ensures var x, y := Run(g, trace + [a]), Run(g, trace + [a, a']);
      y.hit == x.hit + (if a'.op == 'M' then 2 else 1) && y.miss == x.miss && y.evict == x.evict
  {
    SameBlock(g, a.addr, a'.addr);
    RunMore(g, trace, a);
    RunMore(g, trace + [a], a');
    assert trace + [a] + [a'] == trace + [a, a'];
    hide SetOf, TagOf, Run;
    var lines, u := Run(g, trace).sets[SetOf(g, a.addr)], Use(TagOf(g, a.addr), a.time);
    assert Has(Touch(lines, u)[Slot(lines, u.tag)], u.tag);
    HitsIsHeld(Touch(lines, u), u.tag);
  }

  lemma RunMore(g: Geometry, trace: seq<Access>, a: Access)
    requires g.Ok()
    ensures Run(g, trace + [a]) == Step(g, Run(g, trace), a)
  {
    assert (trace + [a])[..|trace|] == trace;
  }

  /** No access of the trace has been to the block. */
  predicate NewBlock(g: Geometry, trace: seq<Access>, addr: int) {
    forall j :: 0 <= j < |trace| && Counted(trace[j]) ==>
      Addresses(trace[j].addr, addr) && BlockOf(g, trace[j].addr) != BlockOf(g, addr)
  }

  /** The first access to a block is a miss, under any clock. */
  lemma NewBlockMisses(g: Geometry, trace: seq<Access>, a: Access)
    requires g.Ok() && Counted(a) && NewBlock(g, trace, a.addr)
    ensures var x, y := Run(g, trace), Run(g, trace + [a]);
      y.miss == x.miss + 1 && y.hit == x.hit + if a.op == 'M' then 1 else 0
  {
    RunMore(g, trace, a);
    NotHeldYet(g, trace, a.addr);
    hide SetOf, TagOf, Run;
    HitsIsHeld(Run(g, trace).sets[SetOf(g, a.addr)], TagOf(g, a.addr));
  }

  lemma {:induction false} NotHeldYet(g: Geometry, trace: seq<Access>, addr: int)
    requires g.Ok() && NewBlock(g, trace, addr)
    ensures !Held(Run(g, trace).sets[SetOf(g, addr)], TagOf(g, addr))
  {
    if trace != [] {
      var before, a := trace[..|trace| - 1], trace[|trace| - 1];
      NotHeldYet(g, before, addr);
      if Counted(a) {
        assert trace[|trace| - 1] == a;
        SameBlock(g, a.addr, addr);
      }
      hide SetOf, TagOf;
    }
  }

  // ----- what is counted -----

  function Tally(trace: seq<Access>, op: char): nat {
    if trace == [] then 0 else Tally(trace[..|trace| - 1], op) + One(trace[|trace| - 1].op == op)
  }

  function Valid(lines: CacheSet): nat {
    if lines == [] then 0 else Valid(lines[..|lines| - 1]) + One(lines[|lines| - 1].valid)
  }

  function ValidLines(sets: seq<CacheSet>): nat {
    if sets == [] then 0 else ValidLines(sets[..|sets| - 1]) + Valid(sets[|sets| - 1])
  }

  lemma {:induction false} ValidReplaced(lines: CacheSet, k: nat, line: Line)
    requires k < |lines|
    ensures Valid(lines[k := line]) == Valid(lines) - One(lines[k].valid) + One(line.valid)
  {
    var n := |lines| - 1;
    if k < n {
      ValidReplaced(lines[..n], k, line);
      assert lines[k := line][..n] == lines[..n][k := line];
    } else {
      assert lines[k := line][..n] == lines[..n];
    }
  }

  lemma {:induction false} ValidLinesReplaced(sets: seq<CacheSet>, i: nat, lines: CacheSet)
    requires i < |sets|
    ensures ValidLines(sets[i := lines]) == ValidLines(sets) - Valid(sets[i]) + Valid(lines)
  {
    var n := |sets| - 1;
    if i < n {
      ValidLinesReplaced(sets[..n], i, lines);
      assert sets[i := lines][..n] == sets[..n][i := lines];
    } else {
      assert sets[i := lines][..n] == sets[..n];
    }
  }

  lemma {:induction false} EmptyIsInvalid(n: nat)
    ensures Valid(Empty(n)) == 0
  {
    if n > 0 {
      EmptyIsInvalid(n - 1);
      assert Empty(n)[..n - 1] == Empty(n - 1);
    }
  }

  lemma {:induction false} AllInvalid(k: nat, n: nat)
    ensures ValidLines(seq(k, _ => Empty(n))) == 0
  {
    if k > 0 {
      AllInvalid(k - 1, n);
      EmptyIsInvalid(n);
      assert seq(k, _ => Empty(n))[..k - 1] == seq(k - 1, _ => Empty(n));
    }
  }

  /** Whatever the clock says, every load, store and the two halves of a modification is a hit or a miss,
      and every miss that evicts nothing leaves one more valid line. */
  lemma {:induction false} NothingIsLost(g: Geometry, trace: seq<Access>)
    requires g.Ok()
    ensures var x := Run(g, trace);
      && x.hit + x.miss == Tally(trace, 'L') + Tally(trace, 'S') + 2 * Tally(trace, 'M')
      && x.miss == x.evict + ValidLines(x.sets)
  {
    if trace == [] {
      AllInvalid(g.Sets(), g.lines);
    } else {
      var before, a := trace[..|trace| - 1], trace[|trace| - 1];
      NothingIsLost(g, before);
      if Counted(a) {
        var x, i, tag := Run(g, before), SetOf(g, a.addr), TagOf(g, a.addr);
        var lines := x.sets[i];
        ValidReplaced(lines, Slot(lines, tag), Line(true, tag, a.time));
        ValidLinesReplaced(x.sets, i, Touch(lines, Use(tag, a.time)));
        assert lines[Slot(lines, tag)].valid <==> Hits(lines, tag) || Evicts(lines, tag);
      }
    }
  }

  // ----- the simulator -----

  class Simulator {
    const g: Geometry
    const lines: array2<Line>
    var hit: nat
    var miss: nat
    var eviction: nat

    ghost predicate Ready() {
      g.Ok() && lines.Length0 == g.Sets() && lines.Length1 == g.lines
    }

    ghost function SetAt(i: nat): CacheSet
      reads lines
      requires i < lines.Length0
    {
      seq(lines.Length1, j requires 0 <= j < lines.Length1 reads lines => lines[i, j])
    }

    ghost function Now(): State
      reads this, lines
    {
      State(seq(lines.Length0, i requires 0 <= i < lines.Length0 reads lines => SetAt(i)), hit, miss, eviction)
    }

    constructor (g: Geometry)
      requires g.Ok()
      ensures Ready() && this.g == g && fresh(lines) && Now() == Start(g)
    {
      this.g := g;
      lines := new Line[g.Sets(), g.lines]((_, _) => Line(false, 0, 0));
      hit, miss, eviction := 0, 0, 0;
      new;
      assert forall i: nat :: i < lines.Length0 ==> SetAt(i) == Empty(g.lines);
    }

    /** The number of the line that holds the tag, or of lines in a set if there is none. */
    method FindLine(tag: int, i: nat) returns (k: nat)
      requires Ready() && i < lines.Length0
      ensures k == LineFrom(SetAt(i), tag, 0)
    {
      k := 0;
      while k < lines.Length1
        invariant k <= lines.Length1 && LineFrom(SetAt(i), tag, 0) == LineFrom(SetAt(i), tag, k)
      {
        if lines[i, k].valid && lines[i, k].tag == tag {
          return;
        }
        k := k + 1;
      }
    }

    method FindStore(i: nat) returns (k: nat, evicts: bool)
      requires Ready() && i < lines.Length0
      ensures (k, evicts) == StoreFrom(SetAt(i), 0, 0)
    {
      k := 0;
      var j := 0;
      while j < lines.Length1
        invariant j <= lines.Length1 && k < lines.Length1
        invariant StoreFrom(SetAt(i), 0, 0) == StoreFrom(SetAt(i), j, k)
      {
        if !lines[i, j].valid {
          return j, false;
        }
        if lines[i, j].usedTime < lines[i, k].usedTime {
          k := j;
        }
        j := j + 1;
      }
      evicts := true;
    }

    method UpdateCache(tag: int, i: nat, k: nat, time: int)
      requires Ready() && i < lines.Length0 && k < lines.Length1
      modifies lines
      ensures Now() == old(Now()).(sets := old(Now()).sets[i := old(SetAt(i))[k := Line(true, tag, time)]])
    {
      lines[i, k] := Line(true, tag, time);
      assert SetAt(i) == old(SetAt(i))[k := Line(true, tag, time)];
      assert forall j :: 0 <= j < lines.Length0 && j != i ==> SetAt(j) == old(SetAt(j));
    }

    method DealWith(a: Access)
      requires Ready()
      modifies this, lines
      ensures Now() == Step(g, old(Now()), a)
    {
      if !(a.op == 'L' || a.op == 'M' || a.op == 'S') {
        return;
      }
      var tag, i := TagOf(g, a.addr), SetOf(g, a.addr);
      var hits, evicts := true, false;
      var k := FindLine(tag, i);
      if k == lines.Length1 {
        hits := false;
        k, evicts := FindStore(i);
      }
      if hits {
        hit := hit + 1;
      } else {
        miss := miss + 1;
      }
      if evicts {
        eviction := eviction + 1;
      }
      if a.op == 'M' {
        hit := hit + 1;
      }
      UpdateCache(tag, i, k, a.time);
    }

    method DealWithFile(trace: seq<Access>)
      requires Ready() && Now() == Start(g)
      modifies this, lines
      ensures Now() == Run(g, trace)
    {
      var n := 0;
      assert trace[..0] == [];
      while n < |trace|
        invariant 0 <= n <= |trace| && Now() == Run(g, trace[..n])
      {
        assert trace[..n + 1][..n] == trace[..n];
        DealWith(trace[n]);
        n := n + 1;
      }
      assert trace[..n] == trace;
    }
  }
}
