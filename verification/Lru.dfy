/** One set of a cache: its lines, the choice of a line to replace, and what the set holds after a run. */
module Lru {
  import opened Arithmetic

  datatype Line = Line(valid: bool, tag: int, usedTime: int)

  type CacheSet = seq<Line>

  /** The tag of an access and what the clock says when the line is updated. */
  datatype Use = Use(tag: int, time: int)

  predicate Has(line: Line, tag: int) {
    line.valid && line.tag == tag
  }

  /** The first line from number i on that holds the tag, or the number of lines if none does. */
  function LineFrom(lines: CacheSet, tag: int, i: nat): (k: nat)
    requires i <= |lines|
    ensures i <= k <= |lines|
    ensures k < |lines| ==> Has(lines[k], tag)
    ensures forall j :: i <= j < k ==> !Has(lines[j], tag)
    decreases |lines| - i
  {
    if i == |lines| || Has(lines[i], tag) then i else LineFrom(lines, tag, i + 1)
  }

  /** From number i on, the first invalid line, or else the first of those used least recently, lru being
      the best of the lines before; and whether the line was in use. */
  function StoreFrom(lines: CacheSet, i: nat, lru: nat): (r: (nat, bool))
    requires lru < |lines| && i <= |lines|
    ensures r.0 < |lines|
    ensures r.1 <==> forall j :: i <= j < |lines| ==> lines[j].valid
    ensures !r.1 ==> i <= r.0 && !lines[r.0].valid && forall j :: i <= j < r.0 ==> lines[j].valid
    ensures r.1 ==> lines[r.0].usedTime <= lines[lru].usedTime && (r.0 == lru || i <= r.0)
    ensures r.1 ==> forall j :: i <= j < |lines| ==> lines[r.0].usedTime <= lines[j].usedTime
    ensures r.1 && r.0 != lru ==>
      lines[r.0].usedTime < lines[lru].usedTime && forall j :: i <= j < r.0 ==> lines[r.0].usedTime < lines[j].usedTime
    decreases |lines| - i
  {
    if i == |lines| then (lru, true)
    else if !lines[i].valid then (i, false)
    else StoreFrom(lines, i + 1, if lines[i].usedTime < lines[lru].usedTime then i else lru)
  }

  predicate Hits(lines: CacheSet, tag: int) {
    LineFrom(lines, tag, 0) < |lines|
  }

  predicate Evicts(lines: CacheSet, tag: int)
    requires |lines| > 0
  {
    !Hits(lines, tag) && StoreFrom(lines, 0, 0).1
  }

  /** The line that an access to the tag updates. */
  function Slot(lines: CacheSet, tag: int): (k: nat)
    requires |lines| > 0
    ensures k < |lines|
  {
    if Hits(lines, tag) then LineFrom(lines, tag, 0) else StoreFrom(lines, 0, 0).0
  }

  function Touch(lines: CacheSet, u: Use): CacheSet
    requires |lines| > 0
  {
    lines[Slot(lines, u.tag) := Line(true, u.tag, u.time)]
  }

  function Empty(n: nat): (lines: CacheSet)
    ensures |lines| == n
  {
    seq(n, _ => Line(false, 0, 0))
  }

  /** A set of n lines after the accesses. */
  function After(uses: seq<Use>, n: nat): (lines: CacheSet)
    requires n > 0
    ensures |lines| == n
  {
    if uses == [] then Empty(n) else Touch(After(uses[..|uses| - 1], n), uses[|uses| - 1])
  }

  // ----- least recently used, independently of lines and times -----

  predicate Used(uses: seq<Use>, tag: int) {
    exists i :: 0 <= i < |uses| && uses[i].tag == tag
  }

  /** The tags used since the last use of a given one. */
  function Since(uses: seq<Use>, tag: int): set<int> {
    if uses == [] || uses[|uses| - 1].tag == tag then {}
    else Since(uses[..|uses| - 1], tag) + {uses[|uses| - 1].tag}
  }

  predicate Increasing(uses: seq<Use>) {
    forall i, j :: 0 <= i < j < |uses| ==> uses[i].time < uses[j].time
  }

  /** The tag is in the set of lines. */
  predicate Held(lines: CacheSet, tag: int) {
    exists k :: 0 <= k < |lines| && Has(lines[k], tag)
  }

  lemma HitsIsHeld(lines: CacheSet, tag: int)
    ensures Hits(lines, tag) <==> Held(lines, tag)
  {
    if Held(lines, tag) {
      var k :| 0 <= k < |lines| && Has(lines[k], tag);
    }
  }

  // ----- the tags in order of use -----

  /** Where the tag first occurs, or the length if it does not. */
  function Position(tags: seq<int>, tag: int): (p: nat)
    ensures p <= |tags| && (p < |tags| ==> tags[p] == tag) && forall i :: 0 <= i < p ==> tags[i] != tag
  {
    if tags == [] || tags[0] == tag then 0 else 1 + Position(tags[1..], tag)
  }

  /** The tag moved to the front. */
  function Promoted(tags: seq<int>, tag: int): seq<int> {
    var p := Position(tags, tag);
    [tag] + tags[..p] + if p < |tags| then tags[p + 1..] else []
  }

  /** The distinct tags used, the latest first. */
  function Recent(uses: seq<Use>): seq<int> {
    if uses == [] then [] else Promoted(Recent(uses[..|uses| - 1]), uses[|uses| - 1].tag)
  }

  predicate Distinct(tags: seq<int>) {
    forall i, j :: 0 <= i < j < |tags| ==> tags[i] != tags[j]
  }

  lemma PromotedParts(tags: seq<int>, tag: int)
    requires Distinct(tags)
    ensures var t, p := Promoted(tags, tag), Position(tags, tag);
      && Distinct(t) && |t| == (if p < |tags| then |tags| else |tags| + 1) && t[0] == tag
      && (forall i :: 1 <= i <= p ==> t[i] == tags[i - 1])
      && (forall i :: p < i < |t| ==> t[i] == tags[i])
  {
    hide Position;
    var t, p := Promoted(tags, tag), Position(tags, tag);
    forall i, j | 0 <= i < j < |t| ensures t[i] != t[j] {
      var i', j' := if i <= p then i - 1 else i, if j <= p then j - 1 else j;
      assert t[j] == tags[j'];
      if i > 0 {
        assert t[i] == tags[i'];
      } else if p < |tags| {
        assert tags[p] == tag;
      }
    }
  }

  lemma PromotedMembers(tags: seq<int>, tag: int)
    ensures forall x :: x in Promoted(tags, tag) <==> x == tag || x in tags
  {
    var p := Position(tags, tag);
    assert tags == tags[..p] + if p < |tags| then [tags[p]] + tags[p + 1..] else [];
  }

  lemma UsedLater(uses: seq<Use>, tag: int)
    requires uses != []
    ensures Used(uses, tag) <==> uses[|uses| - 1].tag == tag || Used(uses[..|uses| - 1], tag)
  {
    var before := uses[..|uses| - 1];
    assert forall i :: 0 <= i < |before| ==> before[i] == uses[i];
    if Used(uses, tag) {
      var i :| 0 <= i < |uses| && uses[i].tag == tag;
      assert i < |before| ==> before[i].tag == tag;
    }
  }

  /** Each tag that was used is listed once. */
  lemma {:induction false} RecentIsDistinct(uses: seq<Use>)
    ensures Distinct(Recent(uses))
    ensures forall tag :: tag in Recent(uses) <==> Used(uses, tag)
  {
    if uses != [] {
      var before, u := uses[..|uses| - 1], uses[|uses| - 1];
      RecentIsDistinct(before);
      PromotedParts(Recent(before), u.tag);
      PromotedMembers(Recent(before), u.tag);
      forall tag ensures tag in Recent(uses) <==> Used(uses, tag) {
        UsedLater(uses, tag);
      }
    }
  }

  lemma PositionOf(tags: seq<int>, i: nat)
    requires Distinct(tags) && i < |tags|
    ensures Position(tags, tags[i]) == i
  {
    hide Position;
  }

  lemma PromotedPosition(tags: seq<int>, tag: int, x: int)
    requires Distinct(tags) && (x in tags || x == tag)
    ensures Position(Promoted(tags, tag), x)
         == if x == tag then 0 else Position(tags, x) + if Position(tags, x) < Position(tags, tag) then 1 else 0
  {
    PromotedParts(tags, tag);
    var i := Position(tags, x);
    PositionOf(Promoted(tags, tag), if x == tag then 0 else if i < Position(tags, tag) then i + 1 else i);
  }

  // ----- a tag's place in that order counts the tags used since -----

  function Members(tags: seq<int>): set<int> { set x | x in tags }

  lemma {:induction false} DistinctCount(tags: seq<int>)
    requires Distinct(tags)
    ensures |Members(tags)| == |tags|
  {
    if tags != [] {
      var before, x := tags[..|tags| - 1], tags[|tags| - 1];
      DistinctCount(before);
      assert tags == before + [x];
      assert Members(tags) == Members(before) + {x};
    }
  }

  lemma {:induction false} SinceIsAhead(uses: seq<Use>, tag: int)
    requires Used(uses, tag)
    ensures Since(uses, tag) == Members(Recent(uses)[..Position(Recent(uses), tag)])
  {
    var before, u := uses[..|uses| - 1], uses[|uses| - 1];
    RecentIsDistinct(before);
    UsedLater(uses, tag);
    if u.tag != tag {
      SinceIsAhead(before, tag);
      PromotedAhead(Recent(before), u.tag, tag);
    } else {
      PromotedPosition(Recent(before), u.tag, tag);
    }
  }

  lemma MembersConcat(s: seq<int>, t: seq<int>)
    ensures Members(s + t) == Members(s) + Members(t)
  {}

  lemma PromotedAhead(tags: seq<int>, tag: int, x: int)
    requires Distinct(tags) && x in tags && x != tag
    ensures var tags' := Promoted(tags, tag);
      Members(tags'[..Position(tags', x)]) == Members(tags[..Position(tags, x)]) + {tag}
  {
    hide Position, Members;
    var tags', p, q := Promoted(tags, tag), Position(tags, x), Position(tags, tag);
    PromotedPosition(tags, tag, x);
    assert Members([tag]) == {tag} by { MembersOfOne(tag); }
    if p < q {
      assert tags'[..p + 1] == [tag] + tags[..p];
      MembersConcat([tag], tags[..p]);
    } else {
      var rest := tags[q + 1..p];
      assert tags[..p] == (tags[..q] + [tag]) + rest;
      assert tags'[..p] == ([tag] + tags[..q]) + rest;
      MembersConcat(tags[..q], [tag]);
      MembersConcat(tags[..q] + [tag], rest);
      MembersConcat([tag], tags[..q]);
      MembersConcat([tag] + tags[..q], rest);
    }
  }

  lemma MembersOfOne(x: int)
    ensures Members([x]) == {x}
  {}

  lemma PositionCounts(uses: seq<Use>, tag: int)
    requires Used(uses, tag)
    ensures |Since(uses, tag)| == Position(Recent(uses), tag) < |Recent(uses)|
  {
    RecentIsDistinct(uses);
    SinceIsAhead(uses, tag);
    DistinctCount(Recent(uses)[..Position(Recent(uses), tag)]);
  }

  // ----- what the lines hold -----

  /** The lines hold the first tags of the list, and of two lines the one used later holds the earlier
      tag. Lines fill up in order. */
  ghost predicate Tracks(lines: CacheSet, tags: seq<int>, now: int) {
    var v := Min(|lines|, |tags|);
    && Distinct(tags)
    && (forall k :: 0 <= k < |lines| ==> (lines[k].valid <==> k < v))
    && (forall k :: 0 <= k < v ==> Position(tags, lines[k].tag) < v && lines[k].usedTime <= now)
    && (forall i :: 0 <= i < v ==> Held(lines, tags[i]))
    && (forall j, k :: 0 <= j < v && 0 <= k < v && j != k ==>
          lines[j].tag != lines[k].tag
          && (lines[j].usedTime < lines[k].usedTime <==> Position(tags, lines[k].tag) < Position(tags, lines[j].tag)))
  }

  lemma TracksHeld(lines: CacheSet, tags: seq<int>, now: int, tag: int)
    requires Tracks(lines, tags, now)
    ensures Held(lines, tag) <==> Position(tags, tag) < Min(|lines|, |tags|)
  {
    if Position(tags, tag) < Min(|lines|, |tags|) {
      assert Held(lines, tags[Position(tags, tag)]);
    }
  }

  /** A full set replaces the line with the last of the tags it holds. */
  lemma VictimIsOldest(lines: CacheSet, tags: seq<int>, now: int)
    requires Tracks(lines, tags, now) && 0 < |lines| <= |tags|
    ensures var (k, inUse) := StoreFrom(lines, 0, 0); inUse && lines[k].tag == tags[|lines| - 1]
  {
    hide Position;
    var n, k := |lines|, StoreFrom(lines, 0, 0).0;
    assert Held(lines, tags[n - 1]);
    var j :| 0 <= j < n && Has(lines[j], tags[n - 1]);
    PositionOf(tags, n - 1);
    assert Position(tags, lines[k].tag) < n && tags[Position(tags, lines[k].tag)] == lines[k].tag;
    assert lines[k].usedTime <= lines[j].usedTime;
  }

  /** The line k that a use of the tag goes to: the one that holds it, the first free one, or the oldest. */
  predicate GoesTo(lines: CacheSet, tags: seq<int>, tag: int, k: nat) {
    var n, v, q := |lines|, Min(|lines|, |tags|), Position(tags, tag);
    || (k < v && lines[k].tag == tag && q < v)
    || (k == v < n && q == v)
    || (k < v == n && lines[k].tag == tags[n - 1] && q >= v)
  }

  lemma SlotIsRight(lines: CacheSet, tags: seq<int>, now: int, tag: int)
    requires Tracks(lines, tags, now) && |lines| > 0
    ensures GoesTo(lines, tags, tag, Slot(lines, tag))
  {
    hide Position;
    TracksHeld(lines, tags, now, tag);
    HitsIsHeld(lines, tag);
    var v := Min(|lines|, |tags|);
    if Held(lines, tag) {
      assert Has(lines[Slot(lines, tag)], tag);
    } else if v == |lines| {
      VictimIsOldest(lines, tags, now);
    } else {
      assert !lines[v].valid && Slot(lines, tag) == v;
    }
  }

  lemma TouchTracks(lines: CacheSet, tags: seq<int>, now: int, u: Use)
    requires Tracks(lines, tags, now) && |lines| > 0 && now < u.time
    ensures Tracks(Touch(lines, u), Promoted(tags, u.tag), u.time)
  {
    hide Position, Slot, Held, Promoted;
    var k, lines', tags' := Slot(lines, u.tag), Touch(lines, u), Promoted(tags, u.tag);
    SlotIsRight(lines, tags, now, u.tag);
    PromotedParts(tags, u.tag);
    forall j | 0 <= j < Min(|lines|, |tags'|)
      ensures Position(tags', lines'[j].tag) < Min(|lines|, |tags'|) && lines'[j].usedTime <= u.time
    {
      KeepsOrder(lines, tags, now, u, k, j);
    }
    forall i | 0 <= i < Min(|lines|, |tags'|) ensures Held(lines', tags'[i]) {
      StaysHeld(lines, tags, now, u, k, i);
    }
    forall j, l | 0 <= j < Min(|lines|, |tags'|) && 0 <= l < Min(|lines|, |tags'|) && j != l
      ensures lines'[j].tag != lines'[l].tag
      ensures lines'[j].usedTime < lines'[l].usedTime
           <==> Position(tags', lines'[l].tag) < Position(tags', lines'[j].tag)
    {
      KeepsOrder(lines, tags, now, u, k, j);
      KeepsOrder(lines, tags, now, u, k, l);
    }
  }

  /** The place of line j's tag after the use. */
  lemma KeepsOrder(lines: CacheSet, tags: seq<int>, now: int, u: Use, k: nat, j: nat)
    requires Tracks(lines, tags, now) && now < u.time && GoesTo(lines, tags, u.tag, k)
    requires j < Min(|lines|, |Promoted(tags, u.tag)|)
    ensures var line, tags', q := lines[k := Line(true, u.tag, u.time)][j], Promoted(tags, u.tag), Position(tags, u.tag);
      && Position(tags', line.tag) < Min(|lines|, |tags'|) && line.usedTime <= u.time
      && (j == k ==> Position(tags', line.tag) == 0)
      && (j != k ==>
          && j < Min(|lines|, |tags|) && line.usedTime < u.time && line.tag != u.tag
          && Position(tags, line.tag) != q
          && Position(tags', line.tag) == Position(tags, line.tag) + if Position(tags, line.tag) < q then 1 else 0)
  {
    hide Position, Held, Promoted;
    PromotedParts(tags, u.tag);
    var line := lines[k := Line(true, u.tag, u.time)][j];
    if j == k {
      PromotedPosition(tags, u.tag, u.tag);
    } else {
      PromotedPosition(tags, u.tag, line.tag);
      if |lines| <= |tags| {
        PositionOf(tags, |lines| - 1);
      }
    }
  }

  lemma StaysHeld(lines: CacheSet, tags: seq<int>, now: int, u: Use, k: nat, i: nat)
    requires Tracks(lines, tags, now) && GoesTo(lines, tags, u.tag, k) && i < Min(|lines|, |Promoted(tags, u.tag)|)
    ensures Held(lines[k := Line(true, u.tag, u.time)], Promoted(tags, u.tag)[i])
  {
    hide Position, Promoted;
    PromotedParts(tags, u.tag);
    var lines' := lines[k := Line(true, u.tag, u.time)];
    if i == 0 {
      assert Has(lines'[k], u.tag);
    } else {
      var i' := if i <= Position(tags, u.tag) then i - 1 else i;
      assert Held(lines, tags[i']);
      var j :| 0 <= j < |lines| && Has(lines[j], tags[i']);
      assert j != k;
      assert Has(lines'[j], tags[i']);
    }
  }

  lemma {:induction false} AfterTracks(uses: seq<Use>, n: nat)
    requires Increasing(uses) && n > 0
    ensures Tracks(After(uses, n), Recent(uses), if uses == [] then 0 else uses[|uses| - 1].time)
  {
    if uses != [] {
      var before, u := uses[..|uses| - 1], uses[|uses| - 1];
      AfterTracks(before, n);
      if before == [] {
        assert Tracks(Empty(n), [], u.time - 1);
      }
      var now := if before == [] then u.time - 1 else before[|before| - 1].time;
      TouchTracks(After(before, n), Recent(before), now, u);
    }
  }

  lemma HoldsRecentTicks(uses: seq<Use>, n: nat, tag: int)
    requires Increasing(uses) && n > 0
    ensures LeastRecent(uses, n, tag)
  {
    var tags, now := Recent(uses), if uses == [] then 0 else uses[|uses| - 1].time;
    AfterTracks(uses, n);
    RecentIsDistinct(uses);
    TracksHeld(After(uses, n), tags, now, tag);
    if Used(uses, tag) {
      PositionCounts(uses, tag);
    }
  }

  // ----- a clock that may stand still -----

  /** Least recently used: a set of n lines holds the tag exactly if it was used and fewer than n other tags
      have been used since. */
  predicate LeastRecent(uses: seq<Use>, n: nat, tag: int)
    requires n > 0
  {
    Held(After(uses, n), tag) <==> Used(uses, tag) && |Since(uses, tag)| < n
  }

  function Times(uses: seq<Use>): (ts: seq<int>)
    ensures |ts| == |uses| && forall i :: 0 <= i < |ts| ==> ts[i] == uses[i].time
  {
    seq(|uses|, i requires 0 <= i < |uses| => uses[i].time)
  }

  predicate NonDecreasing(ts: seq<int>) {
    forall i, j :: 0 <= i < j < |ts| ==> ts[i] <= ts[j]
  }

  /** Clock values at which the order of use can always be told: they increase strictly from the second
      access on, except among the last n, none of which is replaced any more. */
  predicate TiesHarmless(ts: seq<int>, n: nat)
    requires n > 0
  {
    n == 1 || forall i, j :: 1 <= i < j <= |ts| - n ==> ts[i] < ts[j]
  }

  /** The same accesses, each at the time of its own number. */
  function Ticking(uses: seq<Use>): (ticks: seq<Use>)
    ensures |ticks| == |uses| && forall i :: 0 <= i < |ticks| ==> ticks[i] == Use(uses[i].tag, i)
  {
    seq(|uses|, i requires 0 <= i < |uses| => Use(uses[i].tag, i))
  }

  /** The lines hold the same tags; ticks has the number of the access where lines has its time. The first
      access of all is in the first line. */
  ghost predicate Mirrors(lines: CacheSet, ticks: CacheSet, uses: seq<Use>) {
    && |lines| == |ticks|
    && (forall k :: 0 <= k < |lines| ==> lines[k].valid == ticks[k].valid)
    && (forall k :: 0 <= k < |lines| && ticks[k].valid ==> MirrorsLine(lines[k], ticks[k], uses) && (ticks[k].usedTime == 0 ==> k == 0))
  }

  predicate MirrorsLine(line: Line, tick: Line, uses: seq<Use>) {
    0 <= tick.usedTime < |uses| && line.tag == tick.tag == uses[tick.usedTime].tag && line.usedTime == uses[tick.usedTime].time
  }

  lemma {:induction false} SameLine(lines: CacheSet, ticks: CacheSet, uses: seq<Use>, tag: int, i: nat)
    requires Mirrors(lines, ticks, uses) && i <= |lines|
    ensures LineFrom(lines, tag, i) == LineFrom(ticks, tag, i)
    decreases |lines| - i
  {
    if i < |lines| {
      SameLine(lines, ticks, uses, tag, i + 1);
    }
  }

  lemma {:induction false} SinceBound(uses: seq<Use>, tag: int, p: nat)
    requires p < |uses| && uses[p].tag == tag
    ensures |Since(uses, tag)| < |uses| - p
  {
    var last := |uses| - 1;
    if uses[last].tag != tag {
      SinceBound(uses[..last], tag, p);
    }
  }

  /** The oldest line of a full set was used before the last n accesses. */
  lemma OldestIsEarly(uses: seq<Use>, n: nat, k: nat)
    requires n > 0 && k == StoreFrom(After(Ticking(uses), n), 0, 0).0
    requires forall j :: 0 <= j < n ==> After(Ticking(uses), n)[j].valid
    requires var line := After(Ticking(uses), n)[k]; 0 <= line.usedTime < |uses| && line.tag == uses[line.usedTime].tag
    ensures After(Ticking(uses), n)[k].usedTime <= |uses| - n
  {
    var ticks, lines := Ticking(uses), After(Ticking(uses), n);
    AfterTracks(ticks, n);
    assert lines[n - 1].valid;
    VictimIsOldest(lines, Recent(ticks), |uses| - 1);
    RecentIsDistinct(ticks);
    PositionOf(Recent(ticks), n - 1);
    PositionCounts(ticks, lines[k].tag);
    SinceBound(ticks, lines[k].tag, lines[k].usedTime);
  }

  /** Both clocks replace the same line. */
  lemma SameVictim(uses: seq<Use>, u: Use, n: nat)
    requires n > 0 && NonDecreasing(Times(uses + [u])) && TiesHarmless(Times(uses + [u]), n)
    requires Mirrors(After(uses, n), After(Ticking(uses), n), uses)
    ensures StoreFrom(After(uses, n), 0, 0) == StoreFrom(After(Ticking(uses), n), 0, 0)
  {
    hide Times, Ticking, After, StoreFrom, Held, LineFrom, TiesHarmless, NonDecreasing;
    var lines, ticks, ts := After(uses, n), After(Ticking(uses), n), Times(uses + [u]);
    var k, k' := StoreFrom(lines, 0, 0).0, StoreFrom(ticks, 0, 0).0;
    if StoreFrom(ticks, 0, 0).1 && n > 1 && k != k' {
      AfterTracks(Ticking(uses), n);
      TickingIncreases(uses);
      var p, q := ticks[k'].usedTime, ticks[k].usedTime;
      assert ticks[k].valid && ticks[k'].valid;
      assert MirrorsLine(lines[k], ticks[k], uses) && MirrorsLine(lines[k'], ticks[k'], uses);
      assert ticks[k].tag != ticks[k'].tag && p <= q && p != q;
      assert lines[k].usedTime == ts[q] && lines[k'].usedTime == ts[p];
      OldestIsEarly(uses, n, k');
      LaterIsLater(ts, n, p, q);
    }
  }

  lemma LaterIsLater(ts: seq<int>, n: nat, p: nat, q: nat)
    requires n > 1 && NonDecreasing(ts) && TiesHarmless(ts, n) && p < q < |ts| && p < |ts| - n
    ensures ts[p] <= ts[q] && (p >= 1 ==> ts[p] < ts[q])
  {
    if p >= 1 {
      assert ts[p] < ts[p + 1];
    }
  }

  lemma TickingIncreases(uses: seq<Use>)
    ensures Increasing(Ticking(uses))
  {}

  /** What the last access adds. */
  lemma LastAccess(before: seq<Use>, u: Use, n: nat)
    requires n > 0 && NonDecreasing(Times(before + [u])) && TiesHarmless(Times(before + [u]), n)
    ensures NonDecreasing(Times(before)) && TiesHarmless(Times(before), n)
    ensures After(before + [u], n) == Touch(After(before, n), u)
    ensures After(Ticking(before + [u]), n) == Touch(After(Ticking(before), n), Use(u.tag, |before|))
  {
    var uses := before + [u];
    assert forall i :: 0 <= i < |before| ==> uses[i] == before[i];
    assert uses[..|before|] == before && Ticking(uses)[..|before|] == Ticking(before);
  }

  lemma {:induction false} AfterMirrors(uses: seq<Use>, n: nat)
    requires n > 0 && NonDecreasing(Times(uses)) && TiesHarmless(Times(uses), n)
    ensures Mirrors(After(uses, n), After(Ticking(uses), n), uses)
  {
    if uses != [] {
      hide StoreFrom, LineFrom, Times, Ticking, Mirrors, NonDecreasing, TiesHarmless, Touch;
      var before, u := uses[..|uses| - 1], uses[|uses| - 1];
      assert before + [u] == uses;
      LastAccess(before, u, n);
      AfterMirrors(before, n);
      SameVictim(before, u, n);
      assert before == [] ==> !After(before, n)[0].valid && !After(Ticking(before), n)[0].valid;
      hide After;
      SameLine(After(before, n), After(Ticking(before), n), before, u.tag, 0);
      MirrorStep(After(before, n), After(Ticking(before), n), before, u);
    }
  }

  lemma MirrorStep(lines: CacheSet, ticks: CacheSet, uses: seq<Use>, u: Use)
    requires Mirrors(lines, ticks, uses) && |lines| > 0 && Slot(lines, u.tag) == Slot(ticks, u.tag)
    requires uses == [] ==> Slot(ticks, u.tag) == 0
    ensures Mirrors(Touch(lines, u), Touch(ticks, Use(u.tag, |uses|)), uses + [u])
  {
    hide Slot;
    var uses' := uses + [u];
    assert forall i :: 0 <= i < |uses| ==> uses'[i] == uses[i];
  }

  /** The accesses use the same tags, at whatever times. */
  predicate TagsAlike(uses: seq<Use>, uses': seq<Use>) {
    |uses| == |uses'| && forall i :: 0 <= i < |uses| ==> uses[i].tag == uses'[i].tag
  }

  lemma {:induction false} SameTags(uses: seq<Use>, uses': seq<Use>, tag: int)
    requires TagsAlike(uses, uses')
    ensures Used(uses, tag) <==> Used(uses', tag)
    ensures Since(uses, tag) == Since(uses', tag)
  {
    if uses != [] {
      SameTags(uses[..|uses| - 1], uses'[..|uses| - 1], tag);
    }
  }

  /** With harmless ties, as with none, every set is least recently used. */
  lemma HoldsRecentTags(uses: seq<Use>, n: nat, tag: int)
    requires n > 0 && NonDecreasing(Times(uses)) && TiesHarmless(Times(uses), n)
    ensures LeastRecent(uses, n, tag)
  {
    AfterMirrors(uses, n);
    TickingIncreases(uses);
    HoldsRecentTicks(Ticking(uses), n, tag);
    SameTags(uses, Ticking(uses), tag);
    SameLine(After(uses, n), After(Ticking(uses), n), uses, tag, 0);
    HitsIsHeld(After(uses, n), tag);
    HitsIsHeld(After(Ticking(uses), n), tag);
  }

  lemma IncreasingIsHarmless(uses: seq<Use>, n: nat)
    requires Increasing(uses) && n > 0
    ensures NonDecreasing(Times(uses)) && TiesHarmless(Times(uses), n)
  {}

  /** Inclusion: more lines hold at least as much, even if the clock has other values there. */
  lemma MoreLinesHoldMore(uses: seq<Use>, n: nat, uses': seq<Use>, m: nat, tag: int)
    requires 0 < n <= m && TagsAlike(uses, uses') && Held(After(uses, n), tag)
    requires NonDecreasing(Times(uses)) && TiesHarmless(Times(uses), n)
    requires NonDecreasing(Times(uses')) && TiesHarmless(Times(uses'), m)
    ensures Held(After(uses', m), tag)
  {
    HoldsRecentTags(uses, n, tag);
    HoldsRecentTags(uses', m, tag);
    SameTags(uses, uses', tag);
  }

  // ----- where ties do harm -----

  /** What happens to the tags of a set of n lines at the given clock values. */
  function Zip(tags: seq<int>, ts: seq<int>): (uses: seq<Use>)
    requires |tags| == |ts|
    ensures |uses| == |ts| && forall i :: 0 <= i < |ts| ==> uses[i] == Use(tags[i], ts[i])
  {
    seq(|ts|, i requires 0 <= i < |ts| => Use(tags[i], ts[i]))
  }

  ghost predicate LruThroughout(uses: seq<Use>, n: nat)
    requires n > 0
  {
    forall p, tag :: 0 <= p <= |uses| ==> LeastRecent(uses[..p], n, tag)
  }

  /** Tag 0 until 1 is used in access i, then 0 again and n - 2 others, and last tag n. */
  function Misleading(length: nat, n: nat, i: nat): (tags: seq<int>)
    ensures |tags| == length
  {
    seq(length, k => if k < i || k == i + 1 then 0 else if k == i then 1 else if k < i + n then k - i else n)
  }

  /** The lines after the first p of these accesses. */
  function Misled(ts: seq<int>, n: nat, i: nat, p: nat): CacheSet
    requires 1 <= i < i + n < |ts| && n >= 2 && p <= i + n
  {
    seq(n, k =>
      if k == 0 && p > 0 then Line(true, 0, if p <= i then ts[p - 1] else if p == i + 1 then ts[i - 1] else ts[i + 1])
      else if k == 1 && p > i then Line(true, 1, ts[i])
      else if 1 < k < p - i then Line(true, k, ts[i + k])
      else Line(false, 0, 0))
  }

  lemma {:induction false} MisledAfter(ts: seq<int>, n: nat, i: nat, p: nat)
    requires 1 <= i < i + n < |ts| && n >= 2 && p <= i + n
    ensures After(Zip(Misleading(|ts|, n, i), ts)[..p], n) == Misled(ts, n, i, p)
  {
    hide Misleading, Misled, Zip, Slot;
    var uses := Zip(Misleading(|ts|, n, i), ts);
    if p == 0 {
      assert uses[..0] == [];
      MisledFirst(ts, n, i);
    } else {
      MisledAfter(ts, n, i, p - 1);
      assert uses[..p][..p - 1] == uses[..p - 1] && uses[..p][p - 1] == uses[p - 1];
      MisledSlot(ts, n, i, p - 1);
      MisledStep(ts, n, i, p - 1);
    }
  }

  lemma MisledFirst(ts: seq<int>, n: nat, i: nat)
    requires 1 <= i < i + n < |ts| && n >= 2
    ensures Misled(ts, n, i, 0) == Empty(n)
  {}

  lemma MisledStep(ts: seq<int>, n: nat, i: nat, p: nat)
    requires 1 <= i < i + n < |ts| && n >= 2 && p < i + n
    ensures var k := if p < i || p == i + 1 then 0 else if p == i then 1 else p - i;
      k < n && Misled(ts, n, i, p)[k := Line(true, Misleading(|ts|, n, i)[p], ts[p])] == Misled(ts, n, i, p + 1)
  {}

  lemma MisledSlot(ts: seq<int>, n: nat, i: nat, p: nat)
    requires 1 <= i < i + n < |ts| && n >= 2 && p < i + n
    ensures Slot(Misled(ts, n, i, p), Misleading(|ts|, n, i)[p]) == if p < i || p == i + 1 then 0 else if p == i then 1 else p - i
  {
    var lines, tag := Misled(ts, n, i, p), Misleading(|ts|, n, i)[p];
    if tag == 0 && p > 0 {
      assert Has(lines[0], 0);
    } else {
      assert !lines[if p == 0 then 0 else if p == i then 1 else p - i].valid;
    }
  }

  /** If access i has the time of the next and n - 1 more follow, the last of those throws out tag 0, which
      was used after tag 1. */
  lemma MisleadingFails(ts: seq<int>, n: nat, i: nat)
    requires 1 <= i < i + n < |ts| && n >= 2 && NonDecreasing(ts) && ts[i] == ts[i + 1]
    ensures !LeastRecent(Zip(Misleading(|ts|, n, i), ts)[..i + n + 1], n, 0)
  {
    hide After, Misleading, Zip, Since;
    var uses, p := Zip(Misleading(|ts|, n, i), ts), i + n;
    var lines := Misled(ts, n, i, p);
    MisledAfter(ts, n, i, p);
    MisleadingTags(|ts|, n, i);
    assert uses[..p + 1][..p] == uses[..p] && uses[..p + 1][p] == Use(n, ts[p]);
    AfterMore(uses[..p + 1], n);
    assert forall k :: 0 <= k < n ==> lines[k].valid && lines[k].tag == k && lines[0].usedTime <= lines[k].usedTime;
    assert !Hits(lines, n) && Slot(lines, n) == 0;
    assert uses[..p + 1][i + 1] == Use(0, ts[i + 1]);
    SinceBound(uses[..p + 1], 0, i + 1);
  }

  lemma MisleadingTags(length: nat, n: nat, i: nat)
    requires i + n < length && n >= 2
    ensures Misleading(length, n, i)[i + n] == n && Misleading(length, n, i)[i + 1] == 0
  {}

  lemma AfterMore(uses: seq<Use>, n: nat)
    requires uses != [] && n > 0
    ensures After(uses, n) == Touch(After(uses[..|uses| - 1], n), uses[|uses| - 1])
  {}

  /** When the clock does not go back, a set of n lines is least recently used after every access, whatever
      the tags, if and only if the ties are harmless. */
  lemma LruExactly(ts: seq<int>, n: nat)
    requires n > 0 && NonDecreasing(ts)
    ensures TiesHarmless(ts, n) <==> forall tags: seq<int> :: |tags| == |ts| ==> LruThroughout(Zip(tags, ts), n)
  {
    if TiesHarmless(ts, n) {
      forall tags: seq<int> | |tags| == |ts| ensures LruThroughout(Zip(tags, ts), n) {
        HarmlessThroughout(Zip(tags, ts), n);
      }
    } else {
      var i := FirstTie(ts, n);
      MisleadingFails(ts, n, i);
      assert !LruThroughout(Zip(Misleading(|ts|, n, i), ts), n);
    }
  }

  lemma FirstTie(ts: seq<int>, n: nat) returns (i: nat)
    requires n > 0 && NonDecreasing(ts) && !TiesHarmless(ts, n)
    ensures n >= 2 && 1 <= i < i + n < |ts| && ts[i] == ts[i + 1]
  {
    var a, b :| 1 <= a < b <= |ts| - n && ts[a] >= ts[b];
    i := a;
  }

  lemma HarmlessThroughout(uses: seq<Use>, n: nat)
    requires n > 0 && NonDecreasing(Times(uses)) && TiesHarmless(Times(uses), n)
    ensures LruThroughout(uses, n)
  {
    hide LeastRecent;
    forall p, tag | 0 <= p <= |uses| ensures LeastRecent(uses[..p], n, tag) {
      assert Times(uses[..p]) == Times(uses)[..p];
      HoldsRecentTags(uses[..p], n, tag);
    }
  }

  /** Four accesses at the same time, into a set of two lines: the last throws out the tag used just before
      it and keeps an older one. */
  lemma EqualTimesBreakLru()
    ensures var ts := [0, 0, 0, 0]; !TiesHarmless(ts, 2) && !LeastRecent(Zip([0, 1, 0, 2], ts), 2, 0)
  {
    var ts := [0, 0, 0, 0];
    MisleadingFails(ts, 2, 1);
    assert Misleading(4, 2, 1) == [0, 1, 0, 2];
    var uses := Zip([0, 1, 0, 2], ts);
    assert uses[..4] == uses;
    assert ts[1] == ts[2];
  }
}
