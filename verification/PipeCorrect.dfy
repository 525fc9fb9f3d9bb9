/** The simulated pipeline runs every supported program exactly like the instruction-set model. */
module PipeCorrect {
  import opened Arithmetic
  import opened Words
  import opened Memory
  import opened Isa
  import opened PipeStd
  import opened Psim
  import opened Sequential
  import opened StageLemmas
  import opened PipeInvariant
  import opened PipeStep
  import opened PipeTheorems

  /** Cycle n is not past the one in which an exception reaches write back and ends the run, unless the
      excepting instruction writes no register and so does no harm by staying there. */
  ghost predicate Covered(s0: IsaState, n: nat) {
    forall k: nat :: IsaRuns(s0, k) && IsaStatus(s0, k) != AOK ==> n <= CycleOf(s0, k) || WritesNothing(IsaAt(s0, k))
  }

  /** The status of an instruction fetched before cycle n, and whether it completes, in both descriptions. */
  lemma StatusAt(s0: IsaState, n: nat, k: nat)
    requires Supported(s0, n) && IsaRuns(s0, k) && (FetchTime(s0, k) < n || FetchCycle(s0, k) < n)
    ensures At(s0, k) == IsaAt(s0, k) && IsaStatus(s0, k) == IdealW(At(s0, k)).status
    ensures Reached(s0, k) && (Completes(At(s0, k)) <==> IsaStatus(s0, k) == AOK)
    ensures CycleOf(s0, k) == Arrival(s0, k) && FetchCycle(s0, k) == FetchTime(s0, k)
  {
    hide Step, At, IdealW, Alike, FetchTime, FetchCycle, Arrival, CycleOf, Supported;
    if k > 0 {
      FetchedInOrder(s0, k - 1);
    }
    RunsAgree(s0, n, k);
    SupportedAt(s0, n, k);
    LengthAt(s0, k);
    IsMaxLen(s0, n);
    StagesExecuteIsa(IsaAt(s0, k));
  }

  lemma CoveredIsInTime(s0: IsaState, n: nat)
    requires Supported(s0, n) && Covered(s0, n)
    ensures InTime(s0, n)
  {
    hide Step, At, IdealW, IsaStatus, WritesNothing, Completes, FetchTime, FetchCycle, Arrival, CycleOf, Supported;
    forall k: nat | Reached(s0, k) && !Completes(At(s0, k)) ensures n <= Arrival(s0, k) || WritesNothing(At(s0, k)) {
      FetchedInOrder(s0, k);
      if FetchTime(s0, k) < n {
        if k > 0 {
          FetchedInOrder(s0, k - 1);
        }
        RunsAgree(s0, n, k);
        StatusAt(s0, n, k);
      }
    }
  }

  /** The tags of cycle n, once all hypotheses are spelled out in terms of the model. */
  lemma RunInvariant(m: seq<Byte>, n: nat) returns (t: Tags)
    requires n >= 1 && Supported(Start(m), n) && Covered(Start(m), n)
    ensures t == TagsAfter(Start(m), n)
    ensures Coherent(After(m, n)) && Inv(Start(m), n, CoreOf(After(m, n)), t)
  {
    SupportedIsSound(Start(m), n);
    CoveredIsInTime(Start(m), n);
    InvariantHolds(m, n);
    t := TagsAfter(Start(m), n);
  }

  /** What the visible state is after a cycle, when the instruction in write back, or the next to get
      there, has index k. */
  predicate Visible(s0: IsaState, x: SimState, k: nat) {
    var i := k + One(x.curr.w.status == AOK);
    var j := i + One(x.next.w.status == AOK);
    && IsaRuns(s0, j)
    && x.r == IsaAt(s0, k).r
    && x.m == IsaAt(s0, i).m
    && x.cc == IsaAt(s0, j).cc
    && x.curr.w.status in {BUB, IsaStatus(s0, k)}
  }

  /** By the cycles that the model's run determines, instruction k is the one in write back in cycle n, or
      the next to get there; an excepting one stays. */
  predicate Due(s0: IsaState, n: nat, k: nat) {
    && IsaRuns(s0, k)
    && (k > 0 ==> CycleOf(s0, k - 1) < n)
    && (n <= CycleOf(s0, k) || IsaStatus(s0, k) != AOK)
  }

  /** No more than one instruction is due. */
  lemma DueIsUnique(s0: IsaState, n: nat, j: nat, k: nat)
    requires Due(s0, n, j) && Due(s0, n, k)
    ensures j == k
  {
    hide IsaAt, IsaStatus, CycleOf;
    if j < k {
      NotDueAfter(s0, n, j, k);
    } else if k < j {
      NotDueAfter(s0, n, k, j);
    }
  }

  lemma NotDueAfter(s0: IsaState, n: nat, j: nat, k: nat)
    requires Due(s0, n, j) && j < k
    ensures !Due(s0, n, k)
  {
    hide IsaAt, IsaStatus, CycleOf;
    if IsaRuns(s0, k) {
      RunsEarlier(s0, j + 1, k);
      CyclesIncrease(s0, j, k - 1);
    }
  }

  lemma {:induction false} CyclesIncrease(s0: IsaState, j: nat, k: nat)
    requires j <= k
    ensures CycleOf(s0, j) <= CycleOf(s0, k)
    decreases k - j
  {
    hide IsaAt, Gap;
    if j < k {
      CyclesIncrease(s0, j, k - 1);
    }
  }

  /** Whole-run refinement. After every cycle the registers are the model's before the instruction that is
      due in write back; memory is one instruction ahead of them if write back holds a completed
      instruction, and the condition codes one more if the memory stage is completing one. */
  lemma EveryCycleRefines(m: seq<Byte>, n: nat)
    requires n >= 1 && Supported(Start(m), n) && Covered(Start(m), n)
    ensures var k := TagsAfter(Start(m), n).iw; Due(Start(m), n, k) && Visible(Start(m), After(m, n), k)
  {
    hide Supported, Covered, After, Visible, Due, TagsAfter;
    VisibleAtTags(m, n);
    TagsAreDue(m, n);
  }

  /** So whichever instruction is due, it is the one the visible state tells of. */
  lemma DueIsVisible(m: seq<Byte>, n: nat, k: nat)
    requires n >= 1 && Supported(Start(m), n) && Covered(Start(m), n) && Due(Start(m), n, k)
    ensures Visible(Start(m), After(m, n), k)
  {
    hide Supported, Covered, After, Visible, Due, TagsAfter;
    EveryCycleRefines(m, n);
    DueIsUnique(Start(m), n, k, TagsAfter(Start(m), n).iw);
  }

  lemma TagsAreDue(m: seq<Byte>, n: nat)
    requires n >= 1 && Supported(Start(m), n) && Covered(Start(m), n)
    ensures Due(Start(m), n, TagsAfter(Start(m), n).iw)
  {
    hide After, TagsAfter, Supported, Covered, Due, Coherent, Contents, Ordered, Timely, AllReached, ViewOf;
    var t := RunInvariant(m, n);
    RetiringIsDue(Start(m), n, ViewOf(Start(m), t), t);
  }

  lemma RetiringIsDue(s0: IsaState, n: nat, v: View, t: Tags)
    requires Supported(s0, n) && v == ViewOf(s0, t) && AllReached(s0, v, t) && Ordered(v, t) && Timely(s0, n, v, t)
    ensures Due(s0, n, t.iw)
  {
    hide At, Step, IdealW, Supported, IsaAt, IsaRuns, IsaStatus, Reached, FetchTime, FetchCycle, Arrival, CycleOf;
    InFlight(s0, n, v, t);
    ReachedBy(s0, v, t);
    ArrivesLater(s0, n, v, t);
    hide Ordered, Timely, AllReached;
    RunsAgree(s0, n, t.iw);
    if t.iw > 0 {
      RunsEarlier(s0, t.iw - 1, t.iw);
      StatusAt(s0, n, t.iw - 1);
    }
    if t.w && !Completes(v.w) {
      StatusAt(s0, n, t.iw);
    }
  }

  /** The cycle of the instruction that is due in write back. */
  lemma ArrivesLater(s0: IsaState, n: nat, v: View, t: Tags)
    requires v == ViewOf(s0, t) && Ordered(v, t) && Timely(s0, n, v, t)
    ensures n <= Arrival(s0, t.iw) || (t.w && !Completes(v.w))
    ensures t.iw > 0 ==> Arrival(s0, t.iw - 1) < n
  {
    hide At, Arrival, Returns, Mispredicts, Completes, Feeds;
  }

  /** The instructions in write back and memory, and those before, were fetched before. */
  lemma InFlight(s0: IsaState, n: nat, v: View, t: Tags)
    requires v == ViewOf(s0, t) && Timely(s0, n, v, t)
    ensures t.w ==> FetchTime(s0, t.iw) < n
    ensures t.m ==> FetchTime(s0, t.IM()) < n
    ensures t.iw > 0 ==> FetchTime(s0, t.iw - 1) < n
  {
    hide At, FetchTime, Arrival, OnPath, Held, Completes, Gap;
    FetchBeforeArrival(s0, t.iw);
    FetchBeforeArrival(s0, t.IM());
    if t.iw > 0 {
      FetchBeforeArrival(s0, t.iw - 1);
    }
  }

  lemma VisibleAtTags(m: seq<Byte>, n: nat)
    requires n >= 1 && Supported(Start(m), n) && Covered(Start(m), n)
    ensures Visible(Start(m), After(m, n), TagsAfter(Start(m), n).iw)
  {
    var t := RunInvariant(m, n);
    var s0, x := Start(m), After(m, n);
    var v, a := ViewOf(s0, t), CoreOf(x);
    NextW(s0, n, a, t);
    ViewChain(s0, t);
    assert x.next.w == Next(a).w;
    hide After, TagsAfter, At, Step, IdealW, Commit, Covered, Supported, MatchesM, MatchesE, Timely, NextStages;
    hide IsaAt, IsaRuns, IsaStatus, Reached;
    VisibleFromInv(s0, n, a, t, x);
  }

  lemma VisibleFromInv(s0: IsaState, n: nat, a: Core, t: Tags, x: SimState)
    requires Supported(s0, n) && Inv(s0, n, a, t) && a == CoreOf(x)
    requires if t.m then x.next.w == IdealW(At(s0, t.IM())) else BubbleW(x.next.w)
    ensures Visible(s0, x, t.iw)
  {
    hide At, Step, Visible, IsaAt, IsaStatus, Supported, Reached, IsaRuns, Holding, Ordered, Timely;
    hide AllReached, IdealW, Completes;
    CompletedAgree(s0, n, ViewOf(s0, t), t);
    ViewChain(s0, t);
    HoldingIsVisible(s0, ViewOf(s0, t), t, x);
  }

  lemma HoldingIsVisible(s0: IsaState, v: View, t: Tags, x: SimState)
    requires v == ViewOf(s0, t) && Holding(CoreOf(x), v, t) && Ordered(v, t)
    requires if t.m then x.next.w == IdealW(v.m) else BubbleW(x.next.w)
    requires v.m == (if t.w then Commit(v.w) else v.w) && v.e == (if t.m then Commit(v.m) else v.m)
    requires var i := t.iw + One(t.w && Completes(v.w)); var j := i + One(t.m && Completes(v.m));
      && IsaRuns(s0, j) && IsaAt(s0, t.iw) == At(s0, t.iw) && IsaAt(s0, i) == At(s0, i) && IsaAt(s0, j) == At(s0, j)
      && (t.w ==> IsaStatus(s0, t.iw) == IdealW(v.w).status)
    ensures Visible(s0, x, t.iw)
  {
    hide At, Step, IdealW, IdealM, IdealE, IdealD, Commit, MatchesM, MatchesE, IsaAt, IsaStatus, IsaRuns;
    hide Mispredicts, Returns, Feeds;
    StatusOfInstruction(v.w);
    StatusOfInstruction(v.m);
    if t.w && !Completes(v.w) { ExceptionCommitsNoMemory(v.w); }
    if t.m && !Completes(v.m) { ExceptionCommitsNoMemory(v.m); }
  }

  /** The instructions in write back and memory that complete do so on the model's run. */
  lemma CompletedAgree(s0: IsaState, n: nat, v: View, t: Tags)
    requires Supported(s0, n) && v == ViewOf(s0, t) && AllReached(s0, v, t) && Ordered(v, t) && Timely(s0, n, v, t)
    ensures var i := t.iw + One(t.w && Completes(v.w)); var j := i + One(t.m && Completes(v.m));
      && IsaRuns(s0, j) && IsaAt(s0, t.iw) == At(s0, t.iw) && IsaAt(s0, i) == At(s0, i) && IsaAt(s0, j) == At(s0, j)
      && (t.w ==> IsaStatus(s0, t.iw) == IdealW(v.w).status)
  {
    hide At, Step, IdealW, IsaAt, IsaStatus, Supported, Reached, IsaRuns, OnPath, FetchTime, FetchCycle;
    hide Arrival, CycleOf;
    ReachedBy(s0, v, t);
    InFlight(s0, n, v, t);
    hide AllReached, Timely;
    RunsAgree(s0, n, t.iw);
    if t.w {
      StatusAt(s0, n, t.iw);
    }
    if t.w && Completes(v.w) {
      RunsAgree(s0, n, t.iw + 1);
    }
    if t.m && Completes(v.m) {
      RunsAgree(s0, n, t.IM() + 1);
    }
  }

  /** The instructions that have completed so far were all reached. */
  lemma ReachedBy(s0: IsaState, v: View, t: Tags)
    requires v == ViewOf(s0, t) && AllReached(s0, v, t) && Ordered(v, t)
    ensures Reached(s0, t.iw)
    ensures t.w && Completes(v.w) ==> Reached(s0, t.iw + 1)
    ensures t.m && Completes(v.m) ==> Reached(s0, t.IM() + 1)
  {
    hide At, IdealW, Mispredicts, Returns, Completes;
    if !t.w && !t.m && !t.e.Live? && !t.d.Live? {
      assert !Stopped(v, t);
    }
    if t.w && Completes(v.w) {
      assert Reached(s0, t.iw + 1);
    }
  }
}
