/** What the invariant says about whole runs of the simulator, in terms of the instruction-set model. */
module PipeTheorems {
  import opened Words
  import opened Memory
  import opened Isa
  import opened PipeStd
  import opened Psim
  import opened Sequential
  import opened StageLemmas
  import opened PipeInvariant
  import opened PipeStep

  // ----- the instruction-set run -----

  function IsaAt(s0: IsaState, k: nat): IsaState {
    if k == 0 then s0 else Step(IsaAt(s0, k - 1)).0
  }

  function IsaStatus(s0: IsaState, k: nat): Stat {
    Step(IsaAt(s0, k)).1
  }

  /** The model executes k instructions without an exception. */
  predicate IsaRuns(s0: IsaState, k: nat) {
    k == 0 || (IsaRuns(s0, k - 1) && IsaStatus(s0, k - 1) == AOK)
  }

  /** The last four states of the model's run up to number k, newest first. */
  function IsaLatest(s0: IsaState, k: nat): (w: seq<IsaState>)
    ensures |w| == if 4 <= k then 4 else k + 1
  {
    seq(if 4 <= k then 4 else k + 1, i requires 0 <= i <= k => IsaAt(s0, k - i))
  }

  /** The simulated cycle in which instruction k is in write back. */
  function CycleOf(s0: IsaState, k: nat): (n: nat)
    ensures n >= 5
  {
    if k == 0 then 5 else CycleOf(s0, k - 1) + 1 + Gap(IsaAt(s0, k - 1), IsaAt(s0, k))
  }

  /** The simulated cycle in which instruction k is fetched, which its predecessors alone determine. */
  function FetchCycle(s0: IsaState, k: nat): nat {
    if k == 0 then 1 else CycleOf(s0, k - 1) - 3 + Redirect(IsaAt(s0, k - 1))
  }

  /** The stores of the model that the pipeline has still to make when it fetches instruction k do not
      change it. */
  ghost predicate IsaUnwritten(s0: IsaState, k: nat) {
    forall j: nat :: j < k && FetchCycle(s0, k) < CycleOf(s0, j) ==> StoreMisses(IsaAt(s0, j), IsaAt(s0, k))
  }

  /** What the pipeline needs of a program to run it like the model for n cycles: every instruction fetched
      before cycle n is one that the two execute alike and is not still to be overwritten, and those that
      have left decode by then have had no value stray into an operand. */
  ghost predicate Supported(s0: IsaState, n: nat) {
    && |s0.m| <= MAX_LEN
    && (forall k: nat :: IsaRuns(s0, k) && FetchCycle(s0, k) < n ==> Alike(IsaAt(s0, k)) && IsaUnwritten(s0, k))
    && (forall k: nat :: IsaRuns(s0, k) && CycleOf(s0, k) < n + 3 ==> Unstrayed(IsaLatest(s0, k)))
  }

  lemma SupportedEarlier(s0: IsaState, j: nat, n: nat)
    requires Supported(s0, n) && j <= n
    ensures Supported(s0, j)
  {
    hide IsaAt, IsaRuns, FetchCycle, CycleOf, Alike, IsaUnwritten, Unstrayed, IsaLatest;
  }

  lemma FetchedInOrder(s0: IsaState, k: nat)
    ensures FetchTime(s0, k) < FetchTime(s0, k + 1) && FetchCycle(s0, k) < FetchCycle(s0, k + 1)
    ensures FetchTime(s0, k) + 4 <= Arrival(s0, k) && FetchCycle(s0, k) + 4 <= CycleOf(s0, k)
  {
    hide At, IsaAt, Returns, Mispredicts, Feeds;
  }

  lemma SupportedAt(s0: IsaState, n: nat, k: nat)
    requires Supported(s0, n) && IsaRuns(s0, k) && FetchCycle(s0, k) < n
    ensures Alike(IsaAt(s0, k)) && IsaUnwritten(s0, k)
  {
    hide IsaAt, Alike, IsaUnwritten, CycleOf, FetchCycle, Unstrayed;
  }

  /** Up to the first instruction that is not fetched before cycle n, the stage functions run like the
      model, and so the two descriptions give every instruction the same cycles. */
  lemma {:induction false} RunsAgree(s0: IsaState, n: nat, k: nat)
    requires Supported(s0, n) && (k == 0 || FetchTime(s0, k - 1) < n || FetchCycle(s0, k - 1) < n)
    ensures IsaRuns(s0, k) <==> Reached(s0, k)
    ensures IsaRuns(s0, k) ==> IsaAt(s0, k) == At(s0, k)
    ensures IsaRuns(s0, k) ==> CycleOf(s0, k) == Arrival(s0, k) && FetchCycle(s0, k) == FetchTime(s0, k)
  {
    hide Step, Commit, IdealW, Supported, Gap, Redirect, FetchTime, FetchCycle;
    if k > 0 {
      if k > 1 {
        FetchedInOrder(s0, k - 2);
      }
      RunsAgree(s0, n, k - 1);
      if IsaRuns(s0, k - 1) {
        CommitsLikeStep(s0, n, k - 1);
        FetchTimesAgree(s0, k);
      }
    } else {
      FetchTimesAgree(s0, k);
    }
  }

  lemma CommitsLikeStep(s0: IsaState, n: nat, k: nat)
    requires Supported(s0, n) && IsaRuns(s0, k) && FetchCycle(s0, k) < n && IsaAt(s0, k) == At(s0, k)
    ensures var s := At(s0, k);
      Step(s).1 == IdealW(s).status && (Step(s).1 == AOK ==> Step(s).0 == Commit(s))
  {
    hide Step, Commit, IdealW, Alike, IsaAt, At, FetchCycle, Supported;
    SupportedAt(s0, n, k);
    LengthAt(s0, k);
    IsMaxLen(s0, n);
    StagesExecuteIsa(IsaAt(s0, k));
  }

  lemma FetchTimesAgree(s0: IsaState, k: nat)
    requires k > 0 ==> IsaAt(s0, k - 1) == At(s0, k - 1) && CycleOf(s0, k - 1) == Arrival(s0, k - 1)
    ensures FetchCycle(s0, k) == FetchTime(s0, k)
  {
    hide At, IsaAt, Redirect, CycleOf, Arrival;
  }

  lemma IsMaxLen(s0: IsaState, n: nat)
    requires Supported(s0, n)
    ensures |s0.m| <= MAX_LEN
  {}

  lemma RunsEarlier(s0: IsaState, j: nat, k: nat)
    requires j <= k && IsaRuns(s0, k)
    ensures IsaRuns(s0, j)
    decreases k - j
  {
    hide Step;
    if j < k {
      RunsEarlier(s0, j, k - 1);
    }
  }

  lemma FetchedEarlier(s0: IsaState, j: nat, k: nat)
    requires j <= k
    ensures FetchTime(s0, j) <= FetchTime(s0, k) && FetchCycle(s0, j) <= FetchCycle(s0, k)
    decreases k - j
  {
    hide FetchTime, FetchCycle, Arrival, CycleOf;
    if j < k {
      FetchedInOrder(s0, k - 1);
      FetchedEarlier(s0, j, k - 1);
    }
  }

  lemma LatestAgree(s0: IsaState, n: nat, k: nat)
    requires Supported(s0, n) && IsaRuns(s0, k) && (k == 0 || FetchTime(s0, k - 1) < n)
    ensures IsaLatest(s0, k) == Latest(s0, k, 4)
  {
    hide Step, Supported, At, IsaAt, IsaRuns, FetchTime, FetchCycle, Arrival, CycleOf;
    var w, w' := IsaLatest(s0, k), Latest(s0, k, 4);
    forall i | 0 <= i < |w| ensures w[i] == w'[i] {
      RunsEarlier(s0, k - i, k);
      if i < k {
        FetchedEarlier(s0, k - i - 1, k - 1);
      }
      RunsAgree(s0, n, k - i);
    }
  }

  lemma UnwrittenAgree(s0: IsaState, n: nat, k: nat)
    requires Supported(s0, n) && IsaRuns(s0, k) && FetchTime(s0, k) < n
    ensures Unwritten(s0, k)
  {
    hide Step, Supported, At, IsaAt, IsaRuns, FetchTime, FetchCycle, Arrival, CycleOf, StoreMisses, Reached, Gap;
    if k > 0 {
      FetchedInOrder(s0, k - 1);
    }
    RunsAgree(s0, n, k);
    SupportedAt(s0, n, k);
    forall j: nat | j < k && FetchTime(s0, k) < Arrival(s0, j) ensures StoreMisses(At(s0, j), At(s0, k)) {
      RunsEarlier(s0, j, k);
      FetchedEarlier(s0, j, k);
      FetchedInOrder(s0, j);
      if j > 0 {
        FetchedInOrder(s0, j - 1);
      }
      RunsAgree(s0, n, j);
    }
  }

  lemma SupportedIsSound(s0: IsaState, n: nat)
    requires Supported(s0, n)
    ensures Sound(s0, n)
  {
    hide Step, Commit, Alike, IsaUnwritten, Unwritten, Unstrayed;
    hide At, IsaAt, Latest, IsaLatest, Reached, IsaRuns, FetchTime, FetchCycle, Arrival, CycleOf;
    forall k: nat | Reached(s0, k) && FetchTime(s0, k) < n
      ensures Unwritten(s0, k) && (Arrival(s0, k) < n + 3 ==> Unstrayed(Latest(s0, k, 4)))
    {
      if k > 0 {
        FetchedInOrder(s0, k - 1);
      }
      RunsAgree(s0, n, k);
      LatestAgree(s0, n, k);
      UnwrittenAgree(s0, n, k);
    }
    forall k: nat | Reached(s0, k) && Arrival(s0, k) < n + 3 ensures Unstrayed(Latest(s0, k, 4)) {
      FetchedInOrder(s0, k);
      assert FetchTime(s0, k) < n;
    }
  }

  // ----- simulator cycles -----

  /** Stall and bubble are never raised together, whatever the pipeline registers hold. */
  lemma NoConflictingControls(c: Stages, n: Stages)
    ensures ERROR !in {Controls(c, n).f, Controls(c, n).d, Controls(c, n).e, Controls(c, n).m, Controls(c, n).w}
  {}

  /** The fields that one cycle leaves for the next are those its registers give rise to. */
  predicate Coherent(x: SimState) {
    && x.next == NextStages(x.curr, x.r, x.m, x.cc)
    && x.ops == Controls(x.curr, x.next)
    && x.pend == Updates(x.curr, x.next, x.cc)
    && x.status == ProcStat(x.curr.w)
  }

  function CoreOf(x: SimState): Core {
    Core(x.curr, x.r, x.m, x.cc)
  }

  lemma CycleIsAdvance(x: SimState, maxInstr: int)
    requires Coherent(x) && maxInstr >= 3
    ensures Coherent(SimStep(x, maxInstr)) && CoreOf(SimStep(x, maxInstr)) == Advance(CoreOf(x))
  {
    NoConflictingControls(x.curr, x.next);
    hide NextStages, Controls, NextCc, StoreWord, ProcStat;
  }

  lemma FirstCycle(m: seq<Byte>, maxInstr: int)
    requires maxInstr >= 3
    ensures var x := SimStep(Reset(m), maxInstr);
      Coherent(x) && CoreOf(x) == Core(BUBBLES, Reset(m).r, m, DEFAULT_CC)
  {
    hide NextStages, Controls, ProcStat;
  }

  /** The simulator after n cycles, with room for more instructions than can be in flight. */
  function After(m: seq<Byte>, n: nat): SimState {
    if n == 0 then Reset(m) else SimStep(After(m, n - 1), 3)
  }

  lemma AnyRoomIsEnough(x: SimState, maxInstr: int)
    requires maxInstr >= 3
    ensures SimStep(x, maxInstr) == SimStep(x, 3)
  {
    hide Count, Settle, MarkErrors, UpdatePipes;
  }

  function Start(m: seq<Byte>): IsaState {
    IsaState(0, Reset(m).r, m, DEFAULT_CC)
  }

  // ----- the invariant along the run -----

  function TagsAfter(s0: IsaState, n: nat): Tags
    requires n >= 1
  {
    if n == 1 then Tags(0, false, false, Empty, Empty)
    else NextTags(ViewOf(s0, TagsAfter(s0, n - 1)), TagsAfter(s0, n - 1))
  }

  /** An exception raised by an instruction without destination registers can stay in write back. */
  predicate WritesNothing(s: IsaState) {
    IdealW(s).deste == IdealW(s).destm == REG_NONE
  }

  /** Cycle n is not past the one in which an exception reaches write back, unless the excepting
      instruction, a halt for one, would not write a register there. */
  ghost predicate InTime(s0: IsaState, n: nat) {
    forall k: nat :: Reached(s0, k) && !Completes(At(s0, k)) ==> n <= Arrival(s0, k) || WritesNothing(At(s0, k))
  }

  lemma {:induction false} InvariantHolds(m: seq<Byte>, n: nat)
    requires n >= 1 && Sound(Start(m), n) && InTime(Start(m), n)
    ensures Coherent(After(m, n)) && Inv(Start(m), n, CoreOf(After(m, n)), TagsAfter(Start(m), n))
  {
    hide SimStep, At, Inv, Coherent, ViewOf, IdealW, Sound, Reset;
    if n == 1 {
      assert After(m, 0) == Reset(m);
      FirstCycle(m, 3);
      InitialInv(m);
    } else {
      SoundEarlier(Start(m), n - 1, n);
      InvariantHolds(m, n - 1);
      CycleIsAdvance(After(m, n - 1), 3);
      StoppedIsSilent(m, n);
      StepKeepsInv(Start(m), n - 1, CoreOf(After(m, n - 1)), TagsAfter(Start(m), n - 1));
    }
  }

  lemma InitialInv(m: seq<Byte>)
    ensures Inv(Start(m), 1, Core(BUBBLES, Reset(m).r, m, DEFAULT_CC), Tags(0, false, false, Empty, Empty))
  {
    hide IdealW, IdealM, IdealE, IdealD;
    assert Arrival(Start(m), 0) == 5;
  }

  lemma StoppedIsSilent(m: seq<Byte>, n: nat)
    requires n >= 2 && InTime(Start(m), n)
    requires Inv(Start(m), n - 1, CoreOf(After(m, n - 1)), TagsAfter(Start(m), n - 1))
    ensures var t, a := TagsAfter(Start(m), n - 1), CoreOf(After(m, n - 1));
      StopW(ViewOf(Start(m), t), t) ==> WriteBack(a.r, a.c.w) == a.r
  {
    hide After, TagsAfter, At, IdealW, Ordered;
    var s0, t, a := Start(m), TagsAfter(Start(m), n - 1), CoreOf(After(m, n - 1));
    if StopW(ViewOf(s0, t), t) {
      assert Reached(s0, t.iw) && !Completes(At(s0, t.iw));
      assert WritesNothing(At(s0, t.iw));
    }
  }
}
