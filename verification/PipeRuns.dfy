/** Timing, halting and complete runs of the simulated pipeline. */
module PipeRuns {
  import opened Arithmetic
  import opened Words
  import opened Memory
  import opened Isa
  import opened PipeStd
  import opened Psim
  import opened Sequential
  import opened StageLemmas
  import opened PipeInvariant
  import opened PipeStep
  import opened PipeTheorems
  import opened PipeCorrect

  /** Bubbles between the first k instructions and their successors. */
  function Bubbles(s0: IsaState, k: nat): nat {
    if k == 0 then 0 else Bubbles(s0, k - 1) + Gap(IsaAt(s0, k - 1), IsaAt(s0, k))
  }

  /** The time of an instruction in write back: four cycles to fill the pipeline, one cycle for each
      instruction and one for each bubble, of which there are at most three to an instruction. */
  lemma {:induction false} CycleBounds(s0: IsaState, k: nat)
    ensures CycleOf(s0, k) == 4 + (k + 1) + Bubbles(s0, k)
    ensures Bubbles(s0, k) <= 3 * k
  {
    hide IsaAt;
    if k > 0 {
      CycleBounds(s0, k - 1);
    }
  }

  lemma {:induction false} ArrivalIncreases(s0: IsaState, j: nat, k: nat)
    requires j < k
    ensures Arrival(s0, j) < Arrival(s0, k)
    decreases k - j
  {
    hide At, Gap;
    if j < k - 1 {
      ArrivalIncreases(s0, j, k - 1);
    }
  }

  /** If write back is empty in cycle n, the next instruction to get there does so later. */
  lemma NextArrivalIsLater(s0: IsaState, n: nat, a: Core, t: Tags)
    requires Inv(s0, n, a, t) && !t.w
    ensures n < Arrival(s0, t.iw)
  {
    hide At, Arrival, Contents, AllReached, Returns, Mispredicts, Completes, Feeds;
  }

  lemma OnTime(s0: IsaState, n: nat, a: Core, t: Tags, k: nat)
    requires Inv(s0, n, a, t) && Reached(s0, k) && n == Arrival(s0, k)
    ensures t.w && t.iw == k
  {
    hide At, Arrival, Contents, AllReached, Ordered, Returns, Mispredicts, Completes, Feeds;
    if t.iw < k {
      ArrivalIncreases(s0, t.iw, k);
      StopEndsRun(s0, t.iw, k);
    } else if k < t.iw - 1 {
      ArrivalIncreases(s0, k, t.iw - 1);
    }
    if !t.w {
      NextArrivalIsLater(s0, n, a, t);
    }
  }

  /** Cycle by cycle: in the cycle that belongs to instruction k of the model's run, write back holds
      that instruction with its results. */
  lemma InWriteBackOnTime(m: seq<Byte>, n: nat, k: nat)
    requires n >= 1 && Supported(Start(m), n) && Covered(Start(m), n)
    requires IsaRuns(Start(m), k) && n == CycleOf(Start(m), k)
    ensures After(m, n).curr.w == IdealW(IsaAt(Start(m), k)) && TagsAfter(Start(m), n).iw == k
  {
    hide IsaAt, At, Step, Supported, Covered, IdealW, After, Arrival, CycleOf, FetchCycle, FetchTime;
    hide Ordered, Timely, AllReached, Coherent;
    var t := RunInvariant(m, n);
    FetchedInOrder(Start(m), k);
    StatusAt(Start(m), n, k);
    OnTime(Start(m), n, CoreOf(After(m, n)), t, k);
  }

  lemma StopEndsRun(s0: IsaState, j: nat, k: nat)
    requires j < k && Reached(s0, k)
    ensures Completes(At(s0, j))
    decreases k
  {
    hide At, Completes;
    if j < k - 1 {
      StopEndsRun(s0, j, k - 1);
    }
  }

  /** There is at most one exception on the model's run. */
  lemma OnlyException(s0: IsaState, j: nat, k: nat)
    requires IsaRuns(s0, j) && IsaRuns(s0, k) && IsaStatus(s0, j) != AOK && IsaStatus(s0, k) != AOK
    ensures j == k
  {
    hide IsaStatus, IsaRuns;
    if j < k {
      NothingBehind(s0, j, k);
    } else if k < j {
      NothingBehind(s0, k, j);
    }
  }

  lemma {:induction false} NothingBehind(s0: IsaState, j: nat, k: nat)
    requires IsaStatus(s0, j) != AOK && j < k
    ensures !IsaRuns(s0, k)
  {
    hide IsaStatus;
    if j < k - 1 {
      NothingBehind(s0, j, k - 1);
    }
  }

  lemma EarlierIsCovered(s0: IsaState, n: nat, k: nat)
    requires IsaRuns(s0, k) && IsaStatus(s0, k) != AOK && n <= CycleOf(s0, k)
    ensures Covered(s0, n)
  {
    hide IsaAt, IsaRuns, WritesNothing, IsaStatus, CycleOf;
    forall j: nat | IsaRuns(s0, j) && IsaStatus(s0, j) != AOK ensures j == k {
      OnlyException(s0, j, k);
    }
  }

  /** When the model's run ends with an exception, the pipeline's run shows that exception in write back
      at a known cycle, with just the registers, memory and condition codes the model had when it reached
      the excepting instruction: nothing fetched behind it or on a wrong path has left a trace. */
  lemma ExceptionIsPrecise(m: seq<Byte>, k: nat)
    requires Supported(Start(m), CycleOf(Start(m), k)) && IsaRuns(Start(m), k) && IsaStatus(Start(m), k) != AOK
    ensures var x, s := After(m, CycleOf(Start(m), k)), IsaAt(Start(m), k);
      x.status == IsaStatus(Start(m), k) && (x.r, x.m, x.cc) == (s.r, s.m, s.cc)
  {
    hide IsaAt, At, Step, Supported, Covered, IdealW, After, CycleOf, FetchCycle, FetchTime, Inv, Coherent;
    hide TagsAfter, IsaRuns, Reached, Completes;
    var s0, n := Start(m), CycleOf(Start(m), k);
    EarlierIsCovered(s0, n, k);
    InWriteBackOnTime(m, n, k);
    VisibleAtTags(m, n);
    var t := RunInvariant(m, n);
    FetchedInOrder(s0, k);
    StatusAt(s0, n, k);
    BehindException(s0, n, CoreOf(After(m, n)), t, After(m, n));
  }

  /** With an exception in write back, the memory stage holds a bubble. */
  lemma BehindException(s0: IsaState, n: nat, a: Core, t: Tags, x: SimState)
    requires Coherent(x) && a == CoreOf(x) && Inv(s0, n, a, t)
    requires a.c.w == IdealW(At(s0, t.iw)) && !Completes(At(s0, t.iw))
    ensures x.next.w.status == BUB && x.curr.w.status == x.status == IdealW(At(s0, t.iw)).status
    ensures x.curr.w.status != AOK
  {
    hide At, IdealW, Timely, AllReached, FetchStage, ExecStage, DecodeStage;
    StatusOfInstruction(At(s0, t.iw));
  }

  /** A run that ends is supported in every cycle if each of its instructions is what the pipeline needs. */
  lemma SupportedThroughout(s0: IsaState, k: nat, n: nat)
    requires |s0.m| <= MAX_LEN && IsaStatus(s0, k) != AOK
    requires forall j: nat :: j <= k ==> Alike(IsaAt(s0, j)) && IsaUnwritten(s0, j) && Unstrayed(IsaLatest(s0, j))
    ensures Supported(s0, n)
  {
    hide IsaAt, IsaStatus, IsaRuns, Alike, IsaUnwritten, Unstrayed, IsaLatest, CycleOf, FetchCycle;
    forall j: nat | IsaRuns(s0, j) ensures j <= k {
      if k < j {
        NothingBehind(s0, k, j);
      }
    }
  }

  lemma FirstFaults(s0: IsaState, n: nat)
    requires |s0.m| <= MAX_LEN && Alike(s0) && Step(s0).1 != AOK
    ensures Supported(s0, n)
  {
    hide Step, Alike, CycleOf, FetchCycle, StoreMisses;
    assert IsaAt(s0, 0) == s0 && IsaUnwritten(s0, 0);
    FirstIsUnstrayed(s0);
    hide IsaAt, IsaUnwritten, Unstrayed;
    SupportedThroughout(s0, 0, n);
  }

  lemma FirstIsUnstrayed(s0: IsaState)
    ensures Unstrayed(IsaLatest(s0, 0))
  {
    hide IsaAt;
  }

  /** Cycle n is not past the cycle in which an exception ends the run. */
  ghost predicate Running(s0: IsaState, n: nat) {
    forall k: nat :: IsaRuns(s0, k) && IsaStatus(s0, k) != AOK ==> n <= CycleOf(s0, k)
  }

  lemma RunningIsCovered(s0: IsaState, j: nat, n: nat)
    requires Running(s0, n) && j <= n
    ensures Covered(s0, j) && Running(s0, j)
  {
    hide IsaAt, IsaRuns, IsaStatus, CycleOf, WritesNothing;
  }

  lemma BusyWriteBack(m: seq<Byte>, n: nat)
    requires n >= 1 && Supported(Start(m), n) && Running(Start(m), n)
    ensures var t, w := TagsAfter(Start(m), n), After(m, n).curr.w;
      && (w.status != BUB <==> t.w)
      && (t.w ==> n == CycleOf(Start(m), t.iw) && IsaRuns(Start(m), t.iw) && w == IdealW(IsaAt(Start(m), t.iw))
                  && w.status == IsaStatus(Start(m), t.iw))
  {
    hide IsaAt, At, Step, Supported, IdealW, After, CycleOf, Reached, IsaRuns, IsaStatus, Coherent, Arrival;
    hide Ordered, TagsAfter;
    hide FetchTime, FetchCycle, Covered;
    RunningIsCovered(Start(m), n, n);
    var t := RunInvariant(m, n);
    StatusOfInstruction(At(Start(m), t.iw));
    InFlight(Start(m), n, ViewOf(Start(m), t), t);
    if t.w {
      if t.iw > 0 {
        FetchedInOrder(Start(m), t.iw - 1);
      }
      RunsAgree(Start(m), n, t.iw);
      StatusAt(Start(m), n, t.iw);
    }
  }

  lemma TagsAdvance(m: seq<Byte>, n: nat)
    requires n >= 2 && Supported(Start(m), n) && Running(Start(m), n)
    ensures var t := TagsAfter(Start(m), n - 1);
      TagsAfter(Start(m), n).iw == t.IM() && (t.w ==> IsaStatus(Start(m), t.iw) == AOK)
  {
    hide IsaAt, At, Step, Supported, IdealW, After, CycleOf, Reached, IsaRuns, IsaStatus, Completes;
    hide FetchTime, FetchCycle, ViewOf, NextTags;
    RunningIsCovered(Start(m), n - 1, n);
    SupportedEarlier(Start(m), n - 1, n);
    BusyWriteBack(m, n - 1);
    var t := TagsAfter(Start(m), n - 1);
    NextRetiring(ViewOf(Start(m), t), t);
    if t.w {
      FetchedInOrder(Start(m), t.iw);
      StatusAt(Start(m), n, t.iw);
      WriteBackView(Start(m), t);
    }
  }

  lemma NextRetiring(v: View, t: Tags)
    ensures NextTags(v, t).iw == if t.w && !Completes(v.w) then t.iw else t.IM()
  {
    hide Completes, Mispredicts, Returns, Feeds;
  }

  lemma WriteBackView(s0: IsaState, t: Tags)
    ensures ViewOf(s0, t).w == At(s0, t.iw)
  {}

  lemma EndIsRunning(s0: IsaState, k: nat)
    requires IsaRuns(s0, k) && IsaStatus(s0, k) != AOK
    ensures Running(s0, CycleOf(s0, k))
  {
    hide IsaAt, IsaRuns, IsaStatus, CycleOf;
    forall j: nat | IsaRuns(s0, j) && IsaStatus(s0, j) != AOK ensures j == k {
      OnlyException(s0, j, k);
    }
  }

  /** Before an exception reaches write back, the processor status is AOK. */
  lemma AokUntil(m: seq<Byte>, n: nat, k: nat)
    requires n >= 1 && Supported(Start(m), n)
    requires IsaRuns(Start(m), k) && IsaStatus(Start(m), k) != AOK && n < CycleOf(Start(m), k)
    ensures After(m, n).status == AOK
  {
    hide IsaAt, Step, Supported, Covered, After, TagsAfter, CycleOf, IsaRuns, IsaStatus, IdealW;
    var s0 := Start(m);
    EarlierIsCovered(s0, n, k);
    EndIsRunning(s0, k);
    RunningIsCovered(s0, n, CycleOf(s0, k));
    BusyWriteBack(m, n);
    StatusIsWriteBack(m, n);
    var w, t := After(m, n).curr.w, TagsAfter(s0, n);
    if t.w && w.status != AOK {
      OnlyException(s0, t.iw, k);
    }
  }

  lemma StatusIsWriteBack(m: seq<Byte>, n: nat)
    requires n >= 1 && Supported(Start(m), n) && Covered(Start(m), n)
    ensures After(m, n).status == ProcStat(After(m, n).curr.w)
  {
    hide After, Supported, Covered, Inv, NextStages, Controls, Updates;
    var t := RunInvariant(m, n);
  }

  /** With an exception in the memory stage the updates computed in a cycle change neither memory nor
      condition codes, and with one in the execute stage not the condition codes. */
  lemma NothingToUpdate(s0: IsaState, n: nat, a: Core, t: Tags)
    requires Inv(s0, n, a, t)
    ensures var v := ViewOf(s0, t);
      && (StopM(v, t) ==> Stored(a.m, a.c.m) == a.m)
      && (StopM(v, t) || StopE(v, t) ==> NextCc(a.c, Next(a).w, a.cc) == a.cc)
  {
    hide Next, ViewOf, Timely, AllReached, Commit, IdealW, IdealM, IdealE, IdealD, MatchesM, MatchesE, NextCc, Stored;
    NextW(s0, n, a, t);
    NextFlags(s0, n, a, t);
    ViewChain(s0, t);
    var v := ViewOf(s0, t);
    if StopM(v, t) {
      ExceptionCommitsNoMemory(v.m);
    } else if StopE(v, t) {
      ExceptionCommitsNoMemory(v.e);
    }
  }

  /** In the last two cycles of a run the limit may hold back updates. */
  lemma HeldBackUpdates(x: SimState, limit: int)
    requires Coherent(x) && NextCc(x.curr, x.next.w, x.cc) == x.cc
    requires limit >= 2 || (limit == 1 && Stored(x.m, x.curr.m) == x.m)
    ensures SimStep(x, limit) == SimStep(x, 3)
  {
    hide Count, Settle, MarkErrors, UpdatePipes, StoreWord, NextStages, Controls, NextCc;
  }

  lemma ExceptionAhead(m: seq<Byte>, c: nat, k: nat)
    requires Supported(Start(m), CycleOf(Start(m), k)) && IsaRuns(Start(m), k) && IsaStatus(Start(m), k) != AOK
    requires CycleOf(Start(m), k) - 2 <= c < CycleOf(Start(m), k)
    ensures var t := TagsAfter(Start(m), c); var v := ViewOf(Start(m), t);
      if c + 1 == CycleOf(Start(m), k) then StopM(v, t) else StopE(v, t)
  {
    hide IsaAt, At, Step, Supported, Covered, IdealW, After, CycleOf, IsaRuns, IsaStatus, Arrival, FetchTime;
    hide FetchCycle, Completes, Coherent;
    var s0, n := Start(m), CycleOf(Start(m), k);
    EarlierIsCovered(s0, n, k);
    EarlierIsCovered(s0, c, k);
    SupportedEarlier(s0, c, n);
    FetchedInOrder(s0, k);
    StatusAt(s0, n, k);
    var t := RunInvariant(m, c);
    AheadOf(s0, c, CoreOf(After(m, c)), t, k);
  }

  /** An instruction that is in write back one or two cycles later is in the memory or execute stage. */
  lemma AheadOf(s0: IsaState, n: nat, a: Core, t: Tags, k: nat)
    requires Inv(s0, n, a, t) && Reached(s0, k)
    ensures Arrival(s0, k) == n + 1 ==> t.m && t.IM() == k
    ensures Arrival(s0, k) == n + 2 ==> t.e.Live? && t.IE() == k
  {
    hide At, Contents, AllReached, Returns, Mispredicts, Completes, Feeds, Arrival;
    var v := ViewOf(s0, t);
    if k > t.iw { StopEndsRun(s0, t.iw, k); }
    if k > t.IM() { StopEndsRun(s0, t.IM(), k); }
    if k > t.IE() { StopEndsRun(s0, t.IE(), k); }
    if t.iw > 0 && k < t.iw { Precedes(s0, k, t.iw - 1); }
    if t.IM() < k { ArrivalIncreases(s0, t.IM(), k); }
    if t.IE() < k { ArrivalIncreases(s0, t.IE(), k); }
    if t.ID() < k { ArrivalIncreases(s0, t.ID(), k); }
    if t.m { ArrivalNext(s0, t.IM()); }
    if t.e.Live? { ArrivalNext(s0, t.IE()); }
  }

  /** A run stops in just that cycle if its limits reach so far. The updates that the simulator holds back
      when a limit is near are none of the model's. Since a bubble's status is reported as AOK, the count
      that a run returns is of cycles rather than of instructions. */
  lemma RunStopsAtException(m: seq<Byte>, maxInstr: int, maxCycle: int, k: nat)
    requires Supported(Start(m), CycleOf(Start(m), k)) && IsaRuns(Start(m), k) && IsaStatus(Start(m), k) != AOK
    requires maxInstr >= CycleOf(Start(m), k) && maxCycle >= CycleOf(Start(m), k)
    ensures var n := CycleOf(Start(m), k);
      Run(Reset(m), maxInstr, maxCycle, 0, 0, AOK) == RunResult(After(m, n), n, IsaStatus(Start(m), k))
  {
    hide IsaAt, SimStep, Step, Supported, CycleOf;
    assert After(m, 0) == Reset(m);
    RunFrom(m, maxInstr, maxCycle, k, 0);
  }

  lemma AnyLimit(m: seq<Byte>, k: nat, c: nat, limit: int)
    requires Supported(Start(m), CycleOf(Start(m), k)) && IsaRuns(Start(m), k) && IsaStatus(Start(m), k) != AOK
    requires c < CycleOf(Start(m), k) <= c + limit
    ensures SimStep(After(m, c), limit) == After(m, c + 1)
  {
    hide IsaAt, SimStep, Step, Supported, Covered, CycleOf, IsaRuns, IsaStatus, Inv, Coherent, NextCc;
    hide Stored, TagsAfter, Start;
    var s0, n := Start(m), CycleOf(Start(m), k);
    assert After(m, c + 1) == SimStep(After(m, c), 3);
    if limit >= 3 {
      AnyRoomIsEnough(After(m, c), limit);
    } else {
      EarlierIsCovered(s0, c, k);
      SupportedEarlier(s0, c, n);
      var t := RunInvariant(m, c);
      ExceptionAhead(m, c, k);
      NothingToUpdate(s0, c, CoreOf(After(m, c)), t);
      NextOf(After(m, c));
      HeldBackUpdates(After(m, c), limit);
    }
  }

  lemma NextOf(x: SimState)
    requires Coherent(x)
    ensures x.next == Next(CoreOf(x))
  {}

  lemma {:induction false} RunFrom(m: seq<Byte>, maxInstr: int, maxCycle: int, k: nat, c: nat)
    requires Supported(Start(m), CycleOf(Start(m), k)) && IsaRuns(Start(m), k) && IsaStatus(Start(m), k) != AOK
    requires maxInstr >= CycleOf(Start(m), k) && maxCycle >= CycleOf(Start(m), k) && c < CycleOf(Start(m), k)
    ensures var n := CycleOf(Start(m), k);
      Run(After(m, c), maxInstr, maxCycle, c, c, AOK) == RunResult(After(m, n), n, IsaStatus(Start(m), k))
    decreases CycleOf(Start(m), k) - c
  {
    hide IsaAt, SimStep, Step, Supported, CycleOf, IsaRuns, Start;
    AnyLimit(m, k, c, maxInstr - c);
    ExceptionIsPrecise(m, k);
    NeverBubble(IsaAt(Start(m), k));
    if c + 1 < CycleOf(Start(m), k) {
      SupportedEarlier(Start(m), c + 1, CycleOf(Start(m), k));
      AokUntil(m, c + 1, k);
      RunFrom(m, maxInstr, maxCycle, k, c + 1);
    }
  }

  lemma NeverBubble(s: IsaState)
    ensures Step(s).1 != BUB
  {
    hide Decoding, WordAt, StoreWord, ComputeAlu, ComputeCc, CondHolds;
  }

  // ----- programs that the pipeline does not run like the model -----

  /** Behind instructions that are all alike the two runs are in the same state in the same cycle. */
  lemma {:induction false} AlikeRun(s0: IsaState, k: nat)
    requires |s0.m| <= MAX_LEN && IsaRuns(s0, k) && forall j: nat :: j < k ==> Alike(IsaAt(s0, j))
    ensures Reached(s0, k) && At(s0, k) == IsaAt(s0, k) && CycleOf(s0, k) == Arrival(s0, k)
  {
    hide Step, Commit, IdealW, Alike, Gap;
    if k > 0 {
      AlikeRun(s0, k - 1);
      LengthAt(s0, k - 1);
      StagesExecuteIsa(IsaAt(s0, k - 1));
    }
  }

  lemma ReachedInTime(s0: IsaState, k: nat)
    requires Reached(s0, k)
    ensures InTime(s0, Arrival(s0, k))
  {
    hide At, Reached, Completes, WritesNothing, Arrival;
    forall j: nat | Reached(s0, j) && !Completes(At(s0, j)) ensures Arrival(s0, k) <= Arrival(s0, j) {
      if j < k {
        StopEndsRun(s0, j, k);
      }
      Precedes(s0, k, j);
    }
  }

  /** The first instruction that is not alike shows. As long as forwarding and fetching do their part, which
      does not depend on the model, the status that the processor reports for an instruction behind alike
      ones is the model's if and only if it is alike as well. */
  lemma StatusExactly(m: seq<Byte>, k: nat)
    requires IsaRuns(Start(m), k) && (forall j: nat :: j < k ==> Alike(IsaAt(Start(m), j)))
    requires Sound(Start(m), CycleOf(Start(m), k))
    ensures var x := After(m, CycleOf(Start(m), k));
      && x.curr.w == IdealW(IsaAt(Start(m), k)) && x.status == x.curr.w.status && x.r == IsaAt(Start(m), k).r
      && (x.status == IsaStatus(Start(m), k) <==> Alike(IsaAt(Start(m), k)))
  {
    hide IsaAt, At, Step, Sound, IdealW, After, Arrival, CycleOf, Alike, IsaRuns, Reached, InTime, TagsAfter;
    var s0 := Start(m);
    assert |m| <= MAX_LEN by { SoundLength(s0, CycleOf(s0, k)); }
    AlikeRun(s0, k);
    ReachedInTime(s0, k);
    var n := Arrival(s0, k);
    InvariantHolds(m, n);
    var t := TagsAfter(s0, n);
    OnTime(s0, n, CoreOf(After(m, n)), t, k);
    LengthAt(s0, k);
    StagesExecuteIsa(IsaAt(s0, k));
    StatusOfInstruction(IsaAt(s0, k));
    InWriteBack(s0, n, After(m, n), t);
    NeverBubble(IsaAt(s0, k));
  }

  lemma SoundLength(s0: IsaState, n: nat)
    requires Sound(s0, n)
    ensures |s0.m| <= MAX_LEN
  {}

  lemma InWriteBack(s0: IsaState, n: nat, x: SimState, t: Tags)
    requires Coherent(x) && Inv(s0, n, CoreOf(x), t) && t.w
    ensures x.curr.w == IdealW(At(s0, t.iw)) && x.r == At(s0, t.iw).r && x.status == ProcStat(x.curr.w)
  {
    hide At, IdealW, NextStages, Controls, Timely, Ordered;
  }

  /** The opcode at the program counter, if there is one, is the one that is never counted. */
  predicate AtPop2(s: IsaState) {
    ByteOk(s.m, s.pc) && HI4(s.m[s.pc]) == I_POP2
  }

  lemma Pop2IsInvalid(s: IsaState)
    requires AtPop2(s)
    ensures Step(s).1 == INS
  {
    hide WordAt;
  }

  lemma Pop2InWriteBack(s: IsaState)
    requires Alike(s) && |s.m| <= MAX_LEN
    ensures IdealW(s).icode == I_POP2 <==> AtPop2(s)
  {
    hide ComputeAlu, CondHolds, WordAt, GetReg;
    assert ByteOk(s.m, s.pc) ==> Wrap(s.pc + 5) == s.pc + 5;
  }

  /** The performance counters: instructions counts the instructions that have reached write back, but for
      one with the code I_POP2, and cycles the cycles since the first that counts did. */
  lemma {:induction false} CountersExact(m: seq<Byte>, n: nat)
    requires n >= 1 && Supported(Start(m), n) && Running(Start(m), n)
    ensures var x := After(m, n);
      && x.perf.instructions == TagsAfter(Start(m), n).iw + One(Counted(x.curr.w))
      && x.perf.startingUp == (n < 5 || x.perf.instructions == 0)
      && (n > 5 ==> x.perf.instructions > 0)
      && x.perf.cycles == if x.perf.startingUp then 0 else n - 4
  {
    hide Supported, CycleOf, IsaRuns, Settle, MarkErrors, UpdatePipes, UpdateState, IsaAt, IsaStatus, TagsAfter, IdealW;
    BusyWriteBack(m, n);
    var x, t := After(m, n), TagsAfter(Start(m), n);
    CyclesFrom5(Start(m), t.iw);
    if n == 1 {
      assert After(m, 0) == Reset(m);
      FirstTags(m);
      CountStep(After(m, 0));
    } else {
      RunningIsCovered(Start(m), n - 1, n);
      SupportedEarlier(Start(m), n - 1, n);
      BusyWriteBack(m, n - 1);
      CountersExact(m, n - 1);
      TagsAdvance(m, n);
      CountBefore(m, n);
      CountStep(After(m, n - 1));
      if n == 5 || n == 6 {
        RunningIsCovered(Start(m), 5, n);
        SupportedEarlier(Start(m), 5, n);
        FirstInWriteBack(m);
      }
    }
  }

  lemma FirstTags(m: seq<Byte>)
    ensures TagsAfter(Start(m), 1).iw == 0
  {}

  lemma CyclesFrom5(s0: IsaState, k: nat)
    ensures CycleOf(s0, k) >= 5 && (CycleOf(s0, k) == 5 ==> k == 0)
  {
    hide IsaAt, Gap;
  }

  /** Every instruction but the last of a run counts. */
  lemma CountBefore(m: seq<Byte>, n: nat)
    requires n >= 2 && Supported(Start(m), n) && Running(Start(m), n)
    ensures Counted(After(m, n - 1).curr.w) <==> TagsAfter(Start(m), n - 1).w
  {
    hide IsaAt, Step, Supported, IdealW, After, CycleOf, IsaRuns, TagsAfter, FetchCycle;
    RunningIsCovered(Start(m), n - 1, n);
    SupportedEarlier(Start(m), n - 1, n);
    BusyWriteBack(m, n - 1);
    TagsAdvance(m, n);
    var t := TagsAfter(Start(m), n - 1);
    if t.w {
      CountedAt(Start(m), n, t.iw);
    }
  }

  /** An instruction in write back counts unless it is an I_POP2. */
  lemma CountedAt(s0: IsaState, n: nat, k: nat)
    requires Supported(s0, n) && IsaRuns(s0, k) && (FetchCycle(s0, k) < n || CycleOf(s0, k) <= n)
    ensures var s := IsaAt(s0, k); IdealW(s).status != BUB && (Counted(IdealW(s)) <==> !AtPop2(s))
    ensures IsaStatus(s0, k) == AOK ==> !AtPop2(IsaAt(s0, k))
  {
    hide IsaAt, Step, Supported, IdealW, CycleOf, FetchCycle, At, Alike, AtPop2;
    FetchedInOrder(s0, k);
    StatusAt(s0, n, k);
    SupportedAt(s0, n, k);
    LengthAt(s0, k);
    IsMaxLen(s0, n);
    StatusOfInstruction(IsaAt(s0, k));
    Pop2InWriteBack(IsaAt(s0, k));
    if AtPop2(IsaAt(s0, k)) {
      Pop2IsInvalid(IsaAt(s0, k));
    }
  }

  lemma CountStep(x: SimState)
    ensures var x' := SimStep(x, 3);
      x'.perf == if Counted(x'.curr.w) then Counters(false, x.perf.cycles + 1, x.perf.instructions + 1)
                 else if !x.perf.startingUp then x.perf.(cycles := x.perf.cycles + 1)
                 else x.perf
  {
    hide NextStages, Controls, Updates, Updated, StoreWord;
  }

  lemma FirstInWriteBack(m: seq<Byte>)
    requires Supported(Start(m), 5) && Running(Start(m), 5)
    ensures After(m, 5).curr.w.status != BUB && TagsAfter(Start(m), 5).iw == 0
  {
    hide IsaAt, At, Step, Supported, IdealW, After, TagsAfter, IsaStatus;
    RunningIsCovered(Start(m), 5, 5);
    InWriteBackOnTime(m, 5, 0);
    StatusAt(Start(m), 5, 0);
    StatusOfInstruction(At(Start(m), 0));
  }

  /** The figures of the CPI report for a run that ends with an exception at instruction k. All k + 1
      instructions are counted if and only if the last is not an I_POP2, and then each has cost one cycle
      and its bubbles, so never more than four. An I_POP2 that ends the run is left out of the instructions,
      and if it is the first, its cycle is left out as well. */
  lemma CyclesPerInstruction(m: seq<Byte>, k: nat)
    requires Supported(Start(m), CycleOf(Start(m), k)) && IsaRuns(Start(m), k) && IsaStatus(Start(m), k) != AOK
    ensures var p, uncounted := After(m, CycleOf(Start(m), k)).perf, AtPop2(IsaAt(Start(m), k));
      && (p.instructions == k + 1 <==> !uncounted) && (p.instructions == k <==> uncounted)
      && p.cycles == (if k == 0 && uncounted then 0 else k + 1 + Bubbles(Start(m), k))
      && (!uncounted ==> p.cycles <= 4 * p.instructions)
  {
    hide IsaAt, At, Step, Supported, IdealW, After, TagsAfter, IsaStatus, CycleOf, IsaRuns, FetchCycle, AtPop2;
    var n := CycleOf(Start(m), k);
    CycleBounds(Start(m), k);
    EndIsRunning(Start(m), k);
    RunningIsCovered(Start(m), n, n);
    CountersExact(m, n);
    InWriteBackOnTime(m, n, k);
    CountedAt(Start(m), n, k);
  }

  /** A program that starts with an I_POP2 ends at once with an invalid instruction and counts nothing. */
  lemma Pop2CountsNothing(m: seq<Byte>)
    requires 5 < |m| <= MAX_LEN && HI4(m[0]) == I_POP2
    ensures var n := CycleOf(Start(m), 0);
      && Supported(Start(m), n) && IsaStatus(Start(m), 0) == INS
      && After(m, n).status == INS && After(m, n).perf == Counters(true, 0, 0)
  {
    hide After;
    var s0 := Start(m);
    assert AtPop2(s0);
    Pop2IsInvalid(s0);
    assert CycleOf(s0, 0) == 5 && IsaAt(s0, 0) == s0;
    FirstFaults(s0, 5);
    ExceptionIsPrecise(m, 0);
    CyclesPerInstruction(m, 0);
    EndIsRunning(s0, 0);
    CountersExact(m, 5);
  }

  /** Three cycles before it is in write back, an instruction leaves decode. */
  lemma InDecode(s0: IsaState, n: nat, a: Core, t: Tags, k: nat)
    requires Inv(s0, n, a, t) && Reached(s0, k) && n + 3 == Arrival(s0, k)
    ensures t.d.Live? && t.ID() == k && !Held(ViewOf(s0, t), t)
  {
    hide At, Contents, AllReached, Returns, Mispredicts, Completes, Feeds, Arrival;
    var v := ViewOf(s0, t);
    if k < t.ID() {
      Precedes(s0, k, t.ID() - 1);
      assert false;
    }
    if k > t.iw { StopEndsRun(s0, t.iw, k); }
    if k > t.IM() { StopEndsRun(s0, t.IM(), k); }
    if k > t.IE() { StopEndsRun(s0, t.IE(), k); }
    Precedes(s0, t.ID(), k);
    if t.d.Live? && t.ID() < k {
      ArrivalIncreases(s0, t.ID(), k);
    }
    if !t.d.Live? {
      if t.m { ArrivalNext(s0, t.IM()); }
      if t.e.Live? { ArrivalNext(s0, t.IE()); }
    }
  }

  lemma Precedes(s0: IsaState, j: nat, k: nat)
    requires j <= k
    ensures Arrival(s0, j) <= Arrival(s0, k)
  {
    if j < k {
      ArrivalIncreases(s0, j, k);
    }
  }

  /** Forwarding along every run: when instruction k leaves decode, each operand it uses that comes from a
      register has the value the model gives it, although up to three older instructions have not yet
      written their registers. The model reads an operand without a register as 0; the pipeline takes what
      strays into it, and so agrees with the model if and only if that is 0. */
  lemma OperandsAreArchitectural(m: seq<Byte>, n: nat, k: nat)
    requires n >= 1 && Supported(Start(m), n) && Covered(Start(m), n)
    requires IsaRuns(Start(m), k) && n + 3 == CycleOf(Start(m), k)
    ensures var e, s, stray := After(m, n).next.e, IsaAt(Start(m), k), Stray(IsaLatest(Start(m), k));
      && After(m, n).curr.d == IdealD(s) && MatchesUpTo(e, s, stray)
      && (MatchesE(e, s) <==> (ReadsNoRegister(IdealD(s)) ==> stray == 0))
  {
    hide IsaAt, At, Step, Supported, Covered, After, CycleOf, Arrival, Latest, IsaLatest, Stray, MatchesUpTo, MatchesE;
    hide FetchCycle, FetchTime, ReadsNoRegister, Inv, NextStages, IdealD, IdealE, IsaRuns, Reached, TagsAfter, Start;
    var s0 := Start(m);
    var t := RunInvariant(m, n);
    FetchedInOrder(s0, k);
    if k > 0 {
      FetchedInOrder(s0, k - 1);
    }
    StatusAt(s0, n, k);
    LatestAgree(s0, n, k);
    InDecode(s0, n, CoreOf(After(m, n)), t, k);
    SupportedIsSound(s0, n);
    LiveOperands(s0, n, CoreOf(After(m, n)), t);
    DecodeHolds(s0, n, CoreOf(After(m, n)), t);
    StrayDecides(After(m, n).next.e, IsaAt(s0, k), Stray(IsaLatest(s0, k)));
  }

  lemma DecodeHolds(s0: IsaState, n: nat, a: Core, t: Tags)
    requires Inv(s0, n, a, t) && t.d.Live?
    ensures a.c.d == IdealD(At(s0, t.ID()))
  {
    hide At, IdealD;
  }
}
