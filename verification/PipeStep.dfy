/** One cycle of the pipeline keeps the invariant. */
module PipeStep {
  import opened Words
  import opened Memory
  import opened Isa
  import opened PipeStd
  import opened Psim
  import opened Sequential
  import opened StageLemmas
  import opened PipeInvariant

  lemma CommitParts(s: IsaState)
    ensures Commit(s).r == WriteBack(s.r, IdealW(s))
    ensures Commit(s).cc == FlagsAfter(s)
    ensures Commit(s).pc == NextPc(s)
  {
    hide IdealW, WriteBack, FlagsAfter, NextPc, IdealM, Stored;
  }

  lemma BubblesWriteNothing(r: RegFile, w: MemWb)
    requires BubbleW(w)
    ensures WriteBack(r, w) == r
  {}

  /** What write back does, and what the memory stage hands on to it. */
  lemma NextW(s0: IsaState, n: nat, a: Core, t: Tags)
    requires Inv(s0, n, a, t)
    ensures var v, x := ViewOf(s0, t), Next(a);
      && (if t.m then x.w == IdealW(v.m) else BubbleW(x.w))
      && Stored(a.m, a.c.m) == v.e.m && WriteBack(a.r, a.c.w) == v.m.r
  {
    ViewChain(s0, t);
    var v := ViewOf(s0, t);
    hide ViewOf, Ordered, Timely, AllReached;
    if t.w {
      CommitParts(v.w);
    } else {
      BubblesWriteNothing(a.r, a.c.w);
    }
    if t.m {
      MemoryMatches(a.c.m, v.m);
    }
    hide Commit, WriteBack, IdealW, IdealM, MatchesM, FetchStage, ExecStage, DecodeStage, StoreWord, WordAt;
    hide PredictStage;
  }

  /** What the execute stage hands on. */
  lemma NextM(s0: IsaState, n: nat, a: Core, t: Tags)
    requires Inv(s0, n, a, t)
    ensures var v, x := ViewOf(s0, t), Next(a);
      && (t.e.Live? ==> MatchesM(x.m, v.e))
      && (t.e.Empty? ==> BubbleM(x.m))
  {
    var v, x := ViewOf(s0, t), Next(a);
    assert x.m == ExecStage(a.c.e, a.cc);
    if t.e.Live? {
      ExecuteMatches(a.c.e, v.e);
    } else if t.e.Empty? {
      hide ViewOf, Timely, AllReached, CondHolds, ComputeAlu, FetchStage, MemStage, DecodeStage, PredictStage, FPc;
    }
  }

  lemma FlagsFromExecute(c: Stages, wbNext: MemWb, s: IsaState)
    requires MatchesE(c.e, s) && !Excepting(wbNext.status) && !Excepting(c.w.status)
    ensures NextCc(c, wbNext, s.cc) == Commit(s).cc
  {
    ExecuteMatches(c.e, s);
    CommitParts(s);
    assert c.e.icode == IdealE(s).icode;
    hide Commit, IdealE, MatchesM, ExecStage, ComputeCc;
  }

  /** The condition codes after this cycle. An instruction behind an exception does not set them. */
  lemma NextFlags(s0: IsaState, n: nat, a: Core, t: Tags)
    requires Inv(s0, n, a, t)
    ensures NextCc(a.c, Next(a).w, a.cc) == ViewOf(s0, t).d.cc
  {
    hide Next, ViewOf, Timely, AllReached, Commit, IdealW, IdealM, IdealE, IdealD, MatchesM, MatchesE;
    hide FlagsAfter, ComputeCc;
    hide AluA, AluB, AluFun, OnPath, FPc, Mispredicts, Returns;
    ViewChain(s0, t);
    NextW(s0, n, a, t);
    var v, w := ViewOf(s0, t), Next(a).w;
    StatusOfInstruction(v.w);
    StatusOfInstruction(v.m);
    if t.e.Live? {
      FlagsFromExecute(a.c, w, v.e);
    } else if t.e.Junk? {
      assert Excepting(w.status) || Excepting(a.c.w.status);
    }
  }

  lemma GapIsDelay(s0: IsaState, k: nat)
    requires k >= 1
    ensures Gap(At(s0, k - 1), At(s0, k)) == Arrival(s0, k) - Arrival(s0, k - 1) - 1
  {
    hide At, Gap;
  }

  /** What forwarding gives to an operand without a register is known from the instructions before. */
  lemma StrayValue(s0: IsaState, n: nat, a: Core, t: Tags)
    requires Inv(s0, n, a, t) && t.d.Live? && !Held(ViewOf(s0, t), t)
    ensures var x := Next(a);
      Forward(REG_NONE, x.m, a.c.m, x.w, a.c.w, 0) == Stray(Latest(s0, t.ID(), 4))
  {
    hide At, Gap, Next, NextStages, IdealW, IdealM, IdealE, IdealD, Commit, AllReached, OnPath, FPc, Arrival;
    hide Returns, Mispredicts, Feeds;
    NextW(s0, n, a, t);
    NextM(s0, n, a, t);
    var v, w := ViewOf(s0, t), Latest(s0, t.ID(), 4);
    StatusOfInstruction(v.m);
    if t.ID() >= 1 { GapIsDelay(s0, t.ID()); }
    if t.ID() >= 2 { GapIsDelay(s0, t.ID() - 1); }
    if t.ID() >= 3 { GapIsDelay(s0, t.ID() - 2); }
  }

  /** An instruction on the path is fetched now, and the stores of those in flight are still to be made. */
  lemma FetchedByNow(s0: IsaState, n: nat, v: View, t: Tags)
    requires v == ViewOf(s0, t) && Timely(s0, n, v, t)
    ensures OnPath(v, t) && !Held(v, t) && (t.d.Live? || t.d.Empty?) ==> FetchTime(s0, t.IF()) <= n
    ensures OnPath(v, t) && !t.e.Junk? && !t.d.Junk? && t.IM() < t.IF() ==> n < Arrival(s0, t.IM())
  {
    FetchBeforeArrival(s0, t.IF());
    HeldBack(v.e, v.d);
    hide At, Arrival, Returns, Mispredicts, Feeds, Completes;
  }

  lemma HeldBack(s: IsaState, s': IsaState)
    ensures Feeds(s, s') ==> Gap(s, s') == 1
  {
    hide IdealE, IdealM;
  }

  /** What decode hands on: for a live instruction that is not held back, its own operands, but for what
      strays into an operand without a register. */
  lemma NextE(s0: IsaState, n: nat, a: Core, t: Tags)
    requires Inv(s0, n, a, t)
    ensures var v, x := ViewOf(s0, t), Next(a);
      && (t.d.Live? ==> (x.e.srca, x.e.srcb) == (IdealE(v.d).srca, IdealE(v.d).srcb))
      && (t.d.Live? && !Held(v, t) ==> MatchesUpTo(x.e, v.d, Stray(Latest(s0, t.ID(), 4))))
      && (t.d.Empty? ==> BubbleE(x.e))
  {
    hide Latest, Stray, At, MatchesUpTo;
    var v, x := ViewOf(s0, t), Next(a);
    assert x.e == DecodeStage(a.c.d, x.m, a.c.m, x.w, a.c.w, a.r);
    if t.d.Live? {
      if !Held(v, t) {
        LiveOperands(s0, n, a, t);
      }
    } else if t.d.Empty? {
      hide Forward, ViewOf, Timely, AllReached, Commit, IdealW, IdealM, FetchStage, MemStage, ExecStage;
      hide PredictStage, FPc;
    }
  }

  lemma LiveOperands(s0: IsaState, n: nat, a: Core, t: Tags)
    requires Inv(s0, n, a, t) && t.d.Live? && !Held(ViewOf(s0, t), t)
    ensures MatchesUpTo(Next(a).e, ViewOf(s0, t).d, Stray(Latest(s0, t.ID(), 4)))
  {
    hide Latest, Stray, At, MatchesUpTo;
    var v, x := ViewOf(s0, t), Next(a);
    NextW(s0, n, a, t);
    NextM(s0, n, a, t);
    StrayValue(s0, n, a, t);
    var retired := if t.e.Live? then IdealW(v.e) else MemWb(I_NOP, 0, x.m.vale, 0, REG_NONE, REG_NONE, BUB, 0);
    RetiredFromExecute(s0, n, a, t, retired);
    hide IdealW, IdealM, IdealE, MatchesM, MatchesE, FetchStage, MemStage, ExecStage, DecodeStage;
    hide PredictStage, Forward;
    assert x.e == DecodeStage(a.c.d, x.m, a.c.m, x.w, a.c.w, a.r);
    DecodeMatches(a.c.d, v.d, x.m, a.c.m, x.w, a.c.w, a.r, retired);
  }

  /** Up to the next cycle nothing has strayed into an instruction that leaves decode now. */
  lemma LeavesDecode(s0: IsaState, n: nat, a: Core, t: Tags)
    requires Inv(s0, n, a, t) && Sound(s0, n + 1) && t.d.Live? && !Held(ViewOf(s0, t), t)
    ensures MatchesE(Next(a).e, ViewOf(s0, t).d)
  {
    hide Latest, At, Unwritten, FetchTime, Contents, Ordered, Stray, MatchesUpTo, MatchesE, Next;
    assert Unstrayed(Latest(s0, t.ID(), 4));
    LatestFirst(s0, t.ID());
    LiveOperands(s0, n, a, t);
    StrayDecides(Next(a).e, ViewOf(s0, t).d, Stray(Latest(s0, t.ID(), 4)));
  }

  lemma LatestFirst(s0: IsaState, k: nat)
    ensures Latest(s0, k, 4)[0] == At(s0, k)
  {
    hide At;
  }

  /** The instruction in execute, seen as what it will write back. */
  lemma RetiredFromExecute(s0: IsaState, n: nat, a: Core, t: Tags, retired: MemWb)
    requires Inv(s0, n, a, t) && t.d.Live? && !Held(ViewOf(s0, t), t)
    requires var v, x := ViewOf(s0, t), Next(a);
      retired == if t.e.Live? then IdealW(v.e) else MemWb(I_NOP, 0, x.m.vale, 0, REG_NONE, REG_NONE, BUB, 0)
    ensures var v, x := ViewOf(s0, t), Next(a);
      && v.d.r == WriteBack(WriteBack(WriteBack(a.r, a.c.w), x.w), retired)
      && (retired.deste, retired.vale, retired.destm) == (x.m.deste, x.m.vale, x.m.destm)
      && (x.m.destm < REG_NONE ==> x.m.destm !in {DSrcA(a.c.d), DSrcB(a.c.d)})
  {
    ViewChain(s0, t);
    NextW(s0, n, a, t);
    NextM(s0, n, a, t);
    var v, x := ViewOf(s0, t), Next(a);
    if t.m {
      CommitParts(v.m);
    } else {
      BubblesWriteNothing(v.m.r, x.w);
    }
    if t.e.Live? {
      CommitParts(v.e);
      StatusOfInstruction(v.e);
    } else {
      BubblesWriteNothing(v.e.r, retired);
    }
    hide ViewOf, Timely, AllReached, Commit, WriteBack, IdealW, FetchStage, MemStage, ExecStage, DecodeStage;
    hide PredictStage, FPc;
  }

  /** A fetch on the path finds the next instruction. */
  lemma NextD(s0: IsaState, n: nat, a: Core, t: Tags)
    requires Inv(s0, n, a, t) && Sound(s0, n + 1)
    ensures var v := ViewOf(s0, t); OnPath(v, t) && !Held(v, t) ==> Next(a).d == IdealD(v.f)
  {
    var v := ViewOf(s0, t);
    if OnPath(v, t) && !Held(v, t) {
      assert !t.d.Junk?;
      FetchedByNow(s0, n, v, t);
      assert Unwritten(s0, t.IF());
      FetchEarly(s0, t.IM(), t.IF());
      hide FetchStage, MemStage, ExecStage, DecodeStage, PredictStage, FPc, MatchesE, MatchesM, Timely, Ordered;
    }
  }

  predicate Mispredicting(v: View, t: Tags) { t.e.Live? && Mispredicts(v.e) }

  predicate AwaitsReturn(v: View, t: Tags) {
    (t.d.Live? && Returns(v.d)) || (t.e.Live? && Returns(v.e)) || (t.m && Returns(v.m))
  }

  /** The hazard logic sees just the hazards of the instructions in flight. */
  lemma Hazards(s0: IsaState, n: nat, a: Core, t: Tags)
    requires Inv(s0, n, a, t)
    requires var v := ViewOf(s0, t); !StopW(v, t) && !StopM(v, t) && !StopE(v, t)
    ensures var v, x := ViewOf(s0, t), Next(a);
      && Mispredicted(a.c.e, x.m.takebranch) == Mispredicting(v, t)
      && LoadUse(a.c.e, x.e.srca, x.e.srcb) == Held(v, t)
      && (!Mispredicting(v, t) ==> Returning(a.c.d, a.c.e, a.c.m) == AwaitsReturn(v, t))
  {
    hide Latest, Stray, At, MatchesUpTo;
    NextM(s0, n, a, t);
    NextE(s0, n, a, t);
    var v, x := ViewOf(s0, t), Next(a);
    assert x.m.icode == a.c.e.icode;
    assert x.e.srca == DSrcA(a.c.d) && x.e.srcb == DSrcB(a.c.d);
    StatusOfInstruction(v.m);
    StatusOfInstruction(v.e);
    StatusOfInstruction(v.d);
    HazardsOfStages(a, v, t, x);
  }

  lemma HazardsOfStages(a: Core, v: View, t: Tags, x: Stages)
    requires Contents(a, v, t) && Ordered(v, t) && !StopW(v, t) && !StopM(v, t) && !StopE(v, t)
    requires t.e.Live? ==> MatchesM(x.m, v.e)
    requires t.e.Empty? ==> BubbleM(x.m)
    requires t.d.Live? ==> (x.e.srca, x.e.srcb) == (IdealE(v.d).srca, IdealE(v.d).srcb)
    requires forall s :: s == v.m || s == v.e || s == v.d ==> IdealE(s).icode == IdealM(s).icode == IdealD(s).icode
    ensures Mispredicted(a.c.e, x.m.takebranch) == Mispredicting(v, t)
    ensures LoadUse(a.c.e, x.e.srca, x.e.srcb) == Held(v, t)
    ensures !Mispredicting(v, t) ==> Returning(a.c.d, a.c.e, a.c.m) == AwaitsReturn(v, t)
  {
    hide IdealE, IdealM, IdealD, IdealW, FPc;
  }

  /** The indices in flight one cycle later, in terms of the current ones. */
  lemma NextIndices(v: View, t: Tags)
    requires Ordered(v, t) && !StopW(v, t)
    ensures var t' := NextTags(v, t);
      && t'.iw == t.IM() && t'.IM() == t.IE() && t'.IE() == t.ID()
      && t'.ID() == (if t'.e.Live? then t.IF() else t.ID())
      && t'.IF() == (if t'.d.Live? then (if Held(v, t) then t.IF() else t.IF() + 1) else t'.ID())
      && (t'.e.Live? ==> t.d.Live? && !Held(v, t) && !Mispredicting(v, t))
      && (t'.d.Live? ==> Held(v, t) || OnPath(v, t))
  {
    hide Mispredicts, Returns, Completes, Feeds;
  }

  lemma StepReached(s0: IsaState, v: View, t: Tags)
    requires v == ViewOf(s0, t) && AllReached(s0, v, t) && Ordered(v, t) && !StopW(v, t)
    ensures var t' := NextTags(v, t); AllReached(s0, ViewOf(s0, t'), t')
  {
    hide Mispredicts, Returns, Feeds, At, Completes, Reached;
    NextIndices(v, t);
    ReachedNext(s0, t.IM());
    ReachedNext(s0, t.IE());
    ReachedNext(s0, t.ID());
    ReachedNext(s0, t.IF());
  }

  lemma ReachedNext(s0: IsaState, k: nat)
    ensures Reached(s0, k) && Completes(At(s0, k)) ==> Reached(s0, k + 1)
  {
    hide Completes, At;
  }

  lemma StepOrdered(s0: IsaState, v: View, t: Tags)
    requires v == ViewOf(s0, t) && Ordered(v, t) && !StopW(v, t)
    ensures var t' := NextTags(v, t); Ordered(ViewOf(s0, t'), t')
  {
    hide Mispredicts, Returns, Feeds, At, Completes, Ordered, NextTags;
    NextIndices(v, t);
    StatusOfInstruction(v.e);
    OrderNext(v, t, ViewOf(s0, NextTags(v, t)));
  }

  lemma OrderNext(v: View, t: Tags, v': View)
    requires Ordered(v, t) && !StopW(v, t)
    requires v'.w == v.m && v'.m == v.e && v'.e == v.d && (Mispredicts(v.e) ==> Completes(v.e))
    requires var t' := NextTags(v, t);
      (t'.e.Live? ==> t.d.Live? && !Held(v, t) && !Mispredicting(v, t)) && (t'.d.Live? ==> Held(v, t) || OnPath(v, t))
    ensures Ordered(v', NextTags(v, t))
  {
    hide Mispredicts, Returns, Feeds, Completes;
  }

  lemma ArrivalNext(s0: IsaState, k: nat)
    ensures Arrival(s0, k + 1) == Arrival(s0, k) + 1 + Gap(At(s0, k), At(s0, k + 1))
    ensures Mispredicts(At(s0, k)) ==> Arrival(s0, k + 1) == Arrival(s0, k) + 3
    ensures Returns(At(s0, k)) ==> Arrival(s0, k + 1) == Arrival(s0, k) + 4
  {
    hide At, IdealE, IdealM, Feeds;
  }

  lemma StepTimely(s0: IsaState, n: nat, v: View, t: Tags)
    requires v == ViewOf(s0, t) && Ordered(v, t) && Timely(s0, n, v, t) && !StopW(v, t)
    ensures var t' := NextTags(v, t); Timely(s0, n + 1, ViewOf(s0, t'), t')
  {
    hide Mispredicts, Returns, Feeds, At, Completes, Arrival;
    NextIndices(v, t);
    if t.m && Returns(v.m) {
      ArrivalNext(s0, t.IM());
    }
    if Mispredicting(v, t) {
      ArrivalNext(s0, t.IE());
    }
    if t.d.Live? && OnPath(v, t) {
      ArrivalNext(s0, t.ID());
    }
  }

  lemma StepContents(s0: IsaState, n: nat, a: Core, t: Tags)
    requires Inv(s0, n, a, t) && Sound(s0, n + 1) && !StopW(ViewOf(s0, t), t)
    ensures var t' := NextTags(ViewOf(s0, t), t); Holding(Advance(a), ViewOf(s0, t'), t')
  {
    hide At, IdealW, IdealM, IdealE, IdealD, MatchesM, MatchesE, MatchesUpTo, NextStages, Stored, WriteBack;
    hide NextCc, Timely, AllReached;
    hide LoadUse, Mispredicted, Returning, Mispredicts, Returns, Feeds, FPc, OnPath;
    var v, x := ViewOf(s0, t), Next(a);
    NextIndices(v, t);
    NextW(s0, n, a, t);
    NextM(s0, n, a, t);
    NextFlags(s0, n, a, t);
    NextE(s0, n, a, t);
    if t.d.Live? && !Held(v, t) {
      LeavesDecode(s0, n, a, t);
    }
    NextD(s0, n, a, t);
    StatusOfInstruction(v.w);
    StatusOfInstruction(v.m);
    if !StopM(v, t) && !StopE(v, t) {
      Hazards(s0, n, a, t);
    }
  }

  /** After a misprediction the jump, now in memory, hands its fall-through address to fetch. */
  lemma PcAfterMisprediction(s: IsaState, x: ExMem)
    requires MatchesM(x, s) && Mispredicts(s)
    ensures x.icode == I_JMP && !x.takebranch && x.vala == Commit(s).pc
  {
    hide FetchStage, CondHolds, MemStage, ComputeAlu;
  }

  lemma PcAfterReturn(s: IsaState)
    requires Returns(s)
    ensures IdealW(s).icode == I_RET && IdealW(s).valm == Commit(s).pc
  {
    StatusOfInstruction(s);
    hide IdealW, IdealM, IdealD, WriteBack, Stored;
  }

  /** Otherwise the prediction made at fetch is right. */
  lemma PcAsPredicted(s: IsaState)
    requires !Returns(s) && !Mispredicts(s)
    ensures PredictStage(IdealD(s)).pc == Commit(s).pc
  {
    hide FetchStage, IdealW, IdealM, WriteBack, Stored;
  }

  lemma FetchSource(a: Core, v: View, t: Tags)
    requires Holding(a, v, t)
    ensures FPc(a.c.f, a.c.m, a.c.w)
         == if t.m && Mispredicts(v.m) then a.c.m.vala
            else if t.w && Returns(v.w) then a.c.w.valm
            else a.c.f.pc
  {
    StatusOfInstruction(v.w);
    StatusOfInstruction(v.m);
    hide IdealE, IdealM, IdealW, IdealD, MatchesE;
  }

  lemma NextFetch(s0: IsaState, n: nat, a: Core, t: Tags)
    requires Inv(s0, n, a, t)
    requires var v := ViewOf(s0, t); !StopW(v, t) && !StopM(v, t) && !StopE(v, t) && !Mispredicting(v, t)
    ensures var v := ViewOf(s0, t);
      Advance(a).c.f == if Held(v, t) || AwaitsReturn(v, t) then a.c.f else PredictStage(Next(a).d)
  {
    Hazards(s0, n, a, t);
    hide Inv, ViewOf, Held, AwaitsReturn, LoadUse, Returning, FetchStage, DecodeStage, ExecStage, MemStage, FPc;
    hide DBubble, EBubble, MBubble, WStall;
  }

  lemma OnPathNext(v: View, t: Tags, v': View, t': Tags)
    requires Ordered(v, t) && !StopW(v, t) && t' == NextTags(v, t) && OnPath(v', t') && Ordered(v', t')
    requires v'.w == v.m && v'.m == v.e && v'.e == v.d && (Held(v, t) ==> v'.d == v.d)
    requires Feeds(v.e, v.d) ==> !Returns(v.e) && !Mispredicts(v.e)
    ensures !StopM(v, t) && !StopE(v, t)
    ensures t.m && Returns(v.m) ==> !t'.m
    ensures !Mispredicting(v, t) && !(t.m && Returns(v.m)) ==> OnPath(v, t) && t'.d.Live? && !AwaitsReturn(v, t)
    ensures Held(v, t) ==> !(t.m && (Mispredicts(v.m) || Returns(v.m))) && !(t.w && Returns(v.w))
  {
    hide Completes, Returns, Mispredicts, Feeds;
  }

  lemma StepPc(s0: IsaState, n: nat, a: Core, t: Tags)
    requires Inv(s0, n, a, t) && Sound(s0, n + 1) && !StopW(ViewOf(s0, t), t)
    ensures var t' := NextTags(ViewOf(s0, t), t); Contents(Advance(a), ViewOf(s0, t'), t')
  {
    hide At, Commit, IdealW, IdealM, IdealE, IdealD, MatchesE, MatchesM, Advance, Next, FPc, Timely;
    hide AllReached, Sound, NextTags;
    var v, a' := ViewOf(s0, t), Advance(a);
    var t' := NextTags(v, t);
    var v' := ViewOf(s0, t');
    StepContents(s0, n, a, t);
    if OnPath(v', t') {
      NextIndices(v, t);
      StepOrdered(s0, v, t);
      StatusOfInstruction(v.e);
      OnPathNext(v, t, v', t');
      FetchSource(a, v, t);
      FetchSource(a', v', t');
      ViewChain(s0, t');
      if Mispredicting(v, t) {
        PcAfterMisprediction(v.e, a'.c.m);
      } else if t.m && Returns(v.m) {
        PcAfterReturn(v.m);
      } else {
        NextFetch(s0, n, a, t);
        NextD(s0, n, a, t);
        if !Held(v, t) {
          PcAsPredicted(v.f);
        }
      }
    }
  }

  /** The pipeline keeps its invariant from one cycle to the next. Once an exception is in write back it
      keeps it as long as the excepting instruction writes no register. */
  lemma StepKeepsInv(s0: IsaState, n: nat, a: Core, t: Tags)
    requires Inv(s0, n, a, t) && Sound(s0, n + 1)
    requires StopW(ViewOf(s0, t), t) ==> WriteBack(a.r, a.c.w) == a.r
    ensures Inv(s0, n + 1, Advance(a), NextTags(ViewOf(s0, t), t))
  {
    var v := ViewOf(s0, t);
    if StopW(v, t) {
      StepStopped(s0, n, a, t);
    } else {
      hide At, Advance, NextTags, AllReached, Ordered, Contents, Timely;
      StepReached(s0, v, t);
      StepOrdered(s0, v, t);
      StepTimely(s0, n, v, t);
      StepPc(s0, n, a, t);
    }
  }

  lemma StepStopped(s0: IsaState, n: nat, a: Core, t: Tags)
    requires Inv(s0, n, a, t) && StopW(ViewOf(s0, t), t) && WriteBack(a.r, a.c.w) == a.r
    ensures Inv(s0, n + 1, Advance(a), NextTags(ViewOf(s0, t), t))
  {
    hide At, IdealW, IdealM, IdealE, IdealD, MatchesM, MatchesE, WriteBack, FPc;
    var v := ViewOf(s0, t);
    StatusOfInstruction(v.w);
    hide FetchStage, DecodeStage, ExecStage, MemStage;
  }
}
