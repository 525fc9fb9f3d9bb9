/** Programs that change their own code: the change is seen if it has been made when the instruction is
    fetched. */
module PipePatches {
  import opened Words
  import opened Memory
  import opened Isa
  import opened Assembly
  import opened PipeStd
  import opened Psim
  import opened Sequential
  import opened StageLemmas
  import opened PipeInvariant
  import opened PipeStep
  import opened PipeTheorems
  import opened PipeCorrect
  import opened PipeRuns
  import opened PipeExamples

  /** rmmovq %rax,at: with all registers 0, it turns the nop there into a halt. */
  predicate Patches(m: seq<Byte>, at: nat) {
    && 48 <= |m| <= MAX_LEN && 10 <= at <= 40 && m[at] == 0x10
    && m[0..10] == Encoding(Rmmovq, Fields(0, REG_NONE, at))
  }

  lemma PatchStep(m: seq<Byte>, at: nat)
    requires Patches(m, at)
    ensures Step(Start(m)) == (Start(m).(pc := 10, m := StoreWord(m, at, 0)), AOK) && StoreWord(m, at, 0)[at] == 0
    ensures var x := IdealM(Start(m)); x.icode == I_RMMOVQ && MemAddr(x) == at
    ensures Alike(Start(m)) && Complete(Start(m)) && IdealD(Start(m)).icode == I_RMMOVQ
  {
    hide Encoding, Encode, StoreWord;
    DecodesAsAssembled(m, 0, Rmmovq, Fields(0, REG_NONE, at));
    assert Wrap(0 + 5) == 5 && Wrap(0 + 1) == 1 && Wrap(0 + 2) == 2;
    FirstByte(m, at);
  }

  lemma FirstByte(m: seq<Byte>, at: nat)
    requires at + 8 <= |m|
    ensures StoreWord(m, at, 0)[at] == 0
  {
    assert Encode(0, 8)[0] == 0;
  }

  /** Behind it a jne, which is not taken but predicted, and then the nop. */
  predicate PatchesBehindJump(m: seq<Byte>) {
    Patches(m, 19) && m[10..19] == Encoding(Jmp(C_NE), NO_FIELDS)
  }

  lemma JumpBetween(m: seq<Byte>)
    requires PatchesBehindJump(m)
    ensures var s1 := Start(m).(pc := 10, m := StoreWord(m, 19, 0));
      && Step(s1) == (s1.(pc := 19), AOK) && Step(s1.(pc := 19)) == (s1.(pc := 19), HLT)
      && Alike(s1) && Mispredicts(s1) && !Returns(s1) && !MemWrite(IdealM(s1)) && !ReadsNoRegister(IdealD(s1))
      && Alike(s1.(pc := 19)) && !ReadsNoRegister(IdealD(s1.(pc := 19)))
  {
    hide Encoding, StoreWord, Encode, WordAt;
    var m' := StoreWord(m, 19, 0);
    StoreElsewhere(m, 19, 0, 10, 19);
    DecodesAsAssembled(m', 10, Jmp(C_NE), NO_FIELDS);
    FirstByte(m, 19);
    assert Wrap(10 + 5) == 15 && Wrap(10 + 1) == 11 && Wrap(19 + 5) == 24;
  }

  lemma RedirectingIcodes(s: IsaState, s': IsaState)
    ensures Returns(s) ==> IdealD(s).icode == I_RET
    ensures Mispredicts(s) ==> IdealD(s).icode == I_JMP
    ensures Feeds(s, s') ==> IdealD(s).icode in {I_MRMOVQ, I_POPQ}
  {
    hide FetchStage;
  }

  lemma ThreeStates(s0: IsaState, s1: IsaState, s2: IsaState)
    requires Step(s0) == (s1, AOK) && Step(s1) == (s2, AOK)
    ensures IsaAt(s0, 0) == s0 && IsaAt(s0, 1) == s1 && IsaAt(s0, 2) == s2 && IsaRuns(s0, 2)
  {
    hide Step;
    assert IsaAt(s0, 0) == s0 && IsaAt(s0, 1) == s1;
    assert IsaRuns(s0, 0) && IsaRuns(s0, 1);
  }

  lemma PatchedStates(m: seq<Byte>)
    requires PatchesBehindJump(m)
    ensures var s0 := Start(m); var s1 := s0.(pc := 10, m := StoreWord(m, 19, 0));
      && IsaAt(s0, 0) == s0 && IsaAt(s0, 1) == s1 && IsaAt(s0, 2) == s1.(pc := 19)
      && IsaRuns(s0, 2) && IsaStatus(s0, 2) == HLT
      && CycleOf(s0, 0) == 5 && CycleOf(s0, 1) == 6 && FetchCycle(s0, 2) == 5
  {
    hide Step, StoreWord, Mispredicts, Returns, Feeds, IdealM, IdealD, Alike, IsaAt, IsaRuns, Start, Patches;
    hide ReadsNoRegister;
    var s0 := Start(m);
    PatchStep(m, 19);
    JumpBetween(m);
    var s1 := s0.(pc := 10, m := StoreWord(m, 19, 0));
    ThreeStates(s0, s1, s1.(pc := 19));
    RedirectingIcodes(s0, s1);
    assert CycleOf(s0, 0) == 5;
  }

  /** The misprediction delays the fetch until the store has been made. So this is supported: the pipeline
      fetches the halt, as the model does. */
  lemma PatchInTime(m: seq<Byte>, cycle: nat)
    requires PatchesBehindJump(m)
    ensures Supported(Start(m), cycle) && IsaRuns(Start(m), 2) && IsaStatus(Start(m), 2) == HLT
    ensures !StoreMisses(IsaAt(Start(m), 0), IsaAt(Start(m), 2))
  {
    hide Step, CycleOf, FetchCycle, IsaRuns, IsaAt, StoreWord, Alike, Unstrayed, IsaUnwritten, StoreMisses;
    hide IdealM, IdealD;
    hide Mispredicts, Returns, ReadsNoRegister, Encoding, Supported, IsaLatest;
    var s0 := Start(m);
    PatchStep(m, 19);
    JumpBetween(m);
    PatchedStates(m);
    PatchMisses(m);
    PatchUnwritten(m);
    FirstIsUnstrayed(s0);
    NoOperandIsUnstrayed(s0, 1);
    NoOperandIsUnstrayed(s0, 2);
    SupportedThroughout(s0, 2, cycle);
  }

  lemma NoOperandIsUnstrayed(s0: IsaState, k: nat)
    requires !ReadsNoRegister(IdealD(IsaAt(s0, k)))
    ensures Unstrayed(IsaLatest(s0, k))
  {
    hide IsaAt, Stray, IdealD;
  }

  lemma PatchUnwritten(m: seq<Byte>)
    requires PatchesBehindJump(m)
    ensures forall k: nat :: k <= 2 ==> IsaUnwritten(Start(m), k)
  {
    hide Step, CycleOf, FetchCycle, IsaRuns, IsaAt, StoreWord, StoreMisses, PatchesBehindJump, IsaUnwritten;
    PatchedStates(m);
    PatchMisses(m);
    UnwrittenByTwo(Start(m));
  }

  lemma UnwrittenByTwo(s0: IsaState)
    requires StoreMisses(IsaAt(s0, 0), IsaAt(s0, 1)) && StoreMisses(IsaAt(s0, 1), IsaAt(s0, 2))
    requires CycleOf(s0, 0) <= FetchCycle(s0, 2)
    ensures IsaUnwritten(s0, 0) && IsaUnwritten(s0, 1) && IsaUnwritten(s0, 2)
  {
    hide IsaAt, StoreMisses, CycleOf, FetchCycle;
  }

  /** The store misses the jump, and hits the instruction behind it. */
  lemma PatchMisses(m: seq<Byte>)
    requires PatchesBehindJump(m)
    ensures var s0 := Start(m);
      && IsaAt(s0, 0) == s0
      && StoreMisses(s0, IsaAt(s0, 1)) && StoreMisses(IsaAt(s0, 1), IsaAt(s0, 2)) && !StoreMisses(s0, IsaAt(s0, 2))
  {
    hide Step, CycleOf, FetchCycle, IsaRuns, IsaAt, StoreWord, Alike, IdealM, IdealD, ReadsNoRegister;
    hide Mispredicts, Encoding;
    PatchStep(m, 19);
    JumpBetween(m);
    PatchedStates(m);
    JumpStays(m);
  }

  lemma JumpStays(m: seq<Byte>)
    requires PatchesBehindJump(m)
    ensures StoreWord(m, 19, 0)[10] == m[10] && HI4(m[10]) == I_JMP
  {
    hide Encode, StoreWord;
    StoreElsewhere(m, 19, 0, 10, 11);
    assert StoreWord(m, 19, 0)[10] == StoreWord(m, 19, 0)[10..11][0] == m[10..11][0];
    assert m[10] == m[10..19][0];
  }

  lemma PatchedNext(m: seq<Byte>)
    requires Patches(m, 10)
    ensures var s0 := Start(m); var s1 := s0.(pc := 10, m := StoreWord(m, 10, 0));
      && IsaAt(s0, 0) == s0 && IsaAt(s0, 1) == s1 && IsaRuns(s0, 1) && Step(s1).1 == HLT && Alike(s1)
      && CycleOf(s0, 1) == 6 && At(s0, 1).pc == 10 && Completes(s0)
  {
    hide StoreWord, Mispredicts, Returns, Feeds, Encoding, Commit, IdealW;
    var s0 := Start(m);
    PatchStep(m, 10);
    StagesExecuteIsa(s0);
    var s1 := s0.(pc := 10, m := StoreWord(m, 10, 0));
    assert Wrap(10 + 5) == 15;
    assert IsaAt(s0, 0) == s0 && IsaAt(s0, 1) == Step(s0).0 && At(s0, 0) == s0 && At(s0, 1) == Commit(s0);
    hide Step, IdealD, Alike;
    RedirectingIcodes(s0, s1);
    assert CycleOf(s0, 0) == 5;
  }

  /** Until the second instruction is fetched. */
  lemma PatchFetched(m: seq<Byte>)
    requires Patches(m, 10)
    ensures Supported(Start(m), 2) && Covered(Start(m), 2)
    ensures TagsAfter(Start(m), 2) == Tags(0, false, false, Empty, Live)
  {
    hide Step, IsaAt, IdealM, IdealD, Alike, CycleOf, FetchCycle, IsaRuns, Encoding, StoreWord;
    var s0 := Start(m);
    PatchStep(m, 10);
    PatchedNext(m);
    AnyFirstCycles(s0, 2);
    assert IsaUnwritten(s0, 0);
    forall k: nat ensures FetchCycle(s0, k) > k && CycleOf(s0, k) >= k + 5 {
      NotFetchedBefore(s0, k);
    }
    assert TagsAfter(s0, 1) == Tags(0, false, false, Empty, Empty);
  }

  /** A nop in decode, behind an instruction that does not redirect it, gets through to write back. */
  lemma NopDecoded(a: Core, s: IsaState)
    requires IdealD(s).icode == I_RMMOVQ && a.c.d == IdealD(s) && MatchesE(PipeInvariant.Next(a).e, s)
    requires BubbleE(a.c.e) && BubbleM(a.c.m) && BubbleW(a.c.w)
    requires PipeInvariant.Next(a).d.icode == I_NOP && PipeInvariant.Next(a).d.status == AOK
    ensures var a' := Advance(a);
      && a'.c.d == PipeInvariant.Next(a).d && MatchesE(a'.c.e, s) && BubbleM(a'.c.m) && BubbleW(a'.c.w)
      && a'.m == a.m && a'.cc == a.cc
  {
    hide FetchStage, StoreWord, IdealW, WriteBack, ComputeCc, CondHolds, MatchesE, FPc;
    assert PipeInvariant.Next(a).e.icode == I_RMMOVQ by { IcodeOf(PipeInvariant.Next(a).e, s); }
    assert PipeInvariant.Next(a).m == ExecStage(a.c.e, a.cc) && PipeInvariant.Next(a).w == MemStage(a.c.m, a.m);
  }

  lemma IcodeOf(e: IdEx, s: IsaState)
    requires MatchesE(e, s)
    ensures e.icode == IdealD(s).icode && IdealM(s).icode == e.icode
  {
    hide FetchStage;
  }

  lemma NopExecuted(a: Core, s: IsaState)
    requires a.c.d.icode == I_NOP && a.c.d.status == AOK && MatchesE(a.c.e, s) && IdealD(s).icode == I_RMMOVQ
    requires BubbleM(a.c.m) && BubbleW(a.c.w) && a.m == s.m && a.cc == s.cc
    ensures var a' := Advance(a);
      a'.c.e.icode == I_NOP && a'.c.e.status == AOK && MatchesM(a'.c.m, s) && BubbleW(a'.c.w) && a'.m == s.m
  {
    hide FetchStage, StoreWord, IdealW, IdealM, IdealD, WriteBack, ComputeCc, CondHolds, MatchesE, MatchesM, FPc;
    IcodeOf(a.c.e, s);
    ExecuteMatches(a.c.e, s);
    assert PipeInvariant.Next(a).m == ExecStage(a.c.e, a.cc) && PipeInvariant.Next(a).w == MemStage(a.c.m, a.m);
  }

  lemma NopInMemory(a: Core, s: IsaState)
    requires a.c.e.icode == I_NOP && a.c.e.status == AOK && MatchesM(a.c.m, s) && BubbleW(a.c.w) && a.m == s.m
    requires Completes(s)
    ensures var a' := Advance(a); a'.c.m.icode == I_NOP && a'.c.m.status == AOK && a'.c.w.status == AOK
  {
    hide FetchStage, StoreWord, IdealW, IdealM, WriteBack, ComputeCc, CondHolds, MatchesM, FPc, DecodeStage;
    MemoryMatches(a.c.m, s);
    assert PipeInvariant.Next(a).m == ExecStage(a.c.e, a.cc) && PipeInvariant.Next(a).w == MemStage(a.c.m, a.m);
  }

  lemma NopInWriteBack(a: Core)
    requires a.c.m.icode == I_NOP && a.c.m.status == AOK && a.c.w.status == AOK
    ensures Advance(a).c.w.status == AOK
  {
    hide FetchStage, StoreWord, WriteBack, ComputeCc, CondHolds, FPc, DecodeStage;
  }

  lemma CoreAfter(m: seq<Byte>, n: nat)
    requires Coherent(After(m, n))
    ensures Coherent(After(m, n + 1)) && CoreOf(After(m, n + 1)) == Advance(CoreOf(After(m, n)))
  {
    hide SimStep, Coherent, Advance;
    CycleIsAdvance(After(m, n), 3);
  }

  /** In the cycle in which the nop is fetched. */
  lemma PatchInDecode(m: seq<Byte>, a: Core, t: Tags)
    requires Patches(m, 10) && t == Tags(0, false, false, Empty, Live) && Inv(Start(m), 2, a, t)
    ensures var s0 := Start(m);
      && a.c.d == IdealD(s0) && MatchesE(PipeInvariant.Next(a).e, s0) && BubbleE(a.c.e) && BubbleM(a.c.m)
      && BubbleW(a.c.w)
      && a.m == m && a.cc == s0.cc && PipeInvariant.Next(a).d == FetchStage(m, 10)
  {
    hide Encoding, Commit, IdealW, MatchesE, MatchesUpTo, FetchStage, Step, StoreWord, Mispredicts, Returns;
    var s0 := Start(m);
    PatchStep(m, 10);
    PatchedNext(m);
    RedirectingIcodes(s0, s0);
    assert At(s0, 0) == s0 && Latest(s0, 0, 4) == [s0];
    LiveOperands(s0, 2, a, t);
    StrayDecides(PipeInvariant.Next(a).e, s0, 0);
  }

  /** Here nothing is in between, and the pipeline fetches what was there before the store. The model halts,
      and in the cycle of the halt the processor reports that all is well. */
  lemma PatchTooLate(m: seq<Byte>)
    requires Patches(m, 10)
    ensures var s0 := Start(m);
      && IsaRuns(s0, 1) && IsaStatus(s0, 1) == HLT && Alike(s0) && Alike(IsaAt(s0, 1)) && CycleOf(s0, 1) == 6
      && After(m, 6).status == AOK
  {
    hide Step, Alike, After, Covered, Supported, TagsAfter, Inv, CycleOf, Encoding, Advance, MatchesE;
    hide MatchesM, FetchStage, Commit;
    hide IdealW, PipeInvariant.Next, StoreWord, Coherent;
    var s0, a := Start(m), CoreOf(After(m, 2));
    PatchStep(m, 10);
    PatchedNext(m);
    PatchFetched(m);
    var t := RunInvariant(m, 2);
    PatchInDecode(m, a, t);
    NopFetched(m);
    NopDecoded(a, s0);
    CoreAfter(m, 2);
    NopExecuted(Advance(a), s0);
    CoreAfter(m, 3);
    NopInMemory(Advance(Advance(a)), s0);
    CoreAfter(m, 4);
    NopInWriteBack(Advance(Advance(Advance(a))));
    CoreAfter(m, 5);
    StatusOf(After(m, 6));
  }

  lemma NopFetched(m: seq<Byte>)
    requires Patches(m, 10)
    ensures FetchStage(m, 10).icode == I_NOP && FetchStage(m, 10).status == AOK
  {
    assert Wrap(10 + 5) == 15;
  }

  lemma StatusOf(x: SimState)
    requires Coherent(x)
    ensures x.status == ProcStat(x.curr.w)
  {}
}
