/** Programs that the theorems about the pipeline are about, and some at which the pipeline and the
    instruction-set model differ. */
module PipeExamples {
  import opened Words
  import opened Memory
  import opened Isa
  import opened Assembly
  import opened PipeStd
  import opened Psim
  import opened Sequential
  import opened StageLemmas
  import opened PipeInvariant
  import opened PipeTheorems
  import opened PipeCorrect
  import opened PipeRuns
  import opened PipeCheck

  // ----- programs of any length -----

  /** Memory starts with n nops. */
  predicate Nops(m: seq<Byte>, n: nat) {
    n + 5 < |m| <= MAX_LEN && forall i :: 0 <= i < n ==> m[i] == 0x10
  }

  lemma NopStep(s: IsaState, n: nat)
    requires Nops(s.m, n) && 0 <= s.pc < n
    ensures Step(s) == (s.(pc := s.pc + 1), AOK)
  {}

  lemma {:induction false} NopRun(m: seq<Byte>, n: nat, k: nat)
    requires Nops(m, n) && k <= n
    ensures IsaRuns(Start(m), k) && IsaAt(Start(m), k) == Start(m).(pc := k)
  {
    hide Step;
    if k > 0 {
      NopRun(m, n, k - 1);
      NopStep(IsaAt(Start(m), k - 1), n);
    }
  }

  lemma NopsAndHaltsAreAlike(s: IsaState)
    requires |s.m| <= MAX_LEN && 0 <= s.pc && s.pc + 5 < |s.m| && s.m[s.pc] in {0, 0x10}
    ensures Alike(s) && !MemWrite(IdealM(s)) && !ReadsNoRegister(IdealD(s))
  {
    assert Wrap(s.pc + 5) == s.pc + 5;
  }

  lemma NopLatest(m: seq<Byte>, n: nat, k: nat)
    requires Nops(m, n) && (k < n || (k == n && m[n] == 0))
    ensures Alike(IsaAt(Start(m), k)) && IsaUnwritten(Start(m), k) && Unstrayed(IsaLatest(Start(m), k))
  {
    hide Step, IsaAt, Alike, FetchCycle, CycleOf, IdealM, IdealD, Stray, ReadsNoRegister;
    forall j: nat | j <= k ensures Alike(IsaAt(Start(m), j)) && !MemWrite(IdealM(IsaAt(Start(m), j)))
      && !ReadsNoRegister(IdealD(IsaAt(Start(m), j)))
    {
      NopRun(m, n, j);
      NopsAndHaltsAreAlike(Start(m).(pc := j));
    }
  }

  /** Whatever follows them, an iaddq for one, is supported while just the nops have been fetched. */
  lemma NopsAreSupported(m: seq<Byte>, n: nat)
    requires Nops(m, n)
    ensures Supported(Start(m), n + 1)
  {
    hide Step, Alike, IsaUnwritten, Unstrayed, CycleOf, FetchCycle, IsaAt, IsaRuns;
    forall k: nat | FetchCycle(Start(m), k) < n + 1 || CycleOf(Start(m), k) < n + 4
      ensures Alike(IsaAt(Start(m), k)) && IsaUnwritten(Start(m), k) && Unstrayed(IsaLatest(Start(m), k))
    {
      NotFetchedBefore(Start(m), k);
      NopLatest(m, n, k);
    }
  }

  lemma NotFetchedBefore(s0: IsaState, k: nat)
    ensures FetchCycle(s0, k) > k && CycleOf(s0, k) >= k + 5
  {
    hide IsaAt, Gap;
    CycleBounds(s0, k);
    if k > 0 {
      CycleBounds(s0, k - 1);
    }
  }

  /** If a halt follows, the program is supported in every cycle, however long it is. */
  lemma NopsThenHalt(m: seq<Byte>, n: nat, cycle: nat)
    requires Nops(m, n) && m[n] == 0
    ensures Supported(Start(m), cycle) && IsaRuns(Start(m), n) && IsaStatus(Start(m), n) == HLT
  {
    hide Step, Alike, IsaUnwritten, Unstrayed, CycleOf, FetchCycle, IsaAt, IsaRuns, IsaLatest;
    NopRun(m, n, n);
    HaltStep(IsaAt(Start(m), n));
    forall k: nat | k <= n
      ensures Alike(IsaAt(Start(m), k)) && IsaUnwritten(Start(m), k) && Unstrayed(IsaLatest(Start(m), k))
    {
      NopLatest(m, n, k);
    }
    SupportedThroughout(Start(m), n, cycle);
  }

  lemma HaltStep(s: IsaState)
    requires ByteOk(s.m, s.pc) && s.m[s.pc] == 0
    ensures Step(s) == (s, HLT)
  {}

  // ----- a program with all kinds of hazards -----

  const NO_FIELDS := Fields(REG_NONE, REG_NONE, 0)

  /** irmovq $40,%rsp; mrmovq 0(%rsp),%rax; addq %rax,%rax; je 0; ret; halt; and at 40 the address of the
      halt. The addition needs what has just been loaded, the jump is not taken, and the return finds its
      address on the stack. */
  function Source(k: nat): (Mnemonic, Fields) {
    if k == 0 then (Irmovq, Fields(REG_NONE, REG_RSP, 40))
    else if k == 1 then (Mrmovq, Fields(0, REG_RSP, 0))
    else if k == 2 then (Opq(A_ADD), Fields(0, 0, 0))
    else if k == 3 then (Jmp(C_E), NO_FIELDS)
    else if k == 4 then (Ret, NO_FIELDS)
    else (Halt, NO_FIELDS)
  }

  function Position(k: nat): nat
    requires k <= 5
  {
    if k == 0 then 0 else if k == 1 then 10 else if k == 2 then 20 else if k == 3 then 22 else 27 + k
  }

  /** Memory m holds that program. */
  predicate Hazards(m: seq<Byte>) {
    && |m| == 48 && m[40..48] == Encode(32, 8)
    && forall k {:trigger Source(k)} :: 0 <= k <= 5 ==>
         var (i, f) := Source(k); m[Position(k)..Position(k) + Size(i)] == Encoding(i, f)
  }

  /** The states of its run. */
  function HazardState(m: seq<Byte>, k: nat): IsaState
    requires k <= 5
  {
    var s0 := Start(m);
    var r1 := SetReg(s0.r, REG_RSP, 40);
    var cc := Cc(false, false, false);
    if k == 0 then s0
    else if k == 1 then s0.(pc := 10, r := r1)
    else if k == 2 then s0.(pc := 20, r := SetReg(r1, 0, 32))
    else if k == 3 then s0.(pc := 22, r := SetReg(SetReg(r1, 0, 32), 0, 64), cc := cc)
    else if k == 4 then s0.(pc := 31, r := SetReg(SetReg(r1, 0, 32), 0, 64), cc := cc)
    else s0.(pc := 32, r := SetReg(SetReg(SetReg(r1, 0, 32), 0, 64), REG_RSP, 48), cc := cc)
  }

  lemma HazardDecoding(m: seq<Byte>, k: nat)
    requires Hazards(m) && k <= 5
    ensures var (i, f) := Source(k); var s := HazardState(m, k);
      && s.pc == Position(k) && ByteOk(m, s.pc)
      && Decoding(m, s.pc) == Decoded(Icode(i), Ifun(i), f.ra, f.rb, true, f.val, true, s.pc + Size(i))
  {
    hide Encoding, Decoding;
    var (i, f) := Source(k);
    DecodesAsAssembled(m, Position(k), i, f);
  }

  lemma HazardStep(m: seq<Byte>, k: nat)
    requires Hazards(m) && k <= 5
    ensures Step(HazardState(m, k)) == if k < 5 then (HazardState(m, k + 1), AOK) else (HazardState(m, 5), HLT)
  {
    hide WordAt, Decoding, Encoding, Encode, Hazards;
    HazardDecoding(m, k);
    HazardWord(m);
  }

  lemma HazardWord(m: seq<Byte>)
    requires Hazards(m)
    ensures |m| == 48 && WordAt(m, 40) == 32
  {
    hide Encode, WordOf;
    WordRoundTrip(32);
  }

  lemma {:induction false} HazardRun(m: seq<Byte>, k: nat)
    requires Hazards(m)
    ensures IsaRuns(Start(m), k) <==> k <= 5
    ensures k <= 5 ==> IsaAt(Start(m), k) == HazardState(m, k)
  {
    hide Step, Hazards, HazardState;
    if k == 0 {
      assert HazardState(m, 0) == Start(m) by { HazardStart(m); }
    } else {
      HazardRun(m, k - 1);
      if k - 1 <= 5 {
        HazardStep(m, k - 1);
      }
    }
  }

  lemma HazardStart(m: seq<Byte>)
    ensures HazardState(m, 0) == Start(m)
  {}

  /** What the fetch stage makes of the program's instructions. */
  lemma HazardFetch(m: seq<Byte>, k: nat)
    requires Hazards(m) && k <= 5
    ensures var (i, f) := Source(k); var s := HazardState(m, k); var d := IdealD(s);
      && Complete(s) && d.icode == Icode(i) && d.ifun == Ifun(i) && d.ra == f.ra && d.rb == f.rb
  {
    hide WordAt, Encoding, Hazards;
    HazardWord(m);
    HazardDecoding(m, k);
    var pc := Position(k);
    assert Wrap(pc + 5) == pc + 5 && Wrap(pc + 1) == pc + 1 && Wrap(pc + 2) == pc + 2;
  }

  lemma HazardIsAlike(m: seq<Byte>, k: nat)
    requires Hazards(m) && k <= 5
    ensures Alike(HazardState(m, k)) && !MemWrite(IdealM(HazardState(m, k)))
    ensures !ReadsNoRegister(IdealD(HazardState(m, k)))
  {
    hide HazardState, Hazards, FetchStage, FailsAnyway;
    HazardFetch(m, k);
  }

  lemma HazardGaps(m: seq<Byte>)
    requires Hazards(m)
    ensures Gap(HazardState(m, 0), HazardState(m, 1)) == 0
    ensures Gap(HazardState(m, 1), HazardState(m, 2)) == 1 && Feeds(HazardState(m, 1), HazardState(m, 2))
    ensures Gap(HazardState(m, 2), HazardState(m, 3)) == 0
    ensures Gap(HazardState(m, 3), HazardState(m, 4)) == 2 && Mispredicts(HazardState(m, 3))
    ensures Gap(HazardState(m, 4), HazardState(m, 5)) == 3 && Returns(HazardState(m, 4))
  {
    hide Hazards, FetchStage, Complete, ComputeAlu;
    HazardFetch(m, 0);
    HazardFetch(m, 1);
    HazardFetch(m, 2);
    HazardFetch(m, 3);
    HazardFetch(m, 4);
    HazardFetch(m, 5);
  }

  /** The program with a load-use pair, a mispredicted jump and a return is supported in every cycle. Its
      hazards cost one, two and three bubbles, and so it halts in cycle 16. */
  lemma HazardsAreSupported(m: seq<Byte>, cycle: nat)
    requires Hazards(m)
    ensures Supported(Start(m), cycle) && IsaRuns(Start(m), 5) && IsaStatus(Start(m), 5) == HLT
    ensures Feeds(IsaAt(Start(m), 1), IsaAt(Start(m), 2))
    ensures Mispredicts(IsaAt(Start(m), 3)) && Returns(IsaAt(Start(m), 4))
    ensures CycleOf(Start(m), 5) == 16
  {
    hide Step, Alike, IsaUnwritten, Unstrayed, FetchCycle, HazardState, Hazards, Gap, Feeds, Mispredicts, Returns;
    forall k: nat | IsaRuns(Start(m), k)
      ensures Alike(IsaAt(Start(m), k)) && IsaUnwritten(Start(m), k) && Unstrayed(IsaLatest(Start(m), k))
    {
      HazardLatest(m, k);
    }
    HazardWord(m);
    HazardGaps(m);
    HazardRun(m, 0);
    HazardRun(m, 1);
    HazardRun(m, 2);
    HazardRun(m, 3);
    HazardRun(m, 4);
    HazardRun(m, 5);
    HazardStep(m, 5);
    var s0 := Start(m);
    assert CycleOf(s0, 1) == 6 && CycleOf(s0, 2) == 8 && CycleOf(s0, 3) == 9 && CycleOf(s0, 4) == 12;
  }

  lemma HazardLatest(m: seq<Byte>, k: nat)
    requires Hazards(m) && IsaRuns(Start(m), k)
    ensures Alike(IsaAt(Start(m), k)) && IsaUnwritten(Start(m), k) && Unstrayed(IsaLatest(Start(m), k))
  {
    hide Step, HazardState, Hazards, IsaAt, IsaRuns, Alike, FetchCycle, CycleOf, IdealM, IdealD, Stray, ReadsNoRegister;
    HazardRun(m, k);
    HazardIsAlike(m, k);
    forall j: nat | j < k ensures !MemWrite(IdealM(IsaAt(Start(m), j))) {
      HazardRun(m, j);
      HazardIsAlike(m, j);
    }
  }

  /** There is such a memory. */
  lemma HazardsExist() returns (m: seq<Byte>)
    ensures Hazards(m)
  {
    hide Encoding, Encode;
    var (i0, f0) := Source(0);
    var (i1, f1) := Source(1);
    var (i2, f2) := Source(2);
    var (i3, f3) := Source(3);
    var (i4, f4) := Source(4);
    var (i5, f5) := Source(5);
    m := Encoding(i0, f0) + Encoding(i1, f1) + Encoding(i2, f2) + Encoding(i3, f3) + Encoding(i4, f4) + Encoding(i5, f5)
      + Encode(0, 7) + Encode(32, 8);
    Pieces(Encoding(i0, f0), Encoding(i1, f1), Encoding(i2, f2), Encoding(i3, f3), Encoding(i4, f4), Encoding(i5, f5),
           Encode(0, 7), Encode(32, 8));
    forall k {:trigger Source(k)} | 0 <= k <= 5
      ensures var (i, f) := Source(k); m[Position(k)..Position(k) + Size(i)] == Encoding(i, f)
    {}
  }

  lemma Pieces(c0: seq<Byte>, c1: seq<Byte>, c2: seq<Byte>, c3: seq<Byte>, c4: seq<Byte>, c5: seq<Byte>, pad: seq<Byte>,
               address: seq<Byte>)
    requires |c0| == |c1| == 10 && |c2| == 2 && |c3| == 9 && |c4| == |c5| == 1 && |pad| == 7 && |address| == 8
    ensures var m := c0 + c1 + c2 + c3 + c4 + c5 + pad + address;
      && |m| == 48 && m[0..10] == c0 && m[10..20] == c1 && m[20..22] == c2 && m[22..31] == c3
      && m[31..32] == c4 && m[32..33] == c5 && m[40..48] == address
  {}

  // ----- where the pipeline and the model differ -----

  /** iaddq with a register and its whole constant: the model adds, and the pipeline reports an invalid
      instruction. */
  lemma IaddqIsNotAlike(m: seq<Byte>)
    requires 10 <= |m| <= MAX_LEN && HI4(m[0]) == I_IADDQ && LO4(m[1]) != REG_NONE
    ensures IsaStatus(Start(m), 0) == AOK && !Alike(Start(m))
    ensures CycleOf(Start(m), 0) == 5 && After(m, 5).status == INS
  {
    hide After, Step, IdealW, Sound, Alike;
    var s0 := Start(m);
    IaddqIsInvalid(s0);
    assert IsaAt(s0, 0) == s0 && CycleOf(s0, 0) == 5;
    StagesExecuteIsa(s0);
    FirstIsSound(s0);
    StatusExactly(m, 0);
  }

  /** An exception in the first instruction is all that the pipeline has to deal with. */
  lemma FirstIsSound(s0: IsaState)
    requires |s0.m| <= MAX_LEN && !Completes(s0)
    ensures Sound(s0, 5)
  {
    hide Completes, Stray, Arrival, FetchTime, StoreMisses;
    assert At(s0, 0) == s0 && Latest(s0, 0, 4) == [s0];
    forall k: nat | Reached(s0, k) ensures k == 0 {
      if k > 0 {
        StopEndsRun(s0, 0, k);
      }
    }
    assert Stray([s0]) == 0 by { AloneIsUnstrayed(s0); }
  }

  lemma AloneIsUnstrayed(s0: IsaState)
    ensures Stray([s0]) == 0
  {}

  /** A jump whose target does not fit in: both report an address error. */
  lemma JumpAtTheEnd(m: seq<Byte>, cycle: nat)
    requires 1 <= |m| <= 5 && HI4(m[0]) == I_JMP
    ensures Supported(Start(m), cycle) && IsaStatus(Start(m), 0) == ADR
  {
    hide CycleOf, FetchCycle, Step;
    var s := Start(m);
    assert Alike(s) && IsaAt(s, 0) == s;
    StagesExecuteIsa(s);
    ProbeFails(s);
    FirstFaults(s, cycle);
  }

  /** pushq %rax with the stack pointer 0: a supported program at which the simulator's own comparison with
      the model fails. */
  lemma PushFaults(m: seq<Byte>, cycle: nat)
    requires 5 < |m| <= MAX_LEN && m[0] == 0xA0 && m[1] == 0x0F
    ensures Supported(Start(m), cycle) && IsaStatus(Start(m), 0) == ADR && StackFault(IsaAt(Start(m), 0))
    ensures Step(IsaAt(Start(m), 0)).0.r != IsaAt(Start(m), 0).r
  {
    hide CycleOf, FetchCycle;
    var s := Start(m);
    assert Step(s).1 == ADR && StackFault(s) by { PushStep(s); }
    ExceptionEffect(s);
    assert IsaAt(s, 0) == s && Alike(s) by {
      assert Wrap(0 + 5) == 5 && Wrap(0 + 1) == 1;
    }
    FirstFaults(s, cycle);
  }

  lemma PushStep(s: IsaState)
    requires s.pc == 0 && 5 < |s.m| <= MAX_LEN && s.m[0] == 0xA0 && s.m[1] == 0x0F && GetReg(s.r, REG_RSP) == 0
    ensures Step(s).1 == ADR && StackFault(s)
  {
    assert Wrap(0 - 8) == -8 && Wrap(0 + 1) == 1;
  }

  /** rmmovq %rax,40; mrmovq 0,%rcx. */
  predicate Absolute(m: seq<Byte>) {
    && 48 <= |m| <= MAX_LEN
    && m[0..10] == Encoding(Rmmovq, Fields(0, REG_NONE, 40))
    && m[10..20] == Encoding(Mrmovq, Fields(1, REG_NONE, 0))
  }

  lemma AbsoluteDecoding(m: seq<Byte>)
    requires Absolute(m)
    ensures Decoding(m, 0) == Decoded(I_RMMOVQ, 0, 0, REG_NONE, true, 40, true, 10)
    ensures Decoding(m, 10) == Decoded(I_MRMOVQ, 0, 1, REG_NONE, true, 0, true, 20)
  {
    hide Decoding, Encoding, Encode;
    DecodesAsAssembled(m, 0, Rmmovq, Fields(0, REG_NONE, 40));
    DecodesAsAssembled(m, 10, Mrmovq, Fields(1, REG_NONE, 0));
  }

  lemma AbsoluteRun(m: seq<Byte>)
    requires Absolute(m)
    ensures IsaRuns(Start(m), 1) && IsaAt(Start(m), 1) == Start(m).(pc := 10, m := StoreWord(m, 40, 0))
    ensures Absolute(StoreWord(m, 40, 0))
  {
    hide Decoding, Encoding, StoreWord;
    AbsoluteDecoding(m);
    StoreElsewhere(m, 40, 0, 0, 10);
    StoreElsewhere(m, 40, 0, 10, 20);
  }

  /** What the fetch stage makes of the two instructions. */
  lemma AbsoluteFetch(s: IsaState)
    requires Absolute(s.m) && (s.pc == 0 || s.pc == 10)
    ensures Complete(s)
    ensures var d := IdealD(s);
      && d.icode == (if s.pc == 0 then I_RMMOVQ else I_MRMOVQ) && d.ra == (if s.pc == 0 then 0 else 1)
      && d.rb == REG_NONE
      && d.valc == (if s.pc == 0 then 40 else 0)
  {
    hide WordAt, Encoding;
    AbsoluteDecoding(s.m);
    assert Wrap(s.pc + 5) == s.pc + 5 && Wrap(s.pc + 1) == s.pc + 1 && Wrap(s.pc + 2) == s.pc + 2;
  }

  lemma AbsoluteStray(s: IsaState, s': IsaState)
    requires Absolute(s.m) && s.pc == 0 && Absolute(s'.m) && s'.pc == 10
    ensures Gap(s, s') == 0 && Stray([s', s]) == 40
    ensures Alike(s) && Alike(s') && StoreMisses(s, s') && Unstrayed([s]) && ReadsNoRegister(IdealD(s'))
    ensures IdealE(s').valb == 0
  {
    hide FetchStage, Encoding, WordAt;
    AbsoluteFetch(s);
    AbsoluteFetch(s');
  }

  /** The second instruction has no base register. The model loads from address 0; the pipeline adds the
      address of the store before, and loads from 40. */
  lemma StrayBaseRegister(m: seq<Byte>)
    requires Absolute(m)
    ensures var s0 := Start(m);
      && Supported(s0, 3) && IsaRuns(s0, 1) && CycleOf(s0, 1) == 6
      && After(m, 3).next.e.valb == 40 && IdealE(IsaAt(s0, 1)).valb == 0
      && !MatchesE(After(m, 3).next.e, IsaAt(s0, 1))
  {
    hide Step, IsaAt, Alike, StoreMisses, Unstrayed, Stray, Absolute, After, Supported, Covered, IsaRuns;
    hide IsaLatest, CycleOf, IdealD, MatchesE;
    var s0 := Start(m);
    AbsoluteStates(m);
    AbsoluteSupported(s0);
    AnyFirstCycles(s0, 3);
    OperandsAreArchitectural(m, 3, 1);
    BaseIsStray(After(m, 3).next.e, IsaAt(s0, 1), 40);
  }

  lemma BaseIsStray(e: IdEx, s: IsaState, stray: Word)
    requires MatchesUpTo(e, s, stray) && IdealD(s).icode == I_MRMOVQ && IdealD(s).rb == REG_NONE
    ensures e.valb == stray
  {
    hide FetchStage;
  }

  lemma AbsoluteStates(m: seq<Byte>)
    requires Absolute(m)
    ensures var s0 := Start(m); var s1 := IsaAt(s0, 1);
      && IsaRuns(s0, 1) && IsaLatest(s0, 0) == [s0] && IsaLatest(s0, 1) == [s1, s0] && CycleOf(s0, 1) == 6
      && |m| <= MAX_LEN
      && Stray([s1, s0]) == 40 && Alike(s0) && Alike(s1) && StoreMisses(s0, s1) && Unstrayed([s0])
      && ReadsNoRegister(IdealD(s1)) && IdealE(s1).valb == 0 && IdealD(s1).icode == I_MRMOVQ
      && IdealD(s1).rb == REG_NONE
  {
    var s0 := Start(m);
    AbsoluteRun(m);
    var s1 := IsaAt(s0, 1);
    hide Step, Alike, StoreMisses, Unstrayed, Stray, Gap, IdealD, IdealE, StoreWord, IsaRuns, Reset, FetchStage;
    AbsoluteStray(s0, s1);
    AbsoluteFetch(s1);
    FirstTwo(s0);
  }

  lemma FirstTwo(s0: IsaState)
    ensures IsaLatest(s0, 0) == [s0] && IsaLatest(s0, 1) == [IsaAt(s0, 1), s0]
    ensures CycleOf(s0, 1) == 6 + Gap(s0, IsaAt(s0, 1))
  {
    hide Step, Gap;
    assert IsaAt(s0, 0) == s0;
    assert CycleOf(s0, 0) == 5;
  }

  lemma AnyFirstCycles(s0: IsaState, n: nat)
    requires n <= 5
    ensures Covered(s0, n)
  {
    hide CycleOf, IsaRuns, IsaStatus, IsaAt;
  }

  lemma AbsoluteSupported(s0: IsaState)
    requires |s0.m| <= MAX_LEN && Alike(s0) && Alike(IsaAt(s0, 1)) && StoreMisses(s0, IsaAt(s0, 1))
    requires Unstrayed(IsaLatest(s0, 0))
    ensures Supported(s0, 3)
  {
    hide Step, IsaRuns, Alike, StoreMisses, Unstrayed, IsaLatest, CycleOf, FetchCycle;
    assert IsaAt(s0, 0) == s0 && IsaUnwritten(s0, 0) && IsaUnwritten(s0, 1);
    forall k: nat ensures FetchCycle(s0, k) > k && CycleOf(s0, k) >= k + 5 {
      NotFetchedBefore(s0, k);
    }
  }
}
