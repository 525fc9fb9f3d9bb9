/** One instruction pushed through the pipeline's own stage functions with nothing else in flight,
    and its agreement with the instruction-set model. */
module Sequential {
  import opened Words
  import opened Memory
  import opened Isa
  import opened PipeStd
  import opened Psim

  /** A memory's length is a C int. */
  const MAX_LEN: nat := 0x7fff_ffff

  function IdealD(s: IsaState): IfId {
    FetchStage(s.m, s.pc)
  }

  function OperandA(s: IsaState, d: IfId): Word {
    if d.icode == I_CALL || d.icode == I_JMP then d.valp else GetReg(s.r, DSrcA(d))
  }

  function IdealE(s: IsaState): IdEx {
    var d := IdealD(s);
    IdEx(d.icode, d.ifun, d.valc, OperandA(s, d), GetReg(s.r, DSrcB(d)),
         DSrcA(d), DSrcB(d), DDstE(d), DDstM(d), d.status, d.stagePc)
  }

  function IdealM(s: IsaState): ExMem {
    ExecStage(IdealE(s), s.cc)
  }

  function IdealW(s: IsaState): MemWb {
    MemStage(IdealM(s), s.m)
  }

  function WriteBack(r: RegFile, w: MemWb): RegFile {
    SetReg(SetReg(r, w.deste, w.vale), w.destm, w.valm)
  }

  function Stored(m: seq<Byte>, x: ExMem): (m': seq<Byte>)
    ensures |m'| == |m|
  {
    if MemWrite(x) then StoreWord(m, MemAddr(x), x.vala) else m
  }

  function NextPc(s: IsaState): Word {
    var d := IdealD(s);
    if d.icode == I_RET then IdealW(s).valm
    else if d.icode == I_JMP && !IdealM(s).takebranch then d.valp
    else FPredPc(d)
  }

  function FlagsAfter(s: IsaState): Cc {
    var e := IdealE(s);
    if e.icode == I_ALU then ComputeCc(AluFun(e), AluA(e), AluB(e)) else s.cc
  }

  function Commit(s: IsaState): IsaState {
    IsaState(NextPc(s), WriteBack(s.r, IdealW(s)), Stored(s.m, IdealM(s)), FlagsAfter(s))
  }

  /** The register fields that the instruction-set model insists on name program registers. A memory
      operand may do without a base register, and the model lets arithmetic use code 15. */
  predicate NamedRegisters(d: IfId) {
    && (d.icode in {I_RRMOVQ, I_RMMOVQ, I_MRMOVQ, I_PUSHQ, I_POPQ} ==> RegValid(d.ra))
    && (d.icode in {I_RRMOVQ, I_IRMOVQ} ==> RegValid(d.rb))
  }

  /** Number of bytes from pc that a fetch of the instruction there depends on. */
  function FetchLength(m: seq<Byte>, pc: Word): (n: nat)
    requires ByteOk(m, pc)
    ensures 1 <= n <= 10
  {
    var icode := HI4(m[pc]);
    1 + (if FNeedRegids(icode) then 1 else 0) + (if FNeedValC(icode) then 8 else 0)
  }

  /** The probe at offset 5 succeeds and the whole instruction is inside memory; it is not iaddq, whose
      length only the instruction-set model knows. */
  predicate Complete(s: IsaState) {
    ByteOk(s.m, s.pc) && s.pc + 5 < |s.m| && s.pc + FetchLength(s.m, s.pc) <= |s.m| && HI4(s.m[s.pc]) != I_IADDQ
  }

  /** The two decoders find the same fields. */
  lemma DecodersAgree(s: IsaState)
    requires Complete(s) && |s.m| <= MAX_LEN
    ensures var d, x := IdealD(s), Decoding(s.m, s.pc);
      && x.ok1 && x.okc
      && (x.icode, x.ifun, x.ra, x.rb, x.cval, x.ftpc) == (d.icode, d.ifun, d.ra, d.rb, d.valc, d.valp)
      && d.status == FStat(false, d.icode)
  {
    hide WordOf;
    assert Wrap(s.pc + 5) == s.pc + 5 && Wrap(s.pc + 1) == s.pc + 1 && Wrap(s.pc + 2) == s.pc + 2;
  }

  // ----- where the probe at offset 5 fails -----

  /** The instruction-set model, which does not probe, finds an address error of its own. */
  predicate FailsAnyway(s: IsaState)
    requires ByteOk(s.m, s.pc)
  {
    var icode, rsp := HI4(s.m[s.pc]), GetReg(s.r, REG_RSP);
    || icode in {I_JMP, I_CALL}
    || (NeedRegids(icode) && s.pc + 1 == |s.m|)
    || (icode == I_RET && !WordOk(s.m, rsp))
    || (icode == I_POPQ && HI4(s.m[s.pc + 1]) != REG_NONE && !WordOk(s.m, rsp))
    || (icode == I_PUSHQ && HI4(s.m[s.pc + 1]) != REG_NONE && !WordOk(s.m, Wrap(rsp - 8)))
  }

  /** The instructions that the pipeline executes like the instruction-set model, told by the bytes at pc
      and by the stack pointer. Without a byte at pc both find an address error. */
  predicate Alike(s: IsaState) {
    ByteOk(s.m, s.pc) ==>
      var icode, len := HI4(s.m[s.pc]), |s.m|;
      if s.pc + 5 >= len then FailsAnyway(s)
      else if icode == I_IADDQ then s.pc + 10 > len || LO4(s.m[s.pc + 1]) == REG_NONE
      else if s.pc + FetchLength(s.m, s.pc) > len then icode == I_CALL && !WordOk(s.m, Wrap(GetReg(s.r, REG_RSP) - 8))
      else NamedRegisters(IdealD(s))
  }

  lemma ProbeFails(s: IsaState)
    requires |s.m| <= MAX_LEN && ByteOk(s.m, s.pc) && s.pc + 5 >= |s.m|
    ensures IdealW(s).status == ADR && (Step(s).1 == ADR <==> FailsAnyway(s))
  {
    hide And64, Xor64, WordOf, Encode, ComputeAlu, ComputeCc, CondHolds, StoreWord;
    assert Wrap(s.pc + 5) == s.pc + 5 && Wrap(s.pc + 1) == s.pc + 1 && Wrap(s.pc + 2) == s.pc + 2;
  }

  lemma IaddqIsInvalid(s: IsaState)
    requires |s.m| <= MAX_LEN && ByteOk(s.m, s.pc) && s.pc + 5 < |s.m| && HI4(s.m[s.pc]) == I_IADDQ
    ensures IdealW(s).status == INS
    ensures Step(s).1 == if s.pc + 10 > |s.m| || LO4(s.m[s.pc + 1]) == REG_NONE then INS else AOK
  {
    hide And64, Xor64, WordOf, Encode, ComputeAlu, ComputeCc, CondHolds, StoreWord;
    assert Wrap(s.pc + 5) == s.pc + 5 && Wrap(s.pc + 1) == s.pc + 1 && Wrap(s.pc + 2) == s.pc + 2;
  }

  /** The pipeline does not notice a constant beyond the end of memory. */
  lemma CutShort(s: IsaState)
    requires |s.m| <= MAX_LEN && ByteOk(s.m, s.pc) && s.pc + 5 < |s.m| < s.pc + FetchLength(s.m, s.pc)
    ensures Step(s).1 == IdealW(s).status
       <==> HI4(s.m[s.pc]) == I_CALL && !WordOk(s.m, Wrap(GetReg(s.r, REG_RSP) - 8))
    ensures HI4(s.m[s.pc]) == I_CALL ==> Step(s).1 == ADR
  {
    hide And64, Xor64, WordOf, Encode, ComputeCc, CondHolds, StoreWord;
    assert Wrap(s.pc + 5) == s.pc + 5 && Wrap(s.pc + 1) == s.pc + 1 && Wrap(s.pc + 2) == s.pc + 2;
  }

  // ----- complete instructions -----

  predicate MovesMemory(icode: Nibble) {
    icode in {I_RMMOVQ, I_MRMOVQ}
  }

  predicate UsesStack(icode: Nibble) {
    icode in {I_CALL, I_RET, I_PUSHQ, I_POPQ}
  }

  lemma RegisterInstructions(s: IsaState)
    requires Complete(s) && |s.m| <= MAX_LEN && !MovesMemory(IdealD(s).icode) && !UsesStack(IdealD(s).icode)
    ensures Step(s).1 == IdealW(s).status <==> NamedRegisters(IdealD(s))
    ensures NamedRegisters(IdealD(s)) && Step(s).1 == AOK ==> Step(s).0 == Commit(s)
  {
    hide And64, Xor64, WordOf, Encode, ComputeCc, CondHolds, StoreWord, WordAt;
    DecodersAgree(s);
    hide FetchStage, Decoding;
  }

  lemma MoveInstructions(s: IsaState)
    requires Complete(s) && |s.m| <= MAX_LEN && MovesMemory(IdealD(s).icode)
    ensures Step(s).1 == IdealW(s).status <==> NamedRegisters(IdealD(s))
    ensures NamedRegisters(IdealD(s)) && Step(s).1 == AOK ==> Step(s).0 == Commit(s)
  {
    hide And64, Xor64, WordOf, Encode, ComputeCc, CondHolds;
    DecodersAgree(s);
    hide FetchStage, Decoding, Wrap;
  }

  lemma StackInstructions(s: IsaState)
    requires Complete(s) && |s.m| <= MAX_LEN && UsesStack(IdealD(s).icode)
    ensures Step(s).1 == IdealW(s).status <==> NamedRegisters(IdealD(s))
    ensures NamedRegisters(IdealD(s)) && Step(s).1 == AOK ==> Step(s).0 == Commit(s)
  {
    hide And64, Xor64, WordOf, Encode, ComputeCc, CondHolds;
    DecodersAgree(s);
    hide FetchStage, Decoding, Wrap;
  }

  /** The pipeline's stages and the instruction-set model give an instruction the same status exactly if it
      is alike, and then they also give it the same effect if it completes. */
  lemma StagesExecuteIsa(s: IsaState)
    requires |s.m| <= MAX_LEN
    ensures Step(s).1 == IdealW(s).status <==> Alike(s)
    ensures Alike(s) && Step(s).1 == AOK ==> Step(s).0 == Commit(s)
  {
    hide Step, IdealW, Commit, FailsAnyway, NamedRegisters;
    if !ByteOk(s.m, s.pc) {
      NothingAtPc(s);
    } else if s.pc + 5 >= |s.m| {
      ProbeFails(s);
    } else if HI4(s.m[s.pc]) == I_IADDQ {
      IaddqIsInvalid(s);
    } else if s.pc + FetchLength(s.m, s.pc) > |s.m| {
      CutShort(s);
    } else if MovesMemory(IdealD(s).icode) {
      MoveInstructions(s);
    } else if UsesStack(IdealD(s).icode) {
      StackInstructions(s);
    } else {
      RegisterInstructions(s);
    }
  }

  lemma NothingAtPc(s: IsaState)
    requires !ByteOk(s.m, s.pc)
    ensures Step(s).1 == IdealW(s).status == ADR
  {}

  /** An instruction that raises an exception leaves memory and condition codes alone. */
  lemma ExceptionCommitsNoMemory(s: IsaState)
    requires IdealW(s).status != AOK
    ensures Excepting(IdealW(s).status)
    ensures Commit(s).m == s.m && Commit(s).cc == s.cc
    ensures IdealE(s).icode != I_ALU
  {
    hide And64, Xor64, WordOf, Encode, ComputeCc, CondHolds, ComputeAlu, GetReg;
  }
}
