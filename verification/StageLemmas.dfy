/** What each pipeline stage computes for an instruction in flight, stage by stage. */
module StageLemmas {
  import opened Words
  import opened Memory
  import opened Isa
  import opened PipeStd
  import opened Psim
  import opened Sequential

  predicate UsesA(icode: Nibble) {
    icode in {I_RRMOVQ, I_RMMOVQ, I_ALU, I_PUSHQ, I_POPQ, I_RET, I_CALL, I_JMP}
  }

  predicate UsesB(icode: Nibble) {
    icode in {I_ALU, I_RMMOVQ, I_MRMOVQ, I_PUSHQ, I_POPQ, I_CALL, I_RET}
  }

  /** e holds the instruction at s: every field that the instruction uses is the one it would have with
      nothing else in flight. An operand without a source register is whatever forwarding left there. */
  predicate MatchesE(e: IdEx, s: IsaState) {
    && e == IdealE(s).(vala := e.vala, valb := e.valb)
    && (UsesA(e.icode) ==> e.vala == IdealE(s).vala)
    && (UsesB(e.icode) ==> e.valb == IdealE(s).valb)
  }

  predicate MatchesM(x: ExMem, s: IsaState) {
    && x == IdealM(s).(vala := x.vala)
    && (UsesA(x.icode) ==> x.vala == IdealM(s).vala)
  }

  lemma ExecuteMatches(e: IdEx, s: IsaState)
    requires MatchesE(e, s)
    ensures MatchesM(ExecStage(e, s.cc), s)
    ensures e.icode == I_ALU ==> ComputeCc(AluFun(e), AluA(e), AluB(e)) == FlagsAfter(s)
  {
    hide FetchStage, ComputeAlu, ComputeCc, CondHolds;
  }

  lemma MemoryMatches(x: ExMem, s: IsaState)
    requires MatchesM(x, s)
    ensures MemStage(x, s.m) == IdealW(s)
    ensures Stored(s.m, x) == Commit(s).m
  {
    hide FetchStage, ExecStage, WordAt, StoreWord, IdealE;
    assert IdealM(s).icode == x.icode;
  }

  /** Forwarding finds the value that the register file will hold once the instructions in write back,
      memory and execute have retired in that order, unless the one in execute is a load of that very
      register. The write-back order makes a popped stack pointer win over the incremented one. */
  lemma ForwardingIsInOrder(r: RegFile, w: MemWb, m: ExMem, wbNext: MemWb, exNext: ExMem, retired: MemWb, src: Nibble)
    requires src < REG_NONE && src != exNext.destm
    requires (wbNext.deste, wbNext.vale, wbNext.destm) == (m.deste, m.vale, m.destm)
    requires (retired.deste, retired.vale, retired.destm) == (exNext.deste, exNext.vale, exNext.destm)
    ensures Forward(src, exNext, m, wbNext, w, GetReg(r, src))
         == GetReg(WriteBack(WriteBack(WriteBack(r, w), wbNext), retired), src)
  {}

  /** An operand that the instruction uses comes from no register, so that it has to be read as 0. */
  predicate ReadsNoRegister(d: IfId) {
    (DSrcA(d) == REG_NONE && UsesA(d.icode) && d.icode !in {I_CALL, I_JMP}) || (DSrcB(d) == REG_NONE && UsesB(d.icode))
  }

  /** e holds the instruction at s, except that stray is in the place of an operand without a register. */
  predicate MatchesUpTo(e: IdEx, s: IsaState, stray: Word) {
    && e == IdealE(s).(vala := e.vala, valb := e.valb)
    && (UsesA(e.icode) ==> e.vala == if e.srca == REG_NONE && e.icode !in {I_CALL, I_JMP} then stray else IdealE(s).vala)
    && (UsesB(e.icode) ==> e.valb == if e.srcb == REG_NONE then stray else IdealE(s).valb)
  }

  /** The operands are the instruction's own exactly if it has one from every register it reads, or the
      stray value is 0. */
  lemma StrayDecides(e: IdEx, s: IsaState, stray: Word)
    requires MatchesUpTo(e, s, stray)
    ensures MatchesE(e, s) <==> (ReadsNoRegister(IdealD(s)) ==> stray == 0)
  {
    hide FetchStage;
  }

  lemma DecodeMatches(d: IfId, s: IsaState, exNext: ExMem, m: ExMem, wbNext: MemWb, w: MemWb, r: RegFile,
                      retired: MemWb)
    requires d == IdealD(s)
    requires s.r == WriteBack(WriteBack(WriteBack(r, w), wbNext), retired)
    requires (wbNext.deste, wbNext.vale, wbNext.destm) == (m.deste, m.vale, m.destm)
    requires (retired.deste, retired.vale, retired.destm) == (exNext.deste, exNext.vale, exNext.destm)
    requires exNext.destm < REG_NONE ==> exNext.destm !in {DSrcA(d), DSrcB(d)}
    ensures MatchesUpTo(DecodeStage(d, exNext, m, wbNext, w, r), s, Forward(REG_NONE, exNext, m, wbNext, w, 0))
  {
    hide FetchStage, WriteBack, Forward;
    if DSrcA(d) < REG_NONE {
      ForwardingIsInOrder(r, w, m, wbNext, exNext, retired, DSrcA(d));
    }
    if DSrcB(d) < REG_NONE {
      ForwardingIsInOrder(r, w, m, wbNext, exNext, retired, DSrcB(d));
    }
  }

  /** A store that misses the bytes of an instruction leaves its fetch unchanged, and so does any store
      where the probe at offset 5 fails. */
  lemma FetchUnaffected(m: seq<Byte>, pos: int, v: Word, pc: Word)
    requires |m| <= MAX_LEN
    requires var after := StoreWord(m, pos, v);
      ByteOk(m, pc) && pc + 5 < |m| ==> Apart(pos, 8, pc, FetchLength(after, pc))
    ensures FetchStage(StoreWord(m, pos, v), pc) == FetchStage(m, pc)
  {
    hide StoreWord, WordOf;
    var after := StoreWord(m, pos, v);
    assert |after| == |m|;
    if ByteOk(m, pc) {
      assert Wrap(pc + 1) == pc + 1 && Wrap(pc + 2) == pc + 2 && Wrap(pc + 5) == pc + 5;
      if ByteOk(m, pc + 5) {
        StoreElsewhere(m, pos, v, pc, pc + 1);
        assert after[pc] == after[pc..pc + 1][0] == m[pc..pc + 1][0] == m[pc];
        var icode := HI4(m[pc]);
        if FNeedRegids(icode) {
          StoreElsewhere(m, pos, v, pc + 1, pc + 2);
          assert after[pc + 1] == after[pc + 1..pc + 2][0] == m[pc + 1..pc + 2][0] == m[pc + 1];
        }
        var posc := if FNeedRegids(icode) then pc + 2 else pc + 1;
        if FNeedValC(icode) && WordOk(m, posc) {
          StoreElsewhere(m, pos, v, posc, posc + 8);
        }
      }
    }
  }
}
