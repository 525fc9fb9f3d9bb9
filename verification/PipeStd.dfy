/** The pipeline registers, and the control and data-select logic of the standard pipeline. */
module PipeStd {
  import opened Words
  import opened Memory
  import opened Isa

  const F_NONE: Nibble := 0

  // ----- pipeline registers and their bubble values -----

  datatype PcReg = PcReg(pc: Word, status: Stat)

  datatype IfId = IfId(icode: Nibble, ifun: Nibble, ra: Nibble, rb: Nibble, valc: Word, valp: Word, status: Stat,
                       stagePc: Word)

  datatype IdEx = IdEx(icode: Nibble, ifun: Nibble, valc: Word, vala: Word, valb: Word,
                       srca: Nibble, srcb: Nibble, deste: Nibble, destm: Nibble, status: Stat, stagePc: Word)

  datatype ExMem = ExMem(icode: Nibble, ifun: Nibble, takebranch: bool, vale: Word, vala: Word,
                         deste: Nibble, destm: Nibble, srca: Nibble, status: Stat, stagePc: Word)

  datatype MemWb = MemWb(icode: Nibble, ifun: Nibble, vale: Word, valm: Word, deste: Nibble, destm: Nibble,
                         status: Stat, stagePc: Word)

  datatype Stages = Stages(f: PcReg, d: IfId, e: IdEx, m: ExMem, w: MemWb)

  const BUBBLE_F := PcReg(0, AOK)
  const BUBBLE_D := IfId(I_NOP, 0, REG_NONE, REG_NONE, 0, 0, BUB, 0)
  const BUBBLE_E := IdEx(I_NOP, 0, 0, 0, 0, REG_NONE, REG_NONE, REG_NONE, REG_NONE, BUB, 0)
  // the initializer of this register stops one value short, so srca is 0 rather than REG_NONE
  const BUBBLE_M := ExMem(I_NOP, 0, false, 0, 0, REG_NONE, REG_NONE, 0, BUB, 0)
  const BUBBLE_W := MemWb(I_NOP, 0, 0, 0, REG_NONE, REG_NONE, BUB, 0)
  const BUBBLES := Stages(BUBBLE_F, BUBBLE_D, BUBBLE_E, BUBBLE_M, BUBBLE_W)

  predicate Excepting(s: Stat) { s in {ADR, INS, HLT} }

  // ----- fetch -----

  function FPc(f: PcReg, m: ExMem, w: MemWb): Word {
    if m.icode == I_JMP && !m.takebranch then m.vala
    else if w.icode == I_RET then w.valm
    else f.pc
  }

  function FIcode(imemError: bool, imemIcode: Nibble): Nibble {
    if imemError then I_NOP else imemIcode
  }

  function FIfun(imemError: bool, imemIfun: Nibble): Nibble {
    if imemError then F_NONE else imemIfun
  }

  predicate InstrValid(icode: Nibble) {
    icode in {I_NOP, I_HALT, I_RRMOVQ, I_IRMOVQ, I_RMMOVQ, I_MRMOVQ, I_ALU, I_JMP, I_CALL, I_RET, I_PUSHQ, I_POPQ}
  }

  function FStat(imemError: bool, icode: Nibble): Stat {
    if imemError then ADR
    else if !InstrValid(icode) then INS
    else if icode == I_HALT then HLT
    else AOK
  }

  predicate FNeedRegids(icode: Nibble) {
    icode in {I_RRMOVQ, I_ALU, I_PUSHQ, I_POPQ, I_IRMOVQ, I_RMMOVQ, I_MRMOVQ}
  }

  predicate FNeedValC(icode: Nibble) {
    icode in {I_IRMOVQ, I_RMMOVQ, I_MRMOVQ, I_JMP, I_CALL}
  }

  function FPredPc(d: IfId): Word {
    if d.icode == I_JMP || d.icode == I_CALL then d.valc else d.valp
  }

  // ----- decode -----

  function DSrcA(d: IfId): Nibble {
    if d.icode in {I_RRMOVQ, I_RMMOVQ, I_ALU, I_PUSHQ} then d.ra
    else if d.icode in {I_POPQ, I_RET} then REG_RSP
    else REG_NONE
  }

  function DSrcB(d: IfId): Nibble {
    if d.icode in {I_ALU, I_RMMOVQ, I_MRMOVQ} then d.rb
    else if d.icode in {I_PUSHQ, I_POPQ, I_CALL, I_RET} then REG_RSP
    else REG_NONE
  }

  function DDstE(d: IfId): Nibble {
    if d.icode in {I_RRMOVQ, I_IRMOVQ, I_ALU} then d.rb
    else if d.icode in {I_PUSHQ, I_POPQ, I_CALL, I_RET} then REG_RSP
    else REG_NONE
  }

  function DDstM(d: IfId): Nibble {
    if d.icode in {I_MRMOVQ, I_POPQ} then d.ra else REG_NONE
  }

  /** A source operand: the youngest older instruction that writes the register, else the file. */
  function Forward(src: Nibble, exNext: ExMem, m: ExMem, wbNext: MemWb, w: MemWb, regVal: Word): Word {
    if src == exNext.deste then exNext.vale
    else if src == m.destm then wbNext.valm
    else if src == m.deste then m.vale
    else if src == w.destm then w.valm
    else if src == w.deste then w.vale
    else regVal
  }

  function DValA(d: IfId, src: Nibble, exNext: ExMem, m: ExMem, wbNext: MemWb, w: MemWb, regVal: Word): Word {
    if d.icode == I_CALL || d.icode == I_JMP then d.valp
    else Forward(src, exNext, m, wbNext, w, regVal)
  }

  function DValB(src: Nibble, exNext: ExMem, m: ExMem, wbNext: MemWb, w: MemWb, regVal: Word): Word {
    Forward(src, exNext, m, wbNext, w, regVal)
  }

  // ----- execute -----

  function AluA(e: IdEx): Word {
    if e.icode in {I_RRMOVQ, I_ALU} then e.vala
    else if e.icode in {I_IRMOVQ, I_RMMOVQ, I_MRMOVQ} then e.valc
    else if e.icode in {I_CALL, I_PUSHQ} then -8
    else if e.icode in {I_RET, I_POPQ} then 8
    else 0
  }

  function AluB(e: IdEx): Word {
    if e.icode in {I_RMMOVQ, I_MRMOVQ, I_ALU, I_CALL, I_PUSHQ, I_RET, I_POPQ} then e.valb else 0
  }

  function AluFun(e: IdEx): Nibble {
    if e.icode == I_ALU then e.ifun else A_ADD
  }

  predicate SetCc(e: IdEx, wbNext: MemWb, w: MemWb) {
    e.icode == I_ALU && !Excepting(wbNext.status) && !Excepting(w.status)
  }

  function EDstE(e: IdEx, takebranch: bool): Nibble {
    if e.icode == I_RRMOVQ && !takebranch then REG_NONE else e.deste
  }

  // ----- memory and write back -----

  function MemAddr(m: ExMem): Word {
    if m.icode in {I_RMMOVQ, I_PUSHQ, I_CALL, I_MRMOVQ} then m.vale
    else if m.icode in {I_POPQ, I_RET} then m.vala
    else 0
  }

  predicate MemRead(m: ExMem) { m.icode in {I_MRMOVQ, I_POPQ, I_RET} }

  predicate MemWrite(m: ExMem) { m.icode in {I_RMMOVQ, I_PUSHQ, I_CALL} }

  function MStat(dmemError: bool, m: ExMem): Stat {
    if dmemError then ADR else m.status
  }

  function ProcStat(w: MemWb): Stat {
    if w.status == BUB then AOK else w.status
  }

  // ----- pipeline register control -----

  predicate LoadUse(e: IdEx, srca: Nibble, srcb: Nibble) {
    e.icode in {I_MRMOVQ, I_POPQ} && (e.destm == srca || e.destm == srcb)
  }

  predicate Returning(d: IfId, e: IdEx, m: ExMem) {
    I_RET in {d.icode, e.icode, m.icode}
  }

  predicate Mispredicted(e: IdEx, takebranch: bool) {
    e.icode == I_JMP && !takebranch
  }

  predicate FStall(d: IfId, e: IdEx, m: ExMem, srca: Nibble, srcb: Nibble) {
    LoadUse(e, srca, srcb) || Returning(d, e, m)
  }

  predicate DStall(e: IdEx, srca: Nibble, srcb: Nibble) {
    LoadUse(e, srca, srcb)
  }

  predicate DBubble(d: IfId, e: IdEx, m: ExMem, srca: Nibble, srcb: Nibble, takebranch: bool) {
    Mispredicted(e, takebranch) || (!LoadUse(e, srca, srcb) && Returning(d, e, m))
  }

  predicate EBubble(e: IdEx, srca: Nibble, srcb: Nibble, takebranch: bool) {
    Mispredicted(e, takebranch) || LoadUse(e, srca, srcb)
  }

  predicate MBubble(wbNext: MemWb, w: MemWb) {
    Excepting(wbNext.status) || Excepting(w.status)
  }

  predicate WStall(w: MemWb) {
    Excepting(w.status)
  }
}
