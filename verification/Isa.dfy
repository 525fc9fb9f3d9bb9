/** The instruction-set model: one Y86-64 instruction at a time. */
module Isa {
  import opened Words
  import opened Memory

  const I_HALT: Nibble := 0
  const I_NOP: Nibble := 1
  const I_RRMOVQ: Nibble := 2
  const I_IRMOVQ: Nibble := 3
  const I_RMMOVQ: Nibble := 4
  const I_MRMOVQ: Nibble := 5
  const I_ALU: Nibble := 6
  const I_JMP: Nibble := 7
  const I_CALL: Nibble := 8
  const I_RET: Nibble := 9
  const I_PUSHQ: Nibble := 10
  const I_POPQ: Nibble := 11
  const I_IADDQ: Nibble := 12

  /** A code with a name but without an instruction. */
  const I_POP2: Nibble := 13

  const A_ADD: Nibble := 0
  const A_SUB: Nibble := 1
  const A_AND: Nibble := 2
  const A_XOR: Nibble := 3

  const C_YES: Nibble := 0
  const C_LE: Nibble := 1
  const C_L: Nibble := 2
  const C_E: Nibble := 3
  const C_NE: Nibble := 4
  const C_GE: Nibble := 5
  const C_G: Nibble := 6

  datatype Stat = BUB | AOK | HLT | ADR | INS | PIP

  datatype Cc = Cc(zf: bool, sf: bool, of: bool)

  const DEFAULT_CC := Cc(true, false, false)

  function ComputeAlu(op: Nibble, argA: Word, argB: Word): Word {
    if op == A_ADD then Wrap(argA + argB)
    else if op == A_SUB then Wrap(argB - argA)
    else if op == A_AND then And64(argA, argB)
    else if op == A_XOR then Xor64(argA, argB)
    else 0
  }

  function ComputeCc(op: Nibble, argA: Word, argB: Word): Cc {
    var val := ComputeAlu(op, argA, argB);
    var ovf :=
      if op == A_ADD then (argA < 0) == (argB < 0) && (val < 0) != (argA < 0)
      else if op == A_SUB then (argA > 0) == (argB < 0) && (val < 0) != (argB < 0)
      else false;
    Cc(val == 0, val < 0, ovf)
  }

  predicate CondHolds(cc: Cc, cond: Nibble) {
    var less := cc.sf != cc.of;
    if cond == C_YES then true
    else if cond == C_LE then less || cc.zf
    else if cond == C_L then less
    else if cond == C_E then cc.zf
    else if cond == C_NE then !cc.zf
    else if cond == C_GE then !less
    else if cond == C_G then !less && !cc.zf
    else false
  }

  /** After subq, the conditions are the signed comparisons of b with a, overflow or not. */
  lemma SubtractionCompares(a: Word, b: Word)
    ensures var cc := ComputeCc(1, a, b);
      && (CondHolds(cc, 1) <==> b <= a) && (CondHolds(cc, 2) <==> b < a) && (CondHolds(cc, 3) <==> b == a)
      && (CondHolds(cc, 4) <==> b != a) && (CondHolds(cc, 5) <==> b >= a) && (CondHolds(cc, 6) <==> b > a)
  {
    WrapCases(b - a);
  }

  /** After addq, the order conditions tell the sign of the exact sum. The zero flag tells whether
      it is zero unless both operands are the least word, whose sum wraps to zero. */
  lemma AdditionSign(a: Word, b: Word)
    ensures var cc := ComputeCc(0, a, b);
      && (CondHolds(cc, 2) <==> a + b < 0) && (CondHolds(cc, 5) <==> a + b >= 0)
      && (CondHolds(cc, 1) <==> a + b <= 0) && (CondHolds(cc, 6) <==> a + b > 0)
      && ((CondHolds(cc, 3) <==> a + b == 0) <==> !(a == b == -TWO63))
  {
    WrapCases(a + b);
  }

  /** The operations by their codes 0 to 3: sum, difference of b and a, conjunction and exclusive or of
      the 64 bits. */
  lemma OperationsByCode(a: Word, b: Word)
    ensures (ComputeAlu(0, a, b) - (a + b)) % TWO64 == 0
    ensures (ComputeAlu(1, a, b) - (b - a)) % TWO64 == 0
    ensures forall k: nat :: k <= 63 ==> (Bit(ComputeAlu(2, a, b), k) <==> Bit(a, k) && Bit(b, k))
    ensures forall k: nat :: k <= 63 ==> (Bit(ComputeAlu(3, a, b), k) <==> Bit(a, k) != Bit(b, k))
  {
    Pow63();
    hide Bit, Bitwise, Pow2;
    forall k: nat | k <= 63
      ensures Bit(ComputeAlu(2, a, b), k) <==> Bit(a, k) && Bit(b, k)
      ensures Bit(ComputeAlu(3, a, b), k) <==> Bit(a, k) != Bit(b, k)
    {
      BitwiseIsPerBit(AndOp, a, b, 63, k);
      BitwiseIsPerBit(XorOp, a, b, 63, k);
    }
  }

  /** After andq and xorq nothing overflows, and the conditions compare the result with 0. */
  lemma LogicCompares(op: Nibble, a: Word, b: Word)
    requires op == 2 || op == 3
    ensures var v, cc := ComputeAlu(op, a, b), ComputeCc(op, a, b);
      && !cc.of && (cc.zf <==> v == 0) && (cc.sf <==> v < 0)
      && (CondHolds(cc, 1) <==> v <= 0) && (CondHolds(cc, 2) <==> v < 0) && (CondHolds(cc, 3) <==> v == 0)
      && (CondHolds(cc, 4) <==> v != 0) && (CondHolds(cc, 5) <==> v >= 0) && (CondHolds(cc, 6) <==> v > 0)
  {
    hide And64, Xor64;
  }

  /** Condition 0 always holds, and codes without a condition never do. */
  lemma AlwaysHolds(cc: Cc, cond: Nibble)
    ensures CondHolds(cc, 0) && (cond > 6 ==> !CondHolds(cc, cond))
  {}

  /** Testing a word with itself: andq leaves the word, and ZF tells whether it is 0. */
  lemma AndWithItself(a: Word)
    ensures ComputeAlu(2, a, a) == a && (ComputeCc(2, a, a).zf <==> a == 0)
  {
    OperationsByCode(a, a);
    Pow63();
    hide Bit, Pow2, And64;
    BitsDetermine(ComputeAlu(2, a, a), a, 63);
  }

  lemma WrapCases(x: int)
    requires -TWO64 <= x < TWO64
    ensures Wrap(x) == if x < -TWO63 then x + TWO64 else if x >= TWO63 then x - TWO64 else x
  {
    WrapUnique(x, if x < -TWO63 then x + TWO64 else if x >= TWO63 then x - TWO64 else x);
  }

  // ----- one instruction -----

  datatype IsaState = IsaState(pc: Word, r: RegFile, m: seq<Byte>, cc: Cc)

  predicate RegValid(id: Nibble) { id < REG_NONE }

  predicate NeedRegids(icode: Nibble) {
    icode in {I_RRMOVQ, I_ALU, I_PUSHQ, I_POPQ, I_IRMOVQ, I_RMMOVQ, I_MRMOVQ, I_IADDQ}
  }

  predicate NeedImm(icode: Nibble) {
    icode in {I_IRMOVQ, I_RMMOVQ, I_MRMOVQ, I_JMP, I_CALL, I_IADDQ}
  }

  /** What the decoding prologue of a step finds at pc. */
  datatype Decoded = Decoded(icode: Nibble, ifun: Nibble, ra: Nibble, rb: Nibble, ok1: bool, cval: Word, okc: bool,
                             ftpc: Word)

  function Decoding(m: seq<Byte>, pc: Word): Decoded
    requires ByteOk(m, pc)
  {
    var icode := HI4(m[pc]);
    var pos1 := Wrap(pc + 1);
    var regs := NeedRegids(icode);
    var imm := NeedImm(icode);
    // a failed byte read leaves byte1 at 0
    var byte1: Byte := if ByteOk(m, pos1) then m[pos1] else 0;
    var posc := if regs then Wrap(pos1 + 1) else pos1;
    Decoded(
      icode, LO4(m[pc]),
      if regs then HI4(byte1) else REG_NONE,
      if regs then LO4(byte1) else REG_NONE,
      regs ==> ByteOk(m, pos1),
      if imm then WordAt(m, posc) else 0,
      imm ==> WordOk(m, posc),
      if imm then Wrap(posc + 8) else posc)
  }

  /** The effect and the status of executing the instruction at s.pc. On an error the state may
      already have been changed in part, as the program leaves it. */
  function Step(s: IsaState): (IsaState, Stat) {
    if ByteOk(s.m, s.pc) then Execute(s, Decoding(s.m, s.pc)) else (s, ADR)
  }

  function Execute(s: IsaState, d: Decoded): (IsaState, Stat) {
    var next := s.(pc := d.ftpc);
    if d.icode == I_NOP then (next, AOK)
    else if d.icode == I_HALT then (s, HLT)
    else if d.icode == I_RRMOVQ then
      if !d.ok1 then (s, ADR)
      else if !RegValid(d.ra) || !RegValid(d.rb) then (s, INS)
      else if CondHolds(s.cc, d.ifun) then (next.(r := SetReg(s.r, d.rb, GetReg(s.r, d.ra))), AOK)
      else (next, AOK)
    else if d.icode == I_IRMOVQ then
      if !d.ok1 then (s, ADR)
      else if !d.okc || !RegValid(d.rb) then (s, INS)
      else (next.(r := SetReg(s.r, d.rb, d.cval)), AOK)
    else if d.icode == I_RMMOVQ then
      if !d.ok1 then (s, ADR)
      else if !d.okc || !RegValid(d.ra) then (s, INS)
      else
        var addr := Address(s.r, d);
        if !WordOk(s.m, addr) then (s, ADR)
        else (next.(m := StoreWord(s.m, addr, GetReg(s.r, d.ra))), AOK)
    else if d.icode == I_MRMOVQ then
      if !d.ok1 then (s, ADR)
      else if !d.okc || !RegValid(d.ra) then (s, INS)
      else
        var addr := Address(s.r, d);
        if !WordOk(s.m, addr) then (s, ADR)
        else (next.(r := SetReg(s.r, d.ra, WordAt(s.m, addr))), AOK)
    else if d.icode == I_ALU then
      if !d.ok1 then (s, ADR)
      else
        var argA, argB := GetReg(s.r, d.ra), GetReg(s.r, d.rb);
        (next.(r := SetReg(s.r, d.rb, ComputeAlu(d.ifun, argA, argB)), cc := ComputeCc(d.ifun, argA, argB)), AOK)
    else if d.icode == I_JMP then
      if !d.ok1 || !d.okc then (s, ADR)
      else (if CondHolds(s.cc, d.ifun) then s.(pc := d.cval) else next, AOK)
    else if d.icode == I_CALL then
      if !d.ok1 || !d.okc then (s, ADR)
      else
        var sp := Wrap(GetReg(s.r, REG_RSP) - 8);
        var moved := s.(r := SetReg(s.r, REG_RSP, sp));
        if !WordOk(s.m, sp) then (moved, ADR)
        else (moved.(m := StoreWord(s.m, sp, d.ftpc), pc := d.cval), AOK)
    else if d.icode == I_RET then
      var sp := GetReg(s.r, REG_RSP);
      if !WordOk(s.m, sp) then (s, ADR)
      else (s.(r := SetReg(s.r, REG_RSP, Wrap(sp + 8)), pc := WordAt(s.m, sp)), AOK)
    else if d.icode == I_PUSHQ then
      if !d.ok1 then (s, ADR)
      else if !RegValid(d.ra) then (s, INS)
      else
        var sp := Wrap(GetReg(s.r, REG_RSP) - 8);
        var moved := s.(r := SetReg(s.r, REG_RSP, sp));
        if !WordOk(s.m, sp) then (moved, ADR)
        else (moved.(m := StoreWord(s.m, sp, GetReg(s.r, d.ra)), pc := d.ftpc), AOK)
    else if d.icode == I_POPQ then
      if !d.ok1 then (s, ADR)
      else if !RegValid(d.ra) then (s, INS)
      else
        var sp := GetReg(s.r, REG_RSP);
        var moved := s.(r := SetReg(s.r, REG_RSP, Wrap(sp + 8)));
        if !WordOk(s.m, sp) then (moved, ADR)
        else (moved.(r := SetReg(moved.r, d.ra, WordAt(s.m, sp)), pc := d.ftpc), AOK)
    else if d.icode == I_IADDQ then
      if !d.ok1 then (s, ADR)
      else if !d.okc || !RegValid(d.rb) then (s, INS)
      else
        var argB := GetReg(s.r, d.rb);
        (next.(r := SetReg(s.r, d.rb, Wrap(argB + d.cval)), cc := ComputeCc(A_ADD, d.cval, argB)), AOK)
    else (s, INS)
  }

  /** The errors that the bytes at pc alone give rise to, by the code in the first byte: no byte, a code
      without an instruction, no register byte, and a constant that is cut off, which is an address error
      for jumps and calls only. */
  lemma FetchErrors(s: IsaState)
    requires |s.m| < TWO63 - 10
    ensures 0 <= s.pc < |s.m| ==>
      var code, end := s.m[s.pc] / 16, |s.m|;
      && (code >= 13 ==> Step(s) == (s, INS))
      && (code in {2, 3, 4, 5, 6, 10, 11, 12} && s.pc + 2 > end ==> Step(s) == (s, ADR))
      && (code in {3, 4, 5, 12} && s.pc + 2 <= end < s.pc + 10 ==> Step(s) == (s, INS))
      && (code in {7, 8} && s.pc + 9 > end ==> Step(s) == (s, ADR))
    ensures !(0 <= s.pc < |s.m|) ==> Step(s) == (s, ADR)
  {
    hide WordOf, StoreWord, ComputeAlu, ComputeCc, CondHolds, And64, Xor64;
    if ByteOk(s.m, s.pc) {
      assert Wrap(s.pc + 1) == s.pc + 1 && Wrap(s.pc + 2) == s.pc + 2;
    }
  }

  /** Displacement plus base register, when there is one. */
  function Address(r: RegFile, d: Decoded): Word {
    if RegValid(d.rb) then Wrap(d.cval + GetReg(r, d.rb)) else d.cval
  }

  // ----- the mutable machine -----

  class Machine {
    var pc: Word
    const r: Mem
    const m: Mem
    var cc: Cc

    ghost predicate Valid()
      reads this
    {
      r.contents != m.contents && r.contents.Length == 128
    }

    ghost function State(): IsaState
      requires Valid()
      reads this, r.contents, m.contents
    {
      IsaState(pc, Registers(r.contents[..]), m.contents[..], cc)
    }

    constructor (r: Mem, m: Mem, cc: Cc)
      requires r.contents != m.contents && r.contents.Length == 128
      ensures Valid() && this.r == r && this.m == m
      ensures State() == IsaState(0, Registers(r.contents[..]), m.contents[..], cc)
    {
      this.pc, this.r, this.m, this.cc := 0, r, m, cc;
    }

    method StepState() returns (stat: Stat)
      requires Valid()
      modifies this, r.contents, m.contents
      ensures Valid()
      ensures (State(), stat) == old(Step(State()))
    {
      hide WordAt, Wrap;
      var ok0, byte0 := m.GetByteVal(pc);
      if !ok0 {
        return ADR;
      }
      var ftpc := WordAdd(pc, 1);
      var hi0, lo0 := HI4(byte0), LO4(byte0);
      var ok1, hi1, lo1 := true, REG_NONE, REG_NONE;
      if NeedRegids(hi0) {
        var byte1;
        ok1, byte1 := m.GetByteVal(ftpc);
        ftpc := WordAdd(ftpc, 1);
        hi1, lo1 := HI4(byte1), LO4(byte1);
      }
      var okc, cval := true, 0;
      if NeedImm(hi0) {
        okc, cval := m.GetWordVal(ftpc);
        ftpc := WordAdd(ftpc, 8);
      }
      assert Decoding(m.contents[..], pc) == Decoded(hi0, lo0, hi1, lo1, ok1, cval, okc, ftpc);
      hide Execute;
      if hi0 in {I_RMMOVQ, I_MRMOVQ, I_CALL, I_RET, I_PUSHQ, I_POPQ} {
        stat := ExecuteOnMemory(hi0, lo0, hi1, lo1, ok1, cval, okc, ftpc);
      } else {
        stat := ExecuteOnRegisters(hi0, lo0, hi1, lo1, ok1, cval, okc, ftpc);
      }
    }

    method ExecuteOnRegisters(hi0: Nibble, lo0: Nibble, hi1: Nibble, lo1: Nibble, ok1: bool, imm: Word, okc: bool,
                              ftpc: Word) returns (stat: Stat)
      requires hi0 !in {I_RMMOVQ, I_MRMOVQ, I_CALL, I_RET, I_PUSHQ, I_POPQ}
      requires Valid()
      modifies this, r.contents, m.contents
      ensures Valid()
      ensures (State(), stat) == old(Execute(State(), Decoded(hi0, lo0, hi1, lo1, ok1, imm, okc, ftpc)))
    {
      var cval := imm;
      hide ComputeAlu, ComputeCc, CondHolds, WordAt, StoreWord, Registers, Encode, WordOf, Wrap, ByteOk;
      if hi0 == I_NOP {
        pc := ftpc;
      } else if hi0 == I_HALT {
        return HLT;
      } else if hi0 == I_RRMOVQ {
        if !ok1 { return ADR; }
        if !RegValid(hi1) || !RegValid(lo1) { return INS; }
        var val := r.GetRegVal(hi1);
        if CondHolds(cc, lo0) {
          r.SetRegVal(lo1, val);
        }
        pc := ftpc;
      } else if hi0 == I_IRMOVQ {
        if !ok1 { return ADR; }
        if !okc || !RegValid(lo1) { return INS; }
        r.SetRegVal(lo1, cval);
        pc := ftpc;
      } else if hi0 == I_ALU {
        if !ok1 { return ADR; }
        var argA := r.GetRegVal(hi1);
        var argB := r.GetRegVal(lo1);
        r.SetRegVal(lo1, ComputeAlu(lo0, argA, argB));
        cc := ComputeCc(lo0, argA, argB);
        pc := ftpc;
      } else if hi0 == I_JMP {
        if !ok1 || !okc { return ADR; }
        if CondHolds(cc, lo0) {
          pc := cval;
        } else {
          pc := ftpc;
        }
      } else if hi0 == I_IADDQ {
        if !ok1 { return ADR; }
        if !okc || !RegValid(lo1) { return INS; }
        var argB := r.GetRegVal(lo1);
        r.SetRegVal(lo1, WordAdd(argB, cval));
        cc := ComputeCc(A_ADD, cval, argB);
        pc := ftpc;
      } else {
        return INS;
      }
      return AOK;
    }

    method ExecuteOnMemory(hi0: Nibble, lo0: Nibble, hi1: Nibble, lo1: Nibble, ok1: bool, imm: Word, okc: bool,
                           ftpc: Word) returns (stat: Stat)
      requires hi0 in {I_RMMOVQ, I_MRMOVQ, I_CALL, I_RET, I_PUSHQ, I_POPQ}
      requires Valid()
      modifies this, r.contents, m.contents
      ensures Valid()
      ensures (State(), stat) == old(Execute(State(), Decoded(hi0, lo0, hi1, lo1, ok1, imm, okc, ftpc)))
    {
      hide ComputeAlu, ComputeCc, CondHolds, WordAt, StoreWord, Registers, Encode, WordOf, Wrap, ByteOk;
      var cval := imm;
      if hi0 == I_RMMOVQ {
        if !ok1 { return ADR; }
        if !okc || !RegValid(hi1) { return INS; }
        if RegValid(lo1) {
          var base := r.GetRegVal(lo1);
          cval := WordAdd(cval, base);
        }
        var val := r.GetRegVal(hi1);
        var ok := m.SetWordVal(cval, val);
        if !ok { return ADR; }
        pc := ftpc;
      } else if hi0 == I_MRMOVQ {
        if !ok1 { return ADR; }
        if !okc || !RegValid(hi1) { return INS; }
        if RegValid(lo1) {
          var base := r.GetRegVal(lo1);
          cval := WordAdd(cval, base);
        }
        var ok, val := m.GetWordVal(cval);
        if !ok { return ADR; }
        r.SetRegVal(hi1, val);
        pc := ftpc;
      } else if hi0 == I_CALL {
        if !ok1 || !okc { return ADR; }
        var val := r.GetRegVal(REG_RSP);
        val := WordAdd(val, -8);
        r.SetRegVal(REG_RSP, val);
        var ok := m.SetWordVal(val, ftpc);
        if !ok { return ADR; }
        pc := cval;
      } else if hi0 == I_RET {
        var dval := r.GetRegVal(REG_RSP);
        var ok, val := m.GetWordVal(dval);
        if !ok { return ADR; }
        r.SetRegVal(REG_RSP, WordAdd(dval, 8));
        pc := val;
      } else if hi0 == I_PUSHQ {
        if !ok1 { return ADR; }
        if !RegValid(hi1) { return INS; }
        var val := r.GetRegVal(hi1);
        var dval := r.GetRegVal(REG_RSP);
        dval := WordAdd(dval, -8);
        r.SetRegVal(REG_RSP, dval);
        var ok := m.SetWordVal(dval, val);
        if !ok { return ADR; }
        pc := ftpc;
      } else {
        if !ok1 { return ADR; }
        if !RegValid(hi1) { return INS; }
        var dval := r.GetRegVal(REG_RSP);
        r.SetRegVal(REG_RSP, WordAdd(dval, 8));
        var ok, val := m.GetWordVal(dval);
        if !ok { return ADR; }
        r.SetRegVal(hi1, val);
        pc := ftpc;
      }
      return AOK;
    }
  }
}
