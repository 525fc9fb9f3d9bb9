/** The cycle-by-cycle pipeline simulator. */
module Psim {
  import opened Words
  import opened Memory
  import opened Isa
  import opened PipeStd

  datatype Op = LOAD | STALL | BUBBLE | ERROR

  datatype Ops = Ops(f: Op, d: Op, e: Op, m: Op, w: Op)

  const ALL_LOAD := Ops(LOAD, LOAD, LOAD, LOAD, LOAD)

  /** Updates of the program-visible state, computed in one cycle and performed in the next. */
  datatype Pending = Pending(ccIn: Cc, wbDestE: Nibble, wbValE: Word, wbDestM: Nibble, wbValM: Word,
                             memAddr: Word, memData: Word, memWrite: bool)

  const NO_PENDING := Pending(DEFAULT_CC, REG_NONE, 0, REG_NONE, 0, 0, 0, false)

  datatype Counters = Counters(startingUp: bool, cycles: nat, instructions: nat)

  datatype SimState = SimState(curr: Stages, next: Stages, ops: Ops, r: RegFile, m: seq<Byte>, cc: Cc,
                               pend: Pending, status: Stat, perf: Counters)

  // ----- the stages as functions of what they read -----

  function FetchStage(m: seq<Byte>, fpc: Word): IfId {
    var ok0 := ByteOk(m, fpc);
    var instr: Byte := if ok0 then m[fpc] else 16 * I_NOP + F_NONE;
    // readability of the longest instruction is probed at offset 5
    var imemError := !ok0 || !ByteOk(m, Wrap(fpc + 5));
    var icode := FIcode(imemError, HI4(instr));
    var pos1 := Wrap(fpc + 1);
    var regids: Byte := if FNeedRegids(icode) && ByteOk(m, pos1) then m[pos1] else 255;
    var posc := if FNeedRegids(icode) then Wrap(pos1 + 1) else pos1;
    var valc := if FNeedValC(icode) then WordAt(m, posc) else 0;
    var valp := if FNeedValC(icode) then Wrap(posc + 8) else posc;
    IfId(icode, FIfun(imemError, LO4(instr)), HI4(regids), LO4(regids), valc, valp, FStat(imemError, icode), fpc)
  }

  function PredictStage(d: IfId): PcReg {
    PcReg(FPredPc(d), if d.status == AOK then AOK else BUB)
  }

  function MemStage(x: ExMem, m: seq<Byte>): MemWb {
    var addr := MemAddr(x);
    var dmemError := (MemRead(x) || MemWrite(x)) && !WordOk(m, addr);
    MemWb(x.icode, x.ifun, x.vale, if MemRead(x) then WordAt(m, addr) else 0, x.deste, x.destm, MStat(dmemError, x), x.stagePc)
  }

  function ExecStage(e: IdEx, cc: Cc): ExMem {
    var cond := CondHolds(cc, e.ifun);
    ExMem(e.icode, e.ifun, cond, ComputeAlu(AluFun(e), AluA(e), AluB(e)), e.vala, EDstE(e, cond), e.destm, e.srca, e.status, e.stagePc)
  }

  function DecodeStage(d: IfId, exNext: ExMem, m: ExMem, wbNext: MemWb, w: MemWb, r: RegFile): IdEx {
    var srca, srcb := DSrcA(d), DSrcB(d);
    IdEx(d.icode, d.ifun, d.valc,
         DValA(d, srca, exNext, m, wbNext, w, GetReg(r, srca)),
         DValB(srcb, exNext, m, wbNext, w, GetReg(r, srcb)),
         srca, srcb, DDstE(d), DDstM(d), d.status, d.stagePc)
  }

  function PipeCntl(stall: bool, bubble: bool): Op {
    if stall then (if bubble then ERROR else STALL)
    else if bubble then BUBBLE
    else LOAD
  }

  // ----- the parts of one simulated cycle -----

  function UpdateState(x: SimState, updateMem: bool, updateCc: bool): SimState {
    var p := x.pend;
    x.(r := SetReg(SetReg(x.r, p.wbDestE, p.wbValE), p.wbDestM, p.wbValM),
       m := if updateMem && p.memWrite then StoreWord(x.m, p.memAddr, p.memData) else x.m,
       cc := if updateCc then p.ccIn else x.cc)
  }

  function Updated<T>(op: Op, curr: T, next: T, bubble: T): T {
    match op
    case LOAD => next
    case STALL => curr
    case _ => bubble
  }

  function Rearmed(op: Op): Op {
    if op == ERROR then ERROR else LOAD
  }

  function UpdatePipes(x: SimState): SimState {
    var c, n, o := x.curr, x.next, x.ops;
    x.(curr := Stages(Updated(o.f, c.f, n.f, BUBBLE_F), Updated(o.d, c.d, n.d, BUBBLE_D), Updated(o.e, c.e, n.e, BUBBLE_E),
                      Updated(o.m, c.m, n.m, BUBBLE_M), Updated(o.w, c.w, n.w, BUBBLE_W)),
       ops := Ops(Rearmed(o.f), Rearmed(o.d), Rearmed(o.e), Rearmed(o.m), Rearmed(o.w)))
  }

  function MarkErrors(x: SimState): SimState {
    var c, o := x.curr, x.ops;
    x.(curr := Stages(
         if o.f == ERROR then c.f.(status := PIP) else c.f,
         if o.d == ERROR then c.d.(status := PIP) else c.d,
         if o.e == ERROR then c.e.(status := PIP) else c.e,
         if o.m == ERROR then c.m.(status := PIP) else c.m,
         if o.w == ERROR then c.w.(status := PIP) else c.w))
  }

  /** What the combinational logic makes of the current registers. */
  function NextStages(c: Stages, r: RegFile, m: seq<Byte>, cc: Cc): Stages {
    var d := FetchStage(m, FPc(c.f, c.m, c.w));
    var w := MemStage(c.m, m);
    var x := ExecStage(c.e, cc);
    Stages(PredictStage(d), d, DecodeStage(c.d, x, c.m, w, c.w, r), x, w)
  }

  function Controls(c: Stages, n: Stages): Ops {
    Ops(PipeCntl(FStall(c.d, c.e, c.m, n.e.srca, n.e.srcb), false),
        PipeCntl(DStall(c.e, n.e.srca, n.e.srcb), DBubble(c.d, c.e, c.m, n.e.srca, n.e.srcb, n.m.takebranch)),
        PipeCntl(false, EBubble(c.e, n.e.srca, n.e.srcb, n.m.takebranch)),
        PipeCntl(false, MBubble(n.w, c.w)),
        PipeCntl(WStall(c.w), false))
  }

  function NextCc(c: Stages, wbNext: MemWb, held: Cc): Cc {
    if SetCc(c.e, wbNext, c.w) then ComputeCc(AluFun(c.e), AluA(c.e), AluB(c.e)) else held
  }

  function Updates(c: Stages, n: Stages, held: Cc): Pending {
    Pending(NextCc(c, n.w, held), c.w.deste, c.w.vale, c.w.destm, c.w.valm, MemAddr(c.m), c.m.vala, MemWrite(c.m))
  }

  function Settle(x: SimState): SimState {
    var n := NextStages(x.curr, x.r, x.m, x.cc);
    x.(next := n, ops := Controls(x.curr, n), pend := Updates(x.curr, n, x.pend.ccIn), status := ProcStat(x.curr.w))
  }

  /** What write back holds counts as an instruction. */
  predicate Counted(w: MemWb) { w.status != BUB && w.icode != I_POP2 }

  function Count(x: SimState): SimState {
    var p := x.perf;
    x.(perf :=
         if Counted(x.curr.w) then Counters(false, p.cycles + 1, p.instructions + 1)
         else if !p.startingUp then p.(cycles := p.cycles + 1)
         else p)
  }

  /** One simulated cycle, when at most maxInstr more instructions may complete. */
  function SimStep(x: SimState, maxInstr: int): SimState {
    var aheadMem := if x.curr.w.status != BUB then 1 else 0;
    var aheadEx := aheadMem + if x.next.w.status != BUB then 1 else 0;
    Count(Settle(MarkErrors(UpdatePipes(UpdateState(x, aheadMem < maxInstr, aheadEx < maxInstr)))))
  }

  function Reset(m: seq<Byte>): SimState {
    SimState(BUBBLES, BUBBLES, ALL_LOAD, seq(16, i => 0), m, DEFAULT_CC, NO_PENDING, AOK, Counters(true, 0, 0))
  }

  /** The loop of a run: cycles simulated so far make up ccount, and every status but a bubble's counts
      as an instruction. */
  datatype RunResult = RunResult(x: SimState, icount: nat, runStatus: Stat)

  function Run(x: SimState, maxInstr: int, maxCycle: int, icount: nat, ccount: nat, last: Stat): RunResult
    decreases maxCycle - ccount
  {
    if icount < maxInstr && ccount < maxCycle then
      var x' := SimStep(x, maxInstr - icount);
      var icount' := if x'.status != BUB then icount + 1 else icount;
      if x'.status != AOK && x'.status != BUB then RunResult(x', icount', x'.status)
      else Run(x', maxInstr, maxCycle, icount', ccount + 1, x'.status)
    else
      RunResult(x, icount, last)
  }

  // ----- the mutable simulator -----

  class Simulator {
    var curr: Stages
    var next: Stages
    var ops: Ops
    const reg: Mem
    const mem: Mem
    var cc: Cc
    var pend: Pending
    var status: Stat
    var startingUp: bool
    var cycles: nat
    var instructions: nat

    ghost predicate Valid()
      reads this
    {
      reg.contents != mem.contents && reg.contents.Length == 128
    }

    ghost function State(): SimState
      requires Valid()
      reads this, reg.contents, mem.contents
    {
      SimState(curr, next, ops, Registers(reg.contents[..]), mem.contents[..], cc, pend, status,
               Counters(startingUp, cycles, instructions))
    }

    constructor (image: Mem)
      ensures Valid() && mem == image && fresh(reg.contents)
      ensures State() == Reset(image.contents[..])
    {
      curr, next, ops := BUBBLES, BUBBLES, ALL_LOAD;
      mem := image;
      var r := new Mem(128);
      reg := r;
      cc, pend, status := DEFAULT_CC, NO_PENDING, AOK;
      startingUp, cycles, instructions := true, 0, 0;
      new;
      ZeroRegisters();
    }

    method UpdateStateInPlace(updateMem: bool, updateCc: bool)
      requires Valid()
      modifies `cc, reg.contents, mem.contents
      ensures Valid()
      ensures State() == old(UpdateState(State(), updateMem, updateCc))
    {
      if pend.wbDestE != REG_NONE {
        reg.SetRegVal(pend.wbDestE, pend.wbValE);
      }
      if pend.wbDestM != REG_NONE {
        reg.SetRegVal(pend.wbDestM, pend.wbValM);
      }
      if updateMem && pend.memWrite {
        var ok := mem.SetWordVal(pend.memAddr, pend.memData);
      }
      if updateCc {
        cc := pend.ccIn;
      }
    }

    method UpdatePipesInPlace()
      requires Valid()
      modifies `curr, `ops
      ensures Valid()
      ensures State() == old(UpdatePipes(State()))
    {
      curr := curr.(f := Updated(ops.f, curr.f, next.f, BUBBLE_F));
      curr := curr.(d := Updated(ops.d, curr.d, next.d, BUBBLE_D));
      curr := curr.(e := Updated(ops.e, curr.e, next.e, BUBBLE_E));
      curr := curr.(m := Updated(ops.m, curr.m, next.m, BUBBLE_M));
      curr := curr.(w := Updated(ops.w, curr.w, next.w, BUBBLE_W));
      ops := Ops(Rearmed(ops.f), Rearmed(ops.d), Rearmed(ops.e), Rearmed(ops.m), Rearmed(ops.w));
    }

    method MarkErrorsInPlace()
      requires Valid()
      modifies `curr
      ensures Valid()
      ensures State() == old(MarkErrors(State()))
    {
      if ops.f == ERROR { curr := curr.(f := curr.f.(status := PIP)); }
      if ops.d == ERROR { curr := curr.(d := curr.d.(status := PIP)); }
      if ops.e == ERROR { curr := curr.(e := curr.e.(status := PIP)); }
      if ops.m == ERROR { curr := curr.(m := curr.m.(status := PIP)); }
      if ops.w == ERROR { curr := curr.(w := curr.w.(status := PIP)); }
    }

    /** Reads the first byte of an instruction; reading the byte at offset 5 tells whether there is room for
        the longest. */
    method FetchOpcode(fpc: Word) returns (imemError: bool, instr: Byte)
      requires Valid()
      ensures var m := mem.contents[..];
        && instr == (if ByteOk(m, fpc) then m[fpc] else 16 * I_NOP + F_NONE)
        && imemError == (!ByteOk(m, fpc) || !ByteOk(m, Wrap(fpc + 5)))
    {
      var ok0;
      ok0, instr := mem.GetByteVal(fpc);
      if !ok0 {
        instr := 16 * I_NOP + F_NONE;
      }
      imemError := !ok0;
      if !imemError {
        var ok5, junk := mem.GetByteVal(WordAdd(fpc, 5));
        imemError := !ok5;
      }
    }

    method DoIfStage()
      requires Valid()
      modifies `next
      ensures Valid()
      ensures var d := FetchStage(mem.contents[..], FPc(curr.f, curr.m, curr.w));
        next == old(next).(d := d, f := PredictStage(d))
    {
      hide Registers, WordAt, Wrap, FPc, FIcode, FIfun, FStat, FNeedRegids, FNeedValC, FPredPc, HI4, LO4;
      var valc: Word, regids: Byte := 0, 255;
      var fpc := FPc(curr.f, curr.m, curr.w);
      var imemError, instr := FetchOpcode(fpc);
      var icode := FIcode(imemError, HI4(instr));
      var ifun := FIfun(imemError, LO4(instr));
      var valp := WordAdd(fpc, 1);
      if FNeedRegids(icode) {
        var ok1, byte1 := mem.GetByteVal(valp);
        if ok1 {
          regids := byte1;
        }
        valp := WordAdd(valp, 1);
      }
      if FNeedValC(icode) {
        var okc;
        okc, valc := mem.GetWordVal(valp);
        valp := WordAdd(valp, 8);
      }
      var d := IfId(icode, ifun, HI4(regids), LO4(regids), valc, valp, FStat(imemError, icode), fpc);
      next := next.(d := d, f := PcReg(FPredPc(d), if d.status == AOK then AOK else BUB));
    }

    method DoMemStage()
      requires Valid()
      modifies `next, `pend
      ensures Valid()
      ensures next == old(next).(w := MemStage(curr.m, mem.contents[..]))
      ensures pend == old(pend).(memAddr := MemAddr(curr.m), memData := curr.m.vala, memWrite := MemWrite(curr.m))
    {
      var valm: Word, dmemError := 0, false;
      var memAddr := MemAddr(curr.m);
      pend := pend.(memAddr := memAddr, memData := curr.m.vala, memWrite := MemWrite(curr.m));
      if MemRead(curr.m) {
        var ok;
        ok, valm := mem.GetWordVal(memAddr);
        dmemError := dmemError || !ok;
      }
      if pend.memWrite {
        var ok, sink := mem.GetWordVal(memAddr);
        dmemError := dmemError || !ok;
      }
      var x := curr.m;
      next := next.(w := MemWb(x.icode, x.ifun, x.vale, valm, x.deste, x.destm, MStat(dmemError, x), x.stagePc));
    }

    method DoExStage()
      requires Valid()
      modifies `next, `pend
      ensures Valid()
      ensures next == old(next).(m := ExecStage(curr.e, cc))
      ensures pend == old(pend).(ccIn := NextCc(curr, old(next).w, old(pend).ccIn))
    {
      var e := curr.e;
      var setcc := SetCc(e, next.w, curr.w);
      var alufun, alua, alub := AluFun(e), AluA(e), AluB(e);
      var cond := CondHolds(cc, e.ifun);
      if setcc {
        pend := pend.(ccIn := ComputeCc(alufun, alua, alub));
      }
      next := next.(m := ExMem(e.icode, e.ifun, cond, ComputeAlu(alufun, alua, alub), e.vala,
                               EDstE(e, cond), e.destm, e.srca, e.status, e.stagePc));
    }

    method DoIdWbStages()
      requires Valid()
      modifies `next, `pend, `status
      ensures Valid()
      ensures next
           == old(next).(e := DecodeStage(curr.d, old(next).m, curr.m, old(next).w, curr.w, Registers(reg.contents[..])))
      ensures pend
           == old(pend).(wbDestE := curr.w.deste, wbValE := curr.w.vale, wbDestM := curr.w.destm, wbValM := curr.w.valm)
      ensures status == ProcStat(curr.w)
    {
      pend := pend.(wbDestE := curr.w.deste, wbValE := curr.w.vale, wbDestM := curr.w.destm, wbValM := curr.w.valm);
      status := ProcStat(curr.w);
      var d := curr.d;
      var srca, srcb := DSrcA(d), DSrcB(d);
      var regvala := reg.GetRegVal(srca);
      var regvalb := reg.GetRegVal(srcb);
      var vala := DValA(d, srca, next.m, curr.m, next.w, curr.w, regvala);
      var valb := DValB(srcb, next.m, curr.m, next.w, curr.w, regvalb);
      next := next.(e := IdEx(d.icode, d.ifun, d.valc, vala, valb, srca, srcb, DDstE(d), DDstM(d), d.status, d.stagePc));
    }

    method DoStallCheck()
      requires Valid()
      modifies `ops
      ensures Valid()
      ensures ops == Controls(curr, next)
    {
      var srca, srcb, taken := next.e.srca, next.e.srcb, next.m.takebranch;
      ops := ops.(f := PipeCntl(FStall(curr.d, curr.e, curr.m, srca, srcb), false));
      ops := ops.(d := PipeCntl(DStall(curr.e, srca, srcb), DBubble(curr.d, curr.e, curr.m, srca, srcb, taken)));
      ops := ops.(e := PipeCntl(false, EBubble(curr.e, srca, srcb, taken)));
      ops := ops.(m := PipeCntl(false, MBubble(next.w, curr.w)));
      ops := ops.(w := PipeCntl(WStall(curr.w), false));
    }

    method DoStages()
      requires Valid()
      modifies `next, `ops, `pend, `status
      ensures Valid()
      ensures State() == old(Settle(State()))
    {
      hide Registers, FetchStage, PredictStage, FPc, MemStage, ExecStage, DecodeStage, Controls, NextCc, ProcStat;
      // decode comes after execute and memory, whose results it forwards
      DoIfStage();
      DoMemStage();
      DoExStage();
      DoIdWbStages();
      DoStallCheck();
    }

    /** Simulates one cycle and returns the status of the processor. */
    method SimStepPipe(maxInstr: int) returns (stat: Stat)
      requires Valid()
      modifies this, reg.contents, mem.contents
      ensures Valid()
      ensures State() == old(SimStep(State(), maxInstr))
      ensures stat == status
    {
      hide Registers, UpdateState, UpdatePipes, MarkErrors, Settle, NextStages, Controls, Updates;
      var wbStatus, memStatus := curr.w.status, next.w.status;
      var aheadMem := if wbStatus != BUB then 1 else 0;
      var aheadEx := aheadMem + if memStatus != BUB then 1 else 0;
      UpdateStateInPlace(aheadMem < maxInstr, aheadEx < maxInstr);
      UpdatePipesInPlace();
      MarkErrorsInPlace();
      DoStages();
      ghost var x := State();
      if curr.w.status != BUB && curr.w.icode != I_POP2 {
        startingUp := false;
        instructions := instructions + 1;
        cycles := cycles + 1;
      } else if !startingUp {
        cycles := cycles + 1;
      }
      assert State() == Count(x);
      stat := status;
    }

    /** Runs until an exceptional status is returned or one of the limits is reached. */
    method SimRunPipe(maxInstr: int, maxCycle: int) returns (icount: nat, runStatus: Stat, ccOut: Cc)
      requires Valid()
      modifies this, reg.contents, mem.contents
      ensures Valid()
      ensures RunResult(State(), icount, runStatus) == old(Run(State(), maxInstr, maxCycle, 0, 0, AOK))
      ensures ccOut == cc
    {
      icount, runStatus := 0, AOK;
      var ccount: nat := 0;
      ghost var goal := Run(State(), maxInstr, maxCycle, 0, 0, AOK);
      while icount < maxInstr && ccount < maxCycle
        invariant Valid()
        invariant Run(State(), maxInstr, maxCycle, icount, ccount, runStatus) == goal
        decreases maxCycle - ccount
      {
        runStatus := SimStepPipe(maxInstr - icount);
        if runStatus != BUB {
          icount := icount + 1;
        }
        if runStatus != AOK && runStatus != BUB {
          return icount, runStatus, cc;
        }
        ccount := ccount + 1;
      }
      ccOut := cc;
    }
  }

  lemma ZeroRegisters()
    ensures Registers(seq(128, i => 0)) == seq(16, i => 0)
  {
    var zeros: seq<Byte> := seq(128, i => 0);
    assert Decode(zeros[..0]) == 0;
    forall i | 0 <= i < 16 ensures WordAt(zeros, 8 * i) == 0 {
      DecodeZeros(zeros[8 * i..8 * i + 8]);
    }
  }

  lemma {:induction false} DecodeZeros(bs: seq<Byte>)
    requires forall i :: 0 <= i < |bs| ==> bs[i] == 0
    ensures Decode(bs) == 0
  {
    if bs != [] {
      DecodeZeros(bs[1..]);
    }
  }
}
