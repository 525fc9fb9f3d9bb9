/** The simulator's own comparison of a pipelined run with the instruction-set model. */
module PipeCheck {
  import opened Arithmetic
  import opened Words
  import opened Memory
  import opened Isa
  import opened PipeStd
  import opened Psim
  import opened Sequential
  import opened PipeTheorems
  import opened PipeCorrect
  import opened PipeRuns

  /** The stack instructions move the stack pointer before they find out that the stack word is not in
      memory; the pipeline, which stops first, does not. */
  predicate StackFault(s: IsaState) {
    Step(s).1 == ADR && ByteOk(s.m, s.pc) && Decoding(s.m, s.pc).ok1 && Decoding(s.m, s.pc).okc
    && HI4(s.m[s.pc]) in {I_CALL, I_PUSHQ, I_POPQ}
  }

  /** A step that raises an exception changes nothing, or just the registers if it is a stack fault. */
  lemma ExceptionEffect(s: IsaState)
    requires Step(s).1 != AOK
    ensures Step(s).0 == s.(r := Step(s).0.r)
    ensures Step(s).0.r == s.r <==> !StackFault(s)
  {
    hide WordOf, Encode, ComputeAlu, ComputeCc;
    MovesStackPointer(s.r, -8);
    MovesStackPointer(s.r, 8);
  }

  lemma MovesStackPointer(r: RegFile, d: int)
    requires d == 8 || d == -8
    ensures SetReg(r, REG_RSP, Wrap(GetReg(r, REG_RSP) + d)) != r
  {
    var sp := GetReg(r, REG_RSP);
    WrapCases(sp + d);
    assert SetReg(r, REG_RSP, Wrap(sp + d))[REG_RSP] != r[REG_RSP];
  }

  lemma WordOfInjective(a: seq<Byte>, b: seq<Byte>)
    requires |a| == |b| == 8 && WordOf(a) == WordOf(b)
    ensures a == b
  {
    hide Wrap, Decode, Encode, Pow256;
    DecodeBound(a);
    DecodeBound(b);
    Pow256OfEight();
    SameWrap(Decode(a), Decode(b));
    EncodeDecode(a);
    EncodeDecode(b);
  }

  lemma SameWrap(x: int, y: int)
    requires 0 <= x < TWO64 && 0 <= y < TWO64 && Wrap(x) == Wrap(y)
    ensures x == y
  {
    WrapCases(x);
    WrapCases(y);
  }

  /** Compares two memories word by word (diff_mem, and diff_reg on register memories). */
  method DiffMem(a: Mem, b: Mem) returns (diff: bool)
    requires a.contents.Length == b.contents.Length && a.contents.Length % 8 == 0
    requires a.contents.Length <= MAX_LEN
    ensures diff <==> a.contents[..] != b.contents[..]
  {
    diff := false;
    var pos := 0;
    while !diff && pos < a.contents.Length
      invariant 0 <= pos <= a.contents.Length && pos % 8 == 0
      invariant !diff ==> a.contents[..pos] == b.contents[..pos]
      invariant diff ==> a.contents[..] != b.contents[..]
      decreases a.contents.Length - pos + One(!diff)
    {
      var oka, ov := a.GetWordVal(pos);
      var okb, nv := b.GetWordVal(pos);
      if nv != ov {
        diff := true;
      } else {
        WordOfInjective(a.contents[..][pos..pos + 8], b.contents[..][pos..pos + 8]);
        assert a.contents[..pos + 8] == a.contents[..pos] + a.contents[..][pos..pos + 8];
        assert b.contents[..pos + 8] == b.contents[..pos] + b.contents[..][pos..pos + 8];
      }
      pos := pos + 8;
    }
    assert a.contents[..a.contents.Length] == a.contents[..] && b.contents[..b.contents.Length] == b.contents[..];
  }

  lemma RegistersDetermineBytes(a: seq<Byte>, b: seq<Byte>)
    requires |a| == |b| == 128
    ensures a == b <==> Registers(a) == Registers(b)
  {
    if Registers(a) == Registers(b) {
      forall i | 0 <= i < 16 ensures a[8 * i..8 * i + 8] == b[8 * i..8 * i + 8] {
        assert Registers(a)[i] == Registers(b)[i];
        WordOfInjective(a[8 * i..8 * i + 8], b[8 * i..8 * i + 8]);
      }
      forall p | 0 <= p < 128 ensures a[p] == b[p] {
        var i := p / 8;
        assert a[8 * i..8 * i + 8][p - 8 * i] == b[8 * i..8 * i + 8][p - 8 * i];
      }
    }
  }

  /** The model's half of the check: step until an exception. */
  method RunIsa(isa: Machine, limit: int, ghost k: nat)
    requires isa.Valid()
    requires IsaRuns(isa.State(), k) && IsaStatus(isa.State(), k) != AOK && k < limit
    modifies isa, isa.r.contents, isa.m.contents
    ensures isa.Valid() && isa.State() == old(IsaAt(isa.State(), k + 1))
  {
    hide Step;
    var e, step := AOK, 0;
    ghost var s0 := isa.State();
    while step < limit && e == AOK
      invariant isa.Valid() && 0 <= step <= k + 1 && isa.State() == IsaAt(s0, step)
      invariant if step <= k then e == AOK else e != AOK
      decreases limit - step
    {
      RunsEarlier(s0, step, k);
      if step < k {
        RunsEarlier(s0, step + 1, k);
      }
      e := isa.StepState();
      step := step + 1;
    }
  }

  /** The -t option: run a program on the pipeline and on the model and compare registers, memory and
      condition codes. For a supported program whose run ends with an exception at instruction k, and a
      limit that the pipeline's cycles do not exceed, the check succeeds unless the exception is a stack fault;
      in particular it succeeds for every program that halts. */
  method CheckAgainstIsa(image: Mem, instrLimit: int, ghost k: nat) returns (match_: bool)
    requires image.contents.Length <= MAX_LEN && image.contents.Length % 8 == 0
    requires var s0 := Start(image.contents[..]);
      Supported(s0, CycleOf(s0, k)) && IsaRuns(s0, k) && IsaStatus(s0, k) != AOK && instrLimit >= CycleOf(s0, k)
    modifies image.contents
    ensures match_ <==> old(!StackFault(IsaAt(Start(image.contents[..]), k)))
  {
    hide Step, After, Supported, CycleOf, Registers, Run, SimStep, IsaRuns, StackFault;
    ghost var bytes := image.contents[..];
    var sim := new Simulator(image);
    var isaMem := new Mem.Copy(sim.mem);
    var isaReg := new Mem.Copy(sim.reg);
    var isa := new Machine(isaReg, isaMem, sim.cc);
    assert isa.State() == Start(bytes);
    var icount, runStatus, resultCc := sim.SimRunPipe(instrLimit, 5 * instrLimit);
    CycleBounds(Start(bytes), k);
    RunStopsAtException(bytes, instrLimit, 5 * instrLimit, k);
    ExceptionIsPrecise(bytes, k);
    RunIsa(isa, instrLimit, k);
    ExceptionEffect(IsaAt(Start(bytes), k));
    RegistersDetermineBytes(isa.r.contents[..], sim.reg.contents[..]);
    var diffReg := DiffMem(isa.r, sim.reg);
    var diffMem := DiffMem(isa.m, sim.mem);
    match_ := !diffReg && !diffMem && isa.cc == resultCc;
  }
}
