/** What assembled instructions do, by what their names mean and not by their codes. */
module Effects {
  import opened Options
  import opened Words
  import opened Memory
  import opened Isa
  import opened Assembly

  predicate IsWord(x: int) { -TWO63 <= x < TWO63 }

  /** v is the result of operation o on a and b: their sum, b less a, or the bits of both combined. */
  ghost predicate Result(o: Operation, a: Word, b: Word, v: Word) {
    if o == 0 then (v - (a + b)) % TWO64 == 0
    else if o == 1 then (v - (b - a)) % TWO64 == 0
    else if o == 2 then forall k: nat :: k <= 63 ==> (Bit(v, k) <==> Bit(a, k) && Bit(b, k))
    else forall k: nat :: k <= 63 ==> (Bit(v, k) <==> Bit(a, k) != Bit(b, k))
  }

  /** The flags tell about the result v, and whether the exact sum or difference is not a word. */
  predicate Flags(cc: Cc, o: Operation, a: Word, b: Word, v: Word) {
    && (cc.zf <==> v == 0) && (cc.sf <==> v < 0)
    && (cc.of <==> if o == 0 then !IsWord(a + b) else if o == 1 then !IsWord(b - a) else false)
  }

  /** Code 15 names no register. */
  function Value(s: IsaState, r: Nibble): Word {
    if r < 15 then s.r[r] else 0
  }

  function With(s: IsaState, r: Nibble, v: Word): RegFile {
    if r < 15 then s.r[r := v] else s.r
  }

  /** An arithmetic instruction of the given length leaves b changed by a in register rb. */
  ghost predicate Computes(o: Operation, a: Word, b: Word, rb: Nibble, length: nat, s: IsaState, s': IsaState)
    requires IsWord(s.pc + length)
  {
    exists v: Word ::
      Result(o, a, b, v) && Flags(s'.cc, o, a, b, v) && s' == s.(pc := s.pc + length, r := With(s, rb, v), cc := s'.cc)
  }

  /** Instruction i with operands f takes the state s to s' with the given status. Register 4 is the stack
      pointer. */
  ghost predicate Performs(i: Mnemonic, f: Fields, s: IsaState, s': IsaState, stat: Stat)
    requires IsWord(s.pc + 10)
  {
    var a, b, sp := Value(s, f.ra), Value(s, f.rb), s.r[4];
    match i
    case Nop => stat == AOK && s' == s.(pc := s.pc + 1)
    case Halt => stat == HLT && s' == s
    case Rrmovq(c) =>
      if f.ra == 15 || f.rb == 15 then stat == INS && s' == s
      else stat == AOK && s' == s.(pc := s.pc + 2, r := if CondHolds(s.cc, c) then With(s, f.rb, a) else s.r)
    case Opq(o) => stat == AOK && Computes(o, a, b, f.rb, 2, s, s')
    case Irmovq =>
      if f.rb == 15 then stat == INS && s' == s
      else stat == AOK && s' == s.(pc := s.pc + 10, r := With(s, f.rb, f.val))
    case Iaddq =>
      if f.rb == 15 then stat == INS && s' == s else stat == AOK && Computes(0, f.val, b, f.rb, 10, s, s')
    case Rmmovq =>
      if f.ra == 15 then stat == INS && s' == s
      else if !WordOk(s.m, WordAdd(f.val, b)) then stat == ADR && s' == s
      else stat == AOK && s' == s.(pc := s.pc + 10, m := StoreWord(s.m, WordAdd(f.val, b), a))
    case Mrmovq =>
      if f.ra == 15 then stat == INS && s' == s
      else if !WordOk(s.m, WordAdd(f.val, b)) then stat == ADR && s' == s
      else stat == AOK && s' == s.(pc := s.pc + 10, r := With(s, f.ra, WordAt(s.m, WordAdd(f.val, b))))
    case Jmp(c) => stat == AOK && s' == s.(pc := if CondHolds(s.cc, c) then f.val else s.pc + 9)
    case Call => Pushes(s.pc + 9, f.val, s, s', stat)
    case Ret =>
      if !WordOk(s.m, sp) then stat == ADR && s' == s
      else stat == AOK && s' == s.(pc := WordAt(s.m, sp), r := With(s, 4, WordAdd(sp, 8)))
    case Pushq => if f.ra == 15 then stat == INS && s' == s else Pushes(a, s.pc + 2, s, s', stat)
    case Popq =>
      var up := s.(r := With(s, 4, WordAdd(sp, 8)));
      if f.ra == 15 then stat == INS && s' == s
      else if !WordOk(s.m, sp) then stat == ADR && s' == up
      else stat == AOK && s' == up.(pc := s.pc + 2, r := With(up, f.ra, WordAt(s.m, sp)))
    case _ => false
  }

  /** The stack pointer goes down by 8, the word v is stored there, and execution goes on at pc. */
  predicate Pushes(v: Word, pc: Word, s: IsaState, s': IsaState, stat: Stat) {
    var sp := WordAdd(s.r[4], -8);
    var down := s.(r := With(s, 4, sp));
    if !WordOk(s.m, sp) then stat == ADR && s' == down
    else stat == AOK && s' == down.(pc := pc, m := StoreWord(s.m, sp, v))
  }

  /** What the decoder finds where an instruction has been assembled. */
  predicate Finds(s: IsaState, i: Mnemonic, f: Fields) {
    && ByteOk(s.m, s.pc) && |s.m| < TWO63 - 10 && !i.Data? && !Directive(i)
    && Decoding(s.m, s.pc) == Decoded(Icode(i), Ifun(i), f.ra, f.rb, true, f.val, true, Wrap(s.pc + Size(i)))
  }

  lemma OverflowIsExact(o: Operation, a: Word, b: Word)
    ensures Result(o, a, b, ComputeAlu(o, a, b)) && Flags(ComputeCc(o, a, b), o, a, b, ComputeAlu(o, a, b))
  {
    OperationsByCode(a, b);
    WrapCases(a + b);
    WrapCases(b - a);
    hide And64, Xor64, Bit;
  }

  /** Every instruction performs what its name says. */
  lemma PerformsByName(s: IsaState, i: Mnemonic, f: Fields)
    requires Finds(s, i, f)
    ensures Performs(i, f, s, Step(s).0, Step(s).1)
  {
    hide Decoding, ComputeAlu, ComputeCc, CondHolds, WordAt, StoreWord, Result, Flags;
    var a, b := Value(s, f.ra), Value(s, f.rb);
    if i.Opq? {
      OverflowIsExact(i.op, a, b);
      assert Result(i.op, a, b, ComputeAlu(i.op, a, b));
    } else if i.Iaddq? {
      OverflowIsExact(0, f.val, b);
      IaddIsAdd(f.val, b);
      assert Result(0, f.val, b, ComputeAlu(0, f.val, b));
    }
  }

  lemma IaddIsAdd(a: Word, b: Word)
    ensures ComputeAlu(A_ADD, a, b) == Wrap(b + a)
  {}

  /** Where memory holds the bytes that an instruction is assembled to. */
  lemma AssembledPerforms(s: IsaState, i: Mnemonic, f: Fields)
    requires !i.Data? && !Directive(i)
    requires 0 <= s.pc && s.pc + Size(i) <= |s.m| < TWO63 - 10 && s.m[s.pc..s.pc + Size(i)] == Encoding(i, f)
    requires HasOnly(i, f)
    ensures Performs(i, f, s, Step(s).0, Step(s).1)
  {
    hide Decoding, Encoding, Performs, Step;
    DecodesAsAssembled(s.m, s.pc, i, f);
    PerformsByName(s, i, f);
  }

  /** Fields that instruction i has no place for are none. */
  predicate HasOnly(i: Mnemonic, f: Fields) {
    && (i.Nop? || i.Halt? || i.Ret? || i.Jmp? || i.Call? ==> f.ra == f.rb == 15)
    && (i.Nop? || i.Halt? || i.Ret? || i.Rrmovq? || i.Opq? || i.Pushq? || i.Popq? ==> f.val == 0)
  }

  // ----- comparing and jumping -----

  /** The comparison of x with y that condition c is named for: le, l, e, ne, ge and g are 1 to 6. */
  predicate Compares(c: Condition, x: int, y: int) {
    if c == 0 then true
    else if c == 1 then x <= y
    else if c == 2 then x < y
    else if c == 3 then x == y
    else if c == 4 then x != y
    else if c == 5 then x >= y
    else x > y
  }

  lemma ConditionOf(o: Operation, a: Word, b: Word, v: Word, cc: Cc, c: Condition)
    requires o > 0 && Result(o, a, b, v) && Flags(cc, o, a, b, v)
    ensures CondHolds(cc, c) <==> if o == 1 then Compares(c, b, a) else Compares(c, v, 0)
  {
    hide Bit;
    if o == 1 {
      WrapUnique(b - a, v);
      WrapCases(b - a);
    }
  }

  /** A conditional jump behind subq compares register rb with register ra, as signed words, and behind andq
      or xorq it compares the result with 0. */
  lemma CompareAndJump(s: IsaState, o: Operation, ra: Nibble, rb: Nibble, c: Condition, target: Word)
    returns (v: Word)
    requires |s.m| < TWO63 - 20 && o > 0 && 0 <= s.pc && s.pc + 11 <= |s.m|
    requires s.m[s.pc..s.pc + 2] == Encoding(Opq(o), Fields(ra, rb, 0))
    requires s.m[s.pc + 2..s.pc + 11] == Encoding(Jmp(c), Fields(15, 15, target))
    ensures var s1 := Step(s).0; var s2 := Step(s1).0;
      && Step(s).1 == AOK && Step(s1).1 == AOK && Result(o, Value(s, ra), Value(s, rb), v) && s1.r == With(s, rb, v)
      && var taken := if o == 1 then Compares(c, Value(s, rb), Value(s, ra)) else Compares(c, v, 0);
         s2 == s1.(pc := if taken then target else s.pc + 11)
  {
    var a, b := Value(s, ra), Value(s, rb);
    var s1 := Step(s).0;
    hide Encoding, ComputeAlu, ComputeCc, CondHolds, Step, Flags, Result, Compares;
    AssembledPerforms(s, Opq(o), Fields(ra, rb, 0));
    v :| Result(o, a, b, v) && Flags(s1.cc, o, a, b, v) && s1 == s.(pc := s.pc + 2, r := With(s, rb, v), cc := s1.cc);
    AssembledPerforms(s1, Jmp(c), Fields(15, 15, target));
    ConditionOf(o, a, b, v, s1.cc, c);
  }
}
