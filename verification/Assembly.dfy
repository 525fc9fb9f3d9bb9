/** Assembler source: token lines, what they say, where they go, and the bytes they stand for. */
module Assembly {
  import opened Options
  import opened Words
  import opened Memory
  import opened Isa

  type Register = r: Nibble | r < REG_NONE

  type Condition = c: Nibble | c <= C_G

  type Operation = o: Nibble | o <= A_XOR

  type Width = n: int | n == 1 || n == 2 || n == 4 || n == 8 witness 1

  datatype Mnemonic =
    | Nop | Halt | Ret
    | Rrmovq(cond: Condition) | Opq(op: Operation)
    | Irmovq | Iaddq | Rmmovq | Mrmovq
    | Jmp(cond: Condition) | Call
    | Pushq | Popq
    | Data(width: Width)
    | PosDirective | AlignDirective

  datatype Token = Ident(s: string) | Num(n: Word) | Reg(r: Register) | Instr(m: Mnemonic) | Punct(c: char)

  type Tokens = seq<Token>

  /** The tokens of a line, and its text without the end of line. */
  datatype Line = Line(tokens: Tokens, text: string)

  // ----- the structure of a line -----

  predicate Starts(ts: Tokens, t: Token) { ts != [] && ts[0] == t }

  predicate StartsWithIdent(ts: Tokens) { ts != [] && ts[0].Ident? }

  predicate Labelled(ts: Tokens) {
    StartsWithIdent(ts) && Starts(ts[1..], Punct(':'))
  }

  /** The line without its label. */
  function Body(ts: Tokens): Tokens {
    if Labelled(ts) then ts[2..] else ts
  }

  /** The C int that a number token is cut down to. */
  function ToInt(n: Word): int { (n + 0x8000_0000) % 0x1_0000_0000 - 0x8000_0000 }

  /** It is the number of 32 bits that is congruent. */
  lemma CutToInt(n: Word)
    ensures -0x8000_0000 <= ToInt(n) < 0x8000_0000 && (n - ToInt(n)) % 0x1_0000_0000 == 0
  {}

  /** Division as C does it. */
  function DivC(x: int, a: int): int
    requires a > 0
  {
    if x >= 0 then x / a else -((-x) / a)
  }

  /** The quotient is cut off towards 0, whatever the sign of x. */
  lemma DivisionCutsOff(x: int, a: int)
    requires x >= 0 && a > 0
    ensures DivC(-x, a) == -DivC(x, a) && 0 <= x - Times(DivC(x, a), a) < a
  {
    Remains(x, a);
    assert DivC(x, a) == x / a;
    hide Times;
  }

  lemma Remains(y: nat, a: int)
    requires a > 0
    ensures 0 <= y - Times(y / a, a) < a
  {
    assert y - Times(y / a, a) == y % a;
  }

  predicate DirectiveOk(body: Tokens)
    requires body != [] && body[0].Instr?
  {
    && (body[0].m.PosDirective? ==> |body| > 1 && body[1].Num?)
    && (body[0].m.AlignDirective? ==> |body| > 1 && body[1].Num? && ToInt(body[1].n) > 0)
  }

  /** No error is found without looking at operands. */
  predicate WellFormed(ts: Tokens) {
    ts != [] ==>
      && (StartsWithIdent(ts) ==> Labelled(ts))
      && (Body(ts) != [] ==> Body(ts)[0].Instr? && DirectiveOk(Body(ts)))
  }

  function Size(m: Mnemonic): nat {
    match m
    case Nop => 1
    case Halt => 1
    case Ret => 1
    case Rrmovq(_) => 2
    case Opq(_) => 2
    case Pushq => 2
    case Popq => 2
    case Irmovq => 10
    case Iaddq => 10
    case Rmmovq => 10
    case Mrmovq => 10
    case Jmp(_) => 9
    case Call => 9
    case Data(n) => n
    case _ => 0
  }

  predicate Directive(m: Mnemonic) { m.PosDirective? || m.AlignDirective? }

  /** The position after a line that starts at pos. */
  function Next(ts: Tokens, pos: int): int {
    if !WellFormed(ts) || Body(ts) == [] then pos
    else
      var body := Body(ts);
      match body[0].m
      case PosDirective => ToInt(body[1].n)
      case AlignDirective => var a := ToInt(body[1].n); DivC(pos + a - 1, a) * a
      case m => pos + Size(m)
  }

  /** Where line i starts. */
  function StartOf(lines: seq<Line>, i: nat): int
    requires i <= |lines|
  {
    if i == 0 then 0 else Next(lines[i - 1].tokens, StartOf(lines, i - 1))
  }

  function Times(q: int, a: int): int { q * a }

  /** An alignment leads to the next multiple, staying where it is on one. */
  lemma AlignIsNextMultiple(ts: Tokens, pos: nat)
    requires WellFormed(ts) && Body(ts) != [] && Body(ts)[0].m.AlignDirective?
    ensures var a, next := ToInt(Body(ts)[1].n), Next(ts, pos);
      a > 0 && pos <= next < pos + a && exists q :: next == Times(q, a)
  {
    var a := ToInt(Body(ts)[1].n);
    assert Next(ts, pos) == Times((pos + a - 1) / a, a);
  }

  // ----- labels -----

  datatype Symbol = Symbol(name: string, pos: int)

  predicate Defines(line: Line, name: string) {
    Labelled(line.tokens) && line.tokens[0].s == name
  }

  /** The symbol table after the first i lines. */
  function SymbolsOf(lines: seq<Line>, i: nat): seq<Symbol>
    requires i <= |lines|
  {
    if i == 0 then []
    else
      SymbolsOf(lines, i - 1)
      + if Labelled(lines[i - 1].tokens) then [Symbol(lines[i - 1].tokens[0].s, StartOf(lines, i - 1))] else []
  }

  function Lookup(st: seq<Symbol>, name: string): Option<int> {
    if st == [] then None
    else if st[0].name == name then Some(st[0].pos)
    else Lookup(st[1..], name)
  }

  lemma {:induction false} LookupConcat(st: seq<Symbol>, more: seq<Symbol>, name: string)
    ensures Lookup(st + more, name) == if Lookup(st, name).Some? then Lookup(st, name) else Lookup(more, name)
  {
    if st == [] {
      assert st + more == more;
    } else {
      assert (st + more)[1..] == st[1..] + more;
      LookupConcat(st[1..], more, name);
    }
  }

  /** A label stands for the start of the first line that defines it. */
  lemma {:induction false} LabelIsStart(lines: seq<Line>, i: nat, name: string)
    requires i <= |lines|
    ensures Lookup(SymbolsOf(lines, i), name).None? ==> forall j :: 0 <= j < i ==> !Defines(lines[j], name)
    ensures Lookup(SymbolsOf(lines, i), name).Some? ==>
      exists j :: 0 <= j < i && Defines(lines[j], name) && Lookup(SymbolsOf(lines, i), name).value == StartOf(lines, j)
        && forall k :: 0 <= k < j ==> !Defines(lines[k], name)
  {
    if i > 0 {
      LabelIsStart(lines, i - 1, name);
      hide Next, WellFormed, StartOf, Lookup;
      var line, pos := lines[i - 1], StartOf(lines, i - 1);
      LookupConcat(SymbolsOf(lines, i - 1), if Labelled(line.tokens) then [Symbol(line.tokens[0].s, pos)] else [], name);
      LookupOne(line.tokens, pos, name);
    }
  }

  lemma LookupOne(ts: Tokens, pos: int, name: string)
    ensures Lookup(if Labelled(ts) then [Symbol(ts[0].s, pos)] else [], name)
         == if Labelled(ts) && ts[0].s == name then Some(pos) else None
  {
    if Labelled(ts) {
      assert [Symbol(ts[0].s, pos)][1..] == [];
    }
  }

  // ----- operands -----

  function ReadReg(ts: Tokens): Option<(Nibble, Tokens)> {
    if ts != [] && ts[0].Reg? then Some((ts[0].r, ts[1..])) else None
  }

  /** A number, or a label for its position. */
  function ReadNum(ts: Tokens, st: seq<Symbol>): Option<(Word, Tokens)> {
    if ts == [] then None
    else
      match ts[0]
      case Num(n) => Some((n, ts[1..]))
      case Ident(s) => var pos :- Lookup(st, s); Some((Wrap(pos), ts[1..]))
      case _ => None
  }

  function ReadComma(ts: Tokens): Option<Tokens> {
    if Starts(ts, Punct(',')) then Some(ts[1..]) else None
  }

  /** A number or label, or 0 if there is none. */
  function ReadDisplacement(ts: Tokens, st: seq<Symbol>): Option<(Word, Tokens)> {
    if ts != [] && (ts[0].Num? || ts[0].Ident?) then ReadNum(ts, st) else Some((0, ts))
  }

  /** A register in parentheses, or none. */
  function ReadBase(ts: Tokens): Option<(Nibble, Tokens)> {
    if !Starts(ts, Punct('(')) then Some((REG_NONE, ts))
    else
      var (r, rest) :- ReadReg(ts[1..]);
      if Starts(rest, Punct(')')) then Some((r, rest[1..])) else None
  }

  function ReadMem(ts: Tokens, st: seq<Symbol>): Option<(Word, Nibble, Tokens)> {
    var (val, rest) :- ReadDisplacement(ts, st);
    var (r, rest') :- ReadBase(rest);
    Some((val, r, rest'))
  }

  /** The fields of an instruction: registers that it has none of are REG_NONE, a missing constant is 0. */
  datatype Fields = Fields(ra: Nibble, rb: Nibble, val: Word)

  /** What the operands of an instruction say. */
  function Operands(m: Mnemonic, ts: Tokens, st: seq<Symbol>): Option<Fields> {
    match m
    case Rrmovq(_) =>
      var (a, t1) :- ReadReg(ts); var t2 :- ReadComma(t1); var (b, t3) :- ReadReg(t2); Some(Fields(a, b, 0))
    case Opq(_) =>
      var (a, t1) :- ReadReg(ts); var t2 :- ReadComma(t1); var (b, t3) :- ReadReg(t2); Some(Fields(a, b, 0))
    case Irmovq =>
      var (v, t1) :- ReadNum(ts, st); var t2 :- ReadComma(t1); var (b, t3) :- ReadReg(t2); Some(Fields(REG_NONE, b, v))
    case Iaddq =>
      var (v, t1) :- ReadNum(ts, st); var t2 :- ReadComma(t1); var (b, t3) :- ReadReg(t2); Some(Fields(REG_NONE, b, v))
    case Rmmovq =>
      var (a, t1) :- ReadReg(ts); var t2 :- ReadComma(t1); var (v, b, t3) :- ReadMem(t2, st); Some(Fields(a, b, v))
    case Mrmovq =>
      var (v, b, t1) :- ReadMem(ts, st); var t2 :- ReadComma(t1); var (a, t3) :- ReadReg(t2); Some(Fields(a, b, v))
    case Jmp(_) => var (v, t1) :- ReadNum(ts, st); Some(Fields(REG_NONE, REG_NONE, v))
    case Call => var (v, t1) :- ReadNum(ts, st); Some(Fields(REG_NONE, REG_NONE, v))
    case Pushq => var (a, t1) :- ReadReg(ts); Some(Fields(a, REG_NONE, 0))
    case Popq => var (a, t1) :- ReadReg(ts); Some(Fields(a, REG_NONE, 0))
    case Data(_) => var (v, t1) :- ReadNum(ts, st); Some(Fields(REG_NONE, REG_NONE, v))
    case _ => Some(Fields(REG_NONE, REG_NONE, 0))
  }

  // ----- how operands are written -----

  /** The token is that number, or a label at that position. */
  predicate Stands(t: Token, st: seq<Symbol>, v: Word) {
    t == Num(v) || (t.Ident? && Lookup(st, t.s).Some? && Wrap(Lookup(st, t.s).value) == v)
  }

  predicate Names(t: Token, r: Nibble) { t.Reg? && t.r == r }

  /** The first n tokens are a memory operand: D, (R) or D(R), or nothing at all for address 0. */
  predicate Addresses(ts: Tokens, st: seq<Symbol>, v: Word, r: Nibble, n: nat) {
    var d := if ts != [] && (ts[0].Num? || ts[0].Ident?) then 1 else 0;
    && n <= |ts|
    && (if d == 1 then Stands(ts[0], st, v) else v == 0)
    && (if |ts| > d && ts[d] == Punct('(') then n == d + 3 && Names(ts[d + 1], r) && ts[d + 2] == Punct(')')
        else n == d && r == REG_NONE)
  }

  /** The tokens begin with the operands f, in the order and with the punctuation of the mnemonic. */
  ghost predicate Written(m: Mnemonic, f: Fields, ts: Tokens, st: seq<Symbol>) {
    match m
    case Rrmovq(_) => |ts| > 2 && Names(ts[0], f.ra) && ts[1] == Punct(',') && Names(ts[2], f.rb) && f.val == 0
    case Opq(_) => |ts| > 2 && Names(ts[0], f.ra) && ts[1] == Punct(',') && Names(ts[2], f.rb) && f.val == 0
    case Irmovq => |ts| > 2 && Stands(ts[0], st, f.val) && ts[1] == Punct(',') && Names(ts[2], f.rb) && f.ra == 15
    case Iaddq => |ts| > 2 && Stands(ts[0], st, f.val) && ts[1] == Punct(',') && Names(ts[2], f.rb) && f.ra == 15
    case Rmmovq =>
      |ts| > 1 && Names(ts[0], f.ra) && ts[1] == Punct(',') && exists n: nat :: Addresses(ts[2..], st, f.val, f.rb, n)
    case Mrmovq =>
      exists n: nat :: Addresses(ts, st, f.val, f.rb, n) && |ts| > n + 1 && ts[n] == Punct(',') && Names(ts[n + 1], f.ra)
    case Jmp(_) => ts != [] && Stands(ts[0], st, f.val) && f.ra == f.rb == 15
    case Call => ts != [] && Stands(ts[0], st, f.val) && f.ra == f.rb == 15
    case Data(_) => ts != [] && Stands(ts[0], st, f.val) && f.ra == f.rb == 15
    case Pushq => ts != [] && Names(ts[0], f.ra) && f.rb == 15 && f.val == 0
    case Popq => ts != [] && Names(ts[0], f.ra) && f.rb == 15 && f.val == 0
    case _ => f == Fields(15, 15, 0)
  }

  lemma AddressIsRead(ts: Tokens, st: seq<Symbol>, v: Word, r: Nibble)
    ensures (exists n: nat :: Addresses(ts, st, v, r, n))
       <==> ReadMem(ts, st).Some? && ReadMem(ts, st).value.0 == v && ReadMem(ts, st).value.1 == r
    ensures forall n: nat :: Addresses(ts, st, v, r, n) ==> ReadMem(ts, st).Some? && ReadMem(ts, st).value.2 == ts[n..]
  {
    var d := if ts != [] && (ts[0].Num? || ts[0].Ident?) then 1 else 0;
    if ReadMem(ts, st).Some? && ReadMem(ts, st).value.0 == v && ReadMem(ts, st).value.1 == r {
      assert Addresses(ts, st, v, r, if |ts| > d && ts[d] == Punct('(') then d + 3 else d);
    }
    assert |ts| <= d || ts[d..][1..] == ts[d + 1..];
  }

  lemma StoresAsWritten(ts: Tokens, st: seq<Symbol>, f: Fields)
    ensures Operands(Rmmovq, ts, st) == Some(f) <==> Written(Rmmovq, f, ts, st)
  {
    hide Wrap, Lookup, ReadMem, Addresses;
    if |ts| > 1 {
      assert ts[1..][1..] == ts[2..];
      AddressIsRead(ts[2..], st, f.val, f.rb);
    }
  }

  lemma LoadsAsWritten(ts: Tokens, st: seq<Symbol>, f: Fields)
    ensures Operands(Mrmovq, ts, st) == Some(f) <==> Written(Mrmovq, f, ts, st)
  {
    hide Wrap, Lookup, ReadMem, Addresses;
    AddressIsRead(ts, st, f.val, f.rb);
    AddressEnds(ts, st, f.val, f.rb);
  }

  lemma AddressEnds(ts: Tokens, st: seq<Symbol>, v: Word, r: Nibble)
    ensures forall n: nat :: Addresses(ts, st, v, r, n) ==> n <= |ts|
  {}

  /** The operands are read exactly if they are written so. */
  lemma OperandsAsWritten(m: Mnemonic, ts: Tokens, st: seq<Symbol>, f: Fields)
    ensures Operands(m, ts, st) == Some(f) <==> Written(m, f, ts, st)
  {
    hide Wrap, Lookup, ReadMem, Addresses;
    if m.Rmmovq? {
      StoresAsWritten(ts, st, f);
    } else if m.Mrmovq? {
      LoadsAsWritten(ts, st, f);
    }
  }

  // ----- the instruction format -----

  function Icode(m: Mnemonic): Nibble {
    match m
    case Halt => I_HALT
    case Nop => I_NOP
    case Rrmovq(_) => I_RRMOVQ
    case Irmovq => I_IRMOVQ
    case Rmmovq => I_RMMOVQ
    case Mrmovq => I_MRMOVQ
    case Opq(_) => I_ALU
    case Jmp(_) => I_JMP
    case Call => I_CALL
    case Ret => I_RET
    case Pushq => I_PUSHQ
    case Popq => I_POPQ
    case Iaddq => I_IADDQ
    case _ => 0
  }

  function Ifun(m: Mnemonic): Nibble {
    match m
    case Rrmovq(c) => c
    case Jmp(c) => c
    case Opq(o) => o
    case _ => 0
  }

  function Pair(hi: Nibble, lo: Nibble): Byte { 16 * hi + lo }

  /** The bytes of an instruction: its code and function, the register byte and the constant where the
      instruction has them. */
  function Encoding(m: Mnemonic, f: Fields): (bytes: seq<Byte>)
    ensures |bytes| == Size(m)
  {
    if m.Data? then Encode(f.val, m.width)
    else if Directive(m) then []
    else
      [Pair(Icode(m), Ifun(m))]
      + (if NeedRegids(Icode(m)) then [Pair(f.ra, f.rb)] else [])
      + (if NeedImm(Icode(m)) then Encode(f.val, 8) else [])
  }

  /** A line leads on by the bytes of its instruction, and .pos to the number behind it; a line without
      either, or with a malformed one, stays where it is. */
  lemma NextLine(ts: Tokens, pos: int, m: Mnemonic, f: Fields, rest: Tokens)
    requires Body(ts) == [Instr(m)] + rest && (StartsWithIdent(ts) ==> Labelled(ts))
    ensures !Directive(m) ==> Next(ts, pos) == pos + |Encoding(m, f)|
    ensures m.PosDirective? && rest != [] && rest[0].Num? && -0x8000_0000 <= rest[0].n < 0x8000_0000 ==>
      Next(ts, pos) == rest[0].n
    ensures m.PosDirective? && (rest == [] || !rest[0].Num?) ==> Next(ts, pos) == pos
    ensures Body([]) == [] && Next([], pos) == pos
  {
    hide Encoding;
    assert rest != [] ==> Body(ts)[1] == rest[0];
  }

  lemma EncodingParts(m: Mnemonic, f: Fields)
    requires !m.Data? && !Directive(m)
    ensures var bytes, n, regs, imm := Encoding(m, f), Size(m), NeedRegids(Icode(m)), NeedImm(Icode(m));
      && n == 1 + (if regs then 1 else 0) + (if imm then 8 else 0) && bytes[0] == Pair(Icode(m), Ifun(m))
      && (regs ==> bytes[1] == Pair(f.ra, f.rb)) && (imm ==> bytes[n - 8..] == Encode(f.val, 8))
  {
    hide Encode;
  }

  /** The first byte of every instruction; conditions and operations are its low half. */
  function Opcode(m: Mnemonic): int
    requires !m.Data? && !Directive(m)
  {
    match m
    case Halt => 0x00
    case Nop => 0x10
    case Rrmovq(c) => 0x20 + c
    case Irmovq => 0x30
    case Rmmovq => 0x40
    case Mrmovq => 0x50
    case Opq(o) => 0x60 + o
    case Jmp(c) => 0x70 + c
    case Call => 0x80
    case Ret => 0x90
    case Pushq => 0xA0
    case Popq => 0xB0
    case Iaddq => 0xC0
  }

  /** Byte by byte: the opcode; then rA and rB for the instructions with registers; then the eight bytes of
      the constant, lowest first. */
  lemma EncodingBytes(m: Mnemonic, f: Fields, k: nat)
    requires !m.Data? && !Directive(m) && k < 8
    ensures var bytes, n := Encoding(m, f), Size(m);
      && bytes[0] == Opcode(m)
      && (n == 2 || n == 10 ==> bytes[1] == 16 * f.ra + f.rb)
      && (n >= 9 ==> bytes[n - 8 + k] == f.val / Pow256(k) % 256)
  {
    hide Encode, Pow256;
    EncodingParts(m, f);
    LowestFirst(f.val, 8, k);
    if NeedImm(Icode(m)) {
      assert Encoding(m, f)[Size(m) - 8..][k] == Encode(f.val, 8)[k];
    }
  }

  lemma PairHalves(hi: Nibble, lo: Nibble)
    ensures HI4(Pair(hi, lo)) == hi && LO4(Pair(hi, lo)) == lo
  {}

  /** The instruction-set model decodes an assembled instruction to the fields it was assembled from. */
  lemma DecodesAsAssembled(m: seq<Byte>, pc: Word, i: Mnemonic, f: Fields)
    requires !i.Data? && !Directive(i)
    requires 0 <= pc && pc + Size(i) <= |m| < TWO63 && m[pc..pc + Size(i)] == Encoding(i, f)
    requires !NeedImm(Icode(i)) ==> f.val == 0
    requires !NeedRegids(Icode(i)) ==> f.ra == f.rb == REG_NONE
    ensures Decoding(m, pc) == Decoded(Icode(i), Ifun(i), f.ra, f.rb, true, f.val, true, pc + Size(i))
  {
    hide Encode, WordOf, Encoding, Size, Icode, Ifun, NeedRegids, NeedImm, Pair, HI4, LO4, Wrap;
    EncodingParts(i, f);
    PairHalves(Icode(i), Ifun(i));
    PairHalves(f.ra, f.rb);
    var bytes := m[pc..pc + Size(i)];
    assert m[pc] == bytes[0];
    if NeedRegids(Icode(i)) {
      assert m[pc + 1] == bytes[1];
    }
    if NeedImm(Icode(i)) {
      assert m[pc + Size(i) - 8..pc + Size(i)] == bytes[Size(i) - 8..];
      WordRoundTrip(f.val);
    }
  }

  /** Fields an instruction does not have are read as none. */
  lemma OperandsFit(i: Mnemonic, ts: Tokens, st: seq<Symbol>)
    requires Operands(i, ts, st).Some? && !i.Data? && !Directive(i)
    ensures var f := Operands(i, ts, st).value;
      && (!NeedImm(Icode(i)) ==> f.val == 0)
      && (!NeedRegids(Icode(i)) ==> f.ra == f.rb == REG_NONE)
  {}
}
