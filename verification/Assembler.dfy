/** The two-pass assembler: lines are processed with a table of operand kinds and places, and their bytes
    are put together in a code buffer. */
module Assembler {
  import opened Options
  import opened Words
  import opened Memory
  import opened Isa
  import opened Assembly
  import opened Listing

  // ----- the instruction table -----

  datatype Kind = R_ARG | M_ARG | I_ARG | NO_ARG

  /** An operand: what it is, the byte of the code it goes to, and for a register whether it goes to the
      high half (1) or the low half (0), for a number how many bytes it takes. */
  datatype Arg = Arg(kind: Kind, pos: nat, hi: nat)

  const NONE := Arg(NO_ARG, 0, 0)

  datatype Entry = Entry(code: Byte, bytes: nat, arg1: Arg, arg2: Arg)

  function Table(m: Mnemonic): Entry {
    match m
    case Nop => Entry(Pair(I_NOP, 0), 1, NONE, NONE)
    case Halt => Entry(Pair(I_HALT, 0), 1, NONE, NONE)
    case Rrmovq(c) => Entry(Pair(I_RRMOVQ, c), 2, Arg(R_ARG, 1, 1), Arg(R_ARG, 1, 0))
    case Irmovq => Entry(Pair(I_IRMOVQ, 0), 10, Arg(I_ARG, 2, 8), Arg(R_ARG, 1, 0))
    case Rmmovq => Entry(Pair(I_RMMOVQ, 0), 10, Arg(R_ARG, 1, 1), Arg(M_ARG, 1, 0))
    case Mrmovq => Entry(Pair(I_MRMOVQ, 0), 10, Arg(M_ARG, 1, 0), Arg(R_ARG, 1, 1))
    case Opq(o) => Entry(Pair(I_ALU, o), 2, Arg(R_ARG, 1, 1), Arg(R_ARG, 1, 0))
    case Jmp(c) => Entry(Pair(I_JMP, c), 9, Arg(I_ARG, 1, 8), NONE)
    case Call => Entry(Pair(I_CALL, 0), 9, Arg(I_ARG, 1, 8), NONE)
    case Ret => Entry(Pair(I_RET, 0), 1, NONE, NONE)
    case Pushq => Entry(Pair(I_PUSHQ, 0), 2, Arg(R_ARG, 1, 1), NONE)
    case Popq => Entry(Pair(I_POPQ, 0), 2, Arg(R_ARG, 1, 1), NONE)
    case Iaddq => Entry(Pair(I_IADDQ, 0), 10, Arg(I_ARG, 2, 8), Arg(R_ARG, 1, 0))
    case Data(n) => Entry(0, n, Arg(I_ARG, 0, n), NONE)
    case _ => Entry(0, 0, NONE, NONE)
  }

  type Code = c: seq<Byte> | |c| == 10 witness seq(10, _ => 0)

  predicate Fits(a: Arg) {
    match a.kind
    case R_ARG => a.pos < 10
    case I_ARG => a.pos + a.hi <= 10
    case M_ARG => a.pos + 9 <= 10
    case NO_ARG => true
  }

  function WithReg(c: Code, pos: nat, hi: bool, r: Nibble): Code
    requires pos < 10
  {
    c[pos := if hi then Pair(r, LO4(c[pos])) else Pair(HI4(c[pos]), r)]
  }

  function WithNum(c: Code, pos: nat, n: nat, v: Word): Code
    requires pos + n <= 10
  {
    c[..pos] + Encode(v, n) + c[pos + n..]
  }

  /** Reads an operand and puts it into the code. */
  function Put(a: Arg, ts: Tokens, st: seq<Symbol>, c: Code): Option<(Code, Tokens)>
    requires Fits(a)
  {
    match a.kind
    case R_ARG => var (r, rest) :- ReadReg(ts); Some((WithReg(c, a.pos, a.hi == 1, r), rest))
    case I_ARG => var (v, rest) :- ReadNum(ts, st); Some((WithNum(c, a.pos, a.hi, v), rest))
    case M_ARG => var (v, r, rest) :- ReadMem(ts, st); Some((WithNum(WithReg(c, a.pos, false, r), a.pos + 1, 8, v), rest))
    case NO_ARG => Some((c, ts))
  }

  function PutBoth(e: Entry, ts: Tokens, st: seq<Symbol>, c: Code): Option<Code>
    requires Fits(e.arg1) && Fits(e.arg2)
  {
    var (c1, rest) :- Put(e.arg1, ts, st, c);
    if e.arg2.kind.NO_ARG? then Some(c1)
    else
      var rest' :- ReadComma(rest);
      var (c2, rest'') :- Put(e.arg2, rest', st, c1);
      Some(c2)
  }

  /** The two halves of the register byte do not disturb each other. */
  lemma RegisterHalves(c: Code, a: Nibble, b: Nibble)
    ensures WithReg(WithReg(c, 1, true, a), 1, false, b) == c[1 := Pair(a, b)]
    ensures WithReg(WithReg(c, 1, false, b), 1, true, a) == c[1 := Pair(a, b)]
    ensures c[1] == Pair(REG_NONE, REG_NONE) ==> WithReg(c, 1, true, a) == c[1 := Pair(a, REG_NONE)]
    ensures c[1] == Pair(REG_NONE, REG_NONE) ==> WithReg(c, 1, false, b) == c[1 := Pair(REG_NONE, b)]
  {
    hide Pair, HI4, LO4;
    PairHalves(a, LO4(c[1]));
    PairHalves(HI4(c[1]), b);
    PairHalves(REG_NONE, REG_NONE);
  }

  lemma NumberBytes(c: Code, pos: nat, n: nat, v: Word)
    requires pos + n <= 10
    ensures var c' := WithNum(c, pos, n, v);
      c'[..pos + n] == c[..pos] + Encode(v, n) && forall i :: 0 <= i < pos ==> c'[i] == c[i]
  {
    hide Encode;
  }

  /** A register and a number go to different bytes. */
  lemma RegisterAndNumber(c: Code, r: Nibble, hi: bool, v: Word)
    ensures WithReg(WithNum(c, 2, 8, v), 1, hi, r) == WithNum(WithReg(c, 1, hi, r), 2, 8, v)
  {
    hide Encode;
  }

  predicate TakesRegisters(m: Mnemonic) { m.Rrmovq? || m.Opq? || m.Pushq? || m.Popq? }

  /** What the table makes of a mnemonic and the format says it is. */
  ghost predicate TableRight(m: Mnemonic, ts: Tokens, st: seq<Symbol>, c: Code) {
    var e := Table(m);
    && Fits(e.arg1) && Fits(e.arg2) && e.bytes == Size(m) <= 10
    && (PutBoth(e, ts, st, c).Some? <==> Operands(m, ts, st).Some?)
    && (PutBoth(e, ts, st, c).Some? ==> PutBoth(e, ts, st, c).value[..e.bytes] == Encoding(m, Operands(m, ts, st).value))
  }

  lemma RegistersRight(m: Mnemonic, ts: Tokens, st: seq<Symbol>, c: Code)
    requires TakesRegisters(m) && c[0] == Table(m).code && c[1] == Pair(REG_NONE, REG_NONE)
    ensures TableRight(m, ts, st, c)
  {
    hide Encode, WithNum, WithReg, ReadNum, ReadMem;
    if Operands(m, ts, st).Some? {
      var f := Operands(m, ts, st).value;
      RegisterHalves(c, f.ra, f.rb);
    }
  }

  lemma NumbersRight(m: Mnemonic, ts: Tokens, st: seq<Symbol>, c: Code)
    requires m.Jmp? || m.Call? || m.Nop? || m.Halt? || m.Ret?
    requires c[0] == Table(m).code && c[1] == Pair(REG_NONE, REG_NONE)
    ensures TableRight(m, ts, st, c)
  {
    hide Encode, WithNum, WithReg, ReadNum, ReadMem, Pair;
    if Operands(m, ts, st).Some? {
      NumberBytes(c, 1, 8, Operands(m, ts, st).value.val);
    }
  }

  lemma DataRight(m: Mnemonic, ts: Tokens, st: seq<Symbol>, c: Code)
    requires m.Data?
    ensures TableRight(m, ts, st, c)
  {
    hide Encode, WithNum, WithReg, ReadNum, ReadMem;
    if Operands(m, ts, st).Some? {
      NumberBytes(c, 0, m.width, Operands(m, ts, st).value.val);
    }
  }

  lemma ImmediatesRight(m: Mnemonic, ts: Tokens, st: seq<Symbol>, c: Code)
    requires m.Irmovq? || m.Iaddq?
    requires c[0] == Table(m).code && c[1] == Pair(REG_NONE, REG_NONE)
    ensures TableRight(m, ts, st, c)
  {
    hide Encode, WithNum, WithReg, ReadNum, ReadMem;
    if Operands(m, ts, st).Some? {
      var f := Operands(m, ts, st).value;
      RegisterAndNumber(c, f.rb, false, f.val);
      RegisterHalves(c, REG_NONE, f.rb);
      NumberBytes(c[1 := Pair(REG_NONE, f.rb)], 2, 8, f.val);
    }
  }

  lemma MovesRight(m: Mnemonic, ts: Tokens, st: seq<Symbol>, c: Code)
    requires m.Rmmovq? || m.Mrmovq?
    requires c[0] == Table(m).code && c[1] == Pair(REG_NONE, REG_NONE)
    ensures TableRight(m, ts, st, c)
  {
    hide Encode, WithNum, WithReg, ReadNum, ReadMem;
    if Operands(m, ts, st).Some? {
      var f := Operands(m, ts, st).value;
      RegisterAndNumber(WithReg(c, 1, false, f.rb), f.ra, true, f.val);
      RegisterHalves(c, f.ra, f.rb);
      NumberBytes(c[1 := Pair(f.ra, f.rb)], 2, 8, f.val);
    }
  }

  /** The table puts every operand where the instruction format has it. */
  lemma TableIsFormat(m: Mnemonic, ts: Tokens, st: seq<Symbol>, c: Code)
    requires !Directive(m) && c[0] == Table(m).code && c[1] == Pair(REG_NONE, REG_NONE)
    ensures TableRight(m, ts, st, c)
  {
    hide TableRight;
    if TakesRegisters(m) {
      RegistersRight(m, ts, st, c);
    } else if m.Irmovq? || m.Iaddq? {
      ImmediatesRight(m, ts, st, c);
    } else if m.Rmmovq? || m.Mrmovq? {
      MovesRight(m, ts, st, c);
    } else if m.Data? {
      DataRight(m, ts, st, c);
    } else {
      NumbersRight(m, ts, st, c);
    }
  }

  lemma TableSizes(m: Mnemonic)
    requires !Directive(m)
    ensures Table(m).bytes == Size(m) <= 10 && Fits(Table(m).arg1) && Fits(Table(m).arg2)
  {}

  lemma EncodeStep(v: int, n: nat)
    requires n > 0
    ensures Encode(v, n) == [v % 256] + Encode(v / 256, n - 1)
  {}

  lemma EncodeEnd(v: int)
    ensures Encode(v, 0) == []
  {}

  lemma CommaIsRead(ts: Tokens)
    ensures ReadComma(ts) == if ts != [] && ts[0] == Punct(',') then Some(ts[1..]) else None
  {}

  // ----- a line in each pass -----

  predicate IsInstruction(ts: Tokens) {
    WellFormed(ts) && Body(ts) != [] && !Directive(Body(ts)[0].m)
  }

  /** The operands of the line's instruction can be read. */
  predicate OperandsOk(ts: Tokens, st: seq<Symbol>) {
    IsInstruction(ts) ==> Operands(Body(ts)[0].m, Body(ts)[1..], st).Some?
  }

  /** The bytes of the line, none for a directive or a line without an instruction. */
  function CodeOf(ts: Tokens, st: seq<Symbol>): (bytes: seq<Byte>)
    requires OperandsOk(ts, st)
    ensures |bytes| <= 10
  {
    if IsInstruction(ts) then Encoding(Body(ts)[0].m, Operands(Body(ts)[0].m, Body(ts)[1..], st).value) else []
  }

  /** The address printed for a line: a directive shows the position it leads to. */
  function Shown(ts: Tokens, pos: int): int {
    if WellFormed(ts) && Body(ts) != [] && Directive(Body(ts)[0].m) then Next(ts, pos) else pos
  }

  const LAST_ADDRESS := 0xFFFF

  /** Addresses up to the last are those of four hexadecimal digits. */
  lemma FourDigits(pos: int)
    ensures pos <= LAST_ADDRESS <==> pos < Pow16(4)
  {
    assert Pow16(1) == 16 && Pow16(2) == 256 && Pow16(3) == 4096;
  }

  /** What the second pass reports no error for. */
  predicate Good(ts: Tokens, pos: int, st: seq<Symbol>) {
    WellFormed(ts) && OperandsOk(ts, st) && (ts != [] ==> Shown(ts, pos) <= LAST_ADDRESS)
  }

  function ListingLine(line: Line, pos: int, st: seq<Symbol>): string
    requires Good(line.tokens, pos, st)
  {
    Text(Shown(line.tokens, pos), line.tokens == [], CodeOf(line.tokens, st), line.text)
  }

  function NewSymbol(ts: Tokens, pos: int): seq<Symbol> {
    if Labelled(ts) then [Symbol(ts[0].s, pos)] else []
  }

  /** A line with a directive. */
  lemma DirectiveParts(ts: Tokens, m: Mnemonic, rest: Tokens, pos: int, st: seq<Symbol>)
    requires Directive(m) && Body(ts) == [Instr(m)] + rest && (StartsWithIdent(ts) ==> Labelled(ts))
    ensures ts != [] && !IsInstruction(ts)
    ensures var n := if rest != [] && rest[0].Num? then ToInt(rest[0].n) else 0;
      && (WellFormed(ts) <==> rest != [] && rest[0].Num? && (m.AlignDirective? ==> n > 0))
      && Next(ts, pos) == (if !WellFormed(ts) then pos else if m.PosDirective? then n else DivC(pos + n - 1, n) * n)
      && (WellFormed(ts) ==> Shown(ts, pos) == Next(ts, pos))
  {
    hide ToInt, DivC;
    assert Body(ts)[1..] == rest;
  }

  /** No line gives rise to an error in either pass. */
  predicate Assembles(lines: seq<Line>) {
    forall i :: 0 <= i < |lines| ==> Good(lines[i].tokens, StartOf(lines, i), SymbolsOf(lines, |lines|))
  }

  function ListingOf(lines: seq<Line>): seq<string>
    requires Assembles(lines)
  {
    seq(|lines|, i requires 0 <= i < |lines| => ListingLine(lines[i], StartOf(lines, i), SymbolsOf(lines, |lines|)))
  }

  class Assembler {
    const code: array<Byte>
    var tokens: Tokens
    var tpos: nat
    var source: string
    var pass: int
    var bytepos: int
    var symbols: seq<Symbol>
    var hitError: bool
    var output: seq<string>

    ghost predicate Ready()
      reads this
    {
      code.Length == 10 && tpos <= |tokens|
    }

    ghost function Rest(): Tokens
      reads this
      requires Ready()
    {
      tokens[tpos..]
    }

    constructor ()
      ensures Ready() && fresh(code)
      ensures pass == 1 && bytepos == 0 && symbols == [] && !hitError && output == []
    {
      code := new Byte[10];
      tokens, tpos, source := [], 0, "";
      pass, bytepos, symbols, hitError, output := 1, 0, [], false, [];
    }

    /** The token at offset k from the current one, if the line has it. */
    function Tok(k: nat): Option<Token>
      reads this
    {
      if tpos + k < |tokens| then Some(tokens[tpos + k]) else None
    }

    method FindSymbol(name: string) returns (pos: int)
      modifies this`hitError
      ensures Lookup(symbols, name).Some? ==> pos == Lookup(symbols, name).value && hitError == old(hitError)
      ensures Lookup(symbols, name).None? ==> hitError
    {
      var i := 0;
      while i < |symbols|
        invariant i <= |symbols| && Lookup(symbols, name) == Lookup(symbols[i..], name)
        invariant hitError == old(hitError)
      {
        if symbols[i].name == name {
          return symbols[i].pos;
        }
        assert symbols[i..][1..] == symbols[i + 1..];
        i := i + 1;
      }
      hitError := true;
      return -1;
    }

    method GetReg(codepos: nat, hi: nat)
      requires Ready() && codepos < 10
      modifies this`tpos, this`hitError, code
      ensures Ready()
      ensures match Put(Arg(R_ARG, codepos, hi), old(Rest()), symbols, old(code[..]))
              case None => hitError
              case Some(r) => hitError == old(hitError) && code[..] == r.0 && Rest() == r.1
    {
      if Tok(0).None? || !Tok(0).value.Reg? {
        hitError := true;
        return;
      }
      var rval := Tok(0).value.r;
      var c := code[codepos];
      code[codepos] := if hi == 1 then Pair(rval, LO4(c)) else Pair(HI4(c), rval);
      tpos := tpos + 1;
    }

    /** Writes the n lowest bytes of a number to the code, lowest first. */
    method PutNumber(codepos: nat, n: nat, v: Word)
      requires Ready() && codepos + n <= 10
      modifies code
      ensures code[..] == WithNum(old(code[..]), codepos, n, v)
    {
      hide Encode;
      var rest: int := v;
      ghost var before := code[..];
      for i := 0 to n
        invariant Encode(v, n) == code[codepos..codepos + i] + Encode(rest, n - i)
        invariant forall j :: 0 <= j < 10 && !(codepos <= j < codepos + i) ==> code[j] == before[j]
      {
        EncodeStep(rest, n - i);
        ghost var low, high := code[codepos..codepos + i], Encode(rest / 256, n - i - 1);
        code[codepos + i] := rest % 256;
        rest := rest / 256;
        assert code[codepos..codepos + i + 1] == low + [code[codepos + i]];
        assert low + ([code[codepos + i]] + high) == (low + [code[codepos + i]]) + high;
      }
      EncodeEnd(rest);
      assert code[..codepos] == before[..codepos] && code[codepos + n..] == before[codepos + n..];
      assert code[..] == code[..codepos] + code[codepos..codepos + n] + code[codepos + n..];
    }

    method GetNum(codepos: nat, bytes: nat)
      requires Ready() && codepos + bytes <= 10
      modifies this`tpos, this`hitError, code
      ensures Ready()
      ensures match Put(Arg(I_ARG, codepos, bytes), old(Rest()), symbols, old(code[..]))
              case None => hitError
              case Some(r) => hitError == old(hitError) && code[..] == r.0 && Rest() == r.1
    {
      hide WithNum, Encode;
      var val: Word := 0;
      if Tok(0).Some? && Tok(0).value.Num? {
        val := Tok(0).value.n;
      } else if Tok(0).Some? && Tok(0).value.Ident? {
        var pos := FindSymbol(Tok(0).value.s);
        val := Wrap(pos);
      } else {
        hitError := true;
        return;
      }
      PutNumber(codepos, bytes, val);
      tpos := tpos + 1;
    }

    method GetMem(codepos: nat)
      requires Ready() && codepos + 9 <= 10
      modifies this`tpos, this`hitError, code
      ensures Ready()
      ensures match Put(Arg(M_ARG, codepos, 0), old(Rest()), symbols, old(code[..]))
              case None => hitError
              case Some(r) => hitError == old(hitError) && code[..] == r.0 && Rest() == r.1
    {
      hide WithNum, Encode, ReadDisplacement, ReadBase;
      var val := GetDisplacement();
      var rval := GetBase();
      code[codepos] := Pair(HI4(code[codepos]), rval);
      PutNumber(codepos + 1, 8, val);
    }

    method GetDisplacement() returns (val: Word)
      requires Ready()
      modifies this`tpos, this`hitError
      ensures Ready()
      ensures match ReadDisplacement(old(Rest()), symbols)
              case None => hitError
              case Some(r) => hitError == old(hitError) && val == r.0 && Rest() == r.1
    {
      val := 0;
      if Tok(0).Some? && Tok(0).value.Num? {
        val := Tok(0).value.n;
        tpos := tpos + 1;
      } else if Tok(0).Some? && Tok(0).value.Ident? {
        var pos := FindSymbol(Tok(0).value.s);
        val := Wrap(pos);
        tpos := tpos + 1;
      }
    }

    method GetBase() returns (rval: Nibble)
      requires Ready()
      modifies this`tpos, this`hitError
      ensures Ready()
      ensures match ReadBase(old(Rest()))
              case None => hitError
              case Some(r) => hitError == old(hitError) && rval == r.0 && Rest() == r.1
    {
      rval := REG_NONE;
      if Tok(0) != Some(Punct('(')) {
        return;
      }
      tpos := tpos + 1;
      if Tok(0).None? || !Tok(0).value.Reg? {
        hitError := true;
        return;
      }
      rval := Tok(0).value.r;
      tpos := tpos + 1;
      if Tok(0) != Some(Punct(')')) {
        hitError := true;
        return;
      }
      tpos := tpos + 1;
    }

    method GetArg(a: Arg)
      requires Ready() && Fits(a)
      modifies this`tpos, this`hitError, code
      ensures Ready()
      ensures match Put(a, old(Rest()), symbols, old(code[..]))
              case None => hitError
              case Some(r) => hitError == old(hitError) && code[..] == r.0 && Rest() == r.1
    {
      match a.kind
      case R_ARG => GetReg(a.pos, a.hi);
      case M_ARG => GetMem(a.pos);
      case I_ARG => GetNum(a.pos, a.hi);
      case NO_ARG =>
    }

    /** Prints the current line with the first n bytes of the code. */
    method Print(pos: int, n: nat)
      requires Ready() && n <= 10
      modifies this`hitError, this`output
      ensures hitError <==> old(hitError) || (tokens != [] && pos > LAST_ADDRESS)
      ensures tokens == [] || pos <= LAST_ADDRESS ==>
        output == old(output) + [Text(pos, tokens == [], code[..n], source)]
    {
      if tokens != [] && pos > LAST_ADDRESS {
        hitError := true;
        return;
      }
      var line := PrintCode(pos, tokens == [], code[..n], source);
      output := output + [line];
    }

    /** Takes up the room of an instruction, and in the second pass assembles it. */
    method Instruction(m: Mnemonic, savebytepos: int)
      requires Ready() && !Directive(m) && (pass == 1 || pass == 2) && tokens != []
      modifies this`bytepos, this`tpos, this`hitError, this`output, code
      ensures Ready() && bytepos == old(bytepos) + Size(m)
      ensures pass == 1 ==> hitError == old(hitError) && output == old(output)
      ensures var f := Operands(m, old(Rest()), symbols);
        && (pass == 2 ==> (hitError <==> old(hitError) || f.None? || savebytepos > LAST_ADDRESS))
        && (pass == 2 && f.Some? && savebytepos <= LAST_ADDRESS ==>
              output == old(output) + [Text(savebytepos, false, Encoding(m, f.value), source)])
    {
      hide Put, Operands, Encoding, Text, ReadComma;
      var instr := Table(m);
      ghost var ts := Rest();
      bytepos := bytepos + instr.bytes;
      TableSizes(m);
      if pass == 1 {
        return;
      }
      code[0] := instr.code;
      code[1] := Pair(REG_NONE, REG_NONE);
      TableIsFormat(m, ts, symbols, code[..]);
      hide Table;
      GetArg(instr.arg1);
      if !instr.arg2.kind.NO_ARG? {
        CommaIsRead(Rest());
        if Tok(0) != Some(Punct(',')) {
          hitError := true;
          return;
        }
        tpos := tpos + 1;
        GetArg(instr.arg2);
      }
      Print(savebytepos, instr.bytes);
    }

    /** What a line means for the position, the errors and, in the second pass, the output. */
    twostate predicate LineDone(line: Line)
      reads this
    {
      && bytepos == Next(line.tokens, old(bytepos))
      && (pass == 1 ==> output == old(output) && (hitError <==> old(hitError) || !WellFormed(line.tokens)))
      && (pass == 2 ==> (hitError <==> old(hitError) || !Good(line.tokens, old(bytepos), symbols)))
      && (pass == 2 && Good(line.tokens, old(bytepos), symbols) ==>
            output == old(output) + [ListingLine(line, old(bytepos), symbols)])
    }

    /** Carries out a directive. */
    method Carry(m: Mnemonic, ghost line: Line)
      requires Ready() && Directive(m) && (pass == 1 || pass == 2)
      requires tokens == line.tokens && source == line.text && (StartsWithIdent(tokens) ==> Labelled(tokens))
      requires Body(tokens) == [Instr(m)] + Rest()
      modifies this`bytepos, this`hitError, this`output
      ensures Ready() && LineDone(line)
    {
      hide ToInt, DivC, Text, WellFormed, Next, Shown, IsInstruction, Body, Labelled, StartsWithIdent;
      DirectiveParts(tokens, m, Rest(), bytepos, symbols);
      if m.PosDirective? {
        if Tok(0).None? || !Tok(0).value.Num? {
          hitError := true;
          return;
        }
        bytepos := ToInt(Tok(0).value.n);
        if pass > 1 {
          Print(bytepos, 0);
        }
      } else {
        if Tok(0).None? || !Tok(0).value.Num? || ToInt(Tok(0).value.n) <= 0 {
          hitError := true;
          return;
        }
        var a := ToInt(Tok(0).value.n);
        bytepos := DivC(bytepos + a - 1, a) * a;
        if pass > 1 {
          Print(bytepos, 0);
        }
      }
    }

    /** Processes the line behind the label. */
    method Statement(ghost line: Line)
      requires Ready() && (pass == 1 || pass == 2)
      requires tokens == line.tokens && source == line.text && (StartsWithIdent(tokens) ==> Labelled(tokens))
      requires Body(tokens) == Rest() != []
      modifies this`bytepos, this`hitError, this`output, this`tpos, code
      ensures Ready() && LineDone(line)
    {
      hide Operands, Encoding, Text, ToInt, DivC, Size;
      if !tokens[tpos].Instr? {
        hitError := true;
        return;
      }
      var m, savebytepos := tokens[tpos].m, bytepos;
      tpos := tpos + 1;
      assert Rest() == Body(tokens)[1..];
      if m.PosDirective? || m.AlignDirective? {
        Carry(m, line);
      } else {
        Instruction(m, savebytepos);
      }
    }

    /** Processes a line of tokens. */
    method FinishLine(line: Line)
      requires Ready() && (pass == 1 || pass == 2)
      modifies this, code
      ensures Ready() && pass == old(pass) && LineDone(line)
      ensures symbols == old(symbols) + if pass == 1 then NewSymbol(line.tokens, old(bytepos)) else []
    {
      hide Operands, Encoding, Text, ToInt, DivC, Size;
      tokens, tpos, source := line.tokens, 0, line.text;
      if tokens == [] {
        if pass > 1 {
          Print(bytepos, 0);
        }
        return;
      }
      if tokens[0].Ident? {
        if Tok(1) != Some(Punct(':')) {
          hitError := true;
          return;
        }
        if pass == 1 {
          symbols := symbols + [Symbol(tokens[0].s, bytepos)];
        }
        tpos := 2;
        if |tokens| == 2 {
          if pass > 1 {
            Print(bytepos, 0);
          }
          return;
        }
      }
      assert Rest() == Body(tokens);
      label before:
      Statement(line);
      assert LineDone@before(line);
    }

    method FirstPass(lines: seq<Line>)
      requires Ready() && pass == 1 && bytepos == 0 && symbols == [] && !hitError && output == []
      modifies this, code
      ensures Ready() && pass == 1 && output == [] && symbols == SymbolsOf(lines, |lines|)
      ensures hitError <==> exists j :: 0 <= j < |lines| && !WellFormed(lines[j].tokens)
    {
      hide Next, Good, ListingLine, WellFormed, NewSymbol;
      for i := 0 to |lines|
        invariant Ready() && pass == 1 && output == []
        invariant bytepos == StartOf(lines, i) && symbols == SymbolsOf(lines, i)
        invariant hitError <==> exists j :: 0 <= j < i && !WellFormed(lines[j].tokens)
      {
        FinishLine(lines[i]);
        SymbolsGrow(lines, i);
      }
    }

    method SecondPass(lines: seq<Line>)
      requires Ready() && pass == 2 && bytepos == 0 && !hitError && output == [] && symbols == SymbolsOf(lines, |lines|)
      modifies this, code
      ensures Ready() && (hitError <==> !Assembles(lines))
      ensures !hitError ==> output == ListingOf(lines)
    {
      hide Next, Good, ListingLine, WellFormed, SymbolsOf, Assembles, ListingOf;
      ghost var st := symbols;
      for i := 0 to |lines|
        invariant Ready() && pass == 2 && bytepos == StartOf(lines, i) && symbols == st
        invariant hitError <==> exists j :: 0 <= j < i && !Good(lines[j].tokens, StartOf(lines, j), st)
        invariant !hitError ==> |output| == i && forall j :: 0 <= j < i ==>
          output[j] == ListingLine(lines[j], StartOf(lines, j), st)
      {
        FinishLine(lines[i]);
      }
      PassedLines(lines, hitError, output);
    }

    /** Both passes: every line starts in the second where it did in the first. */
    method Assemble(lines: seq<Line>) returns (ok: bool)
      requires Ready() && pass == 1 && bytepos == 0 && symbols == [] && !hitError && output == []
      modifies this, code
      ensures ok <==> Assembles(lines)
      ensures ok ==> output == ListingOf(lines)
    {
      hide WellFormed;
      FirstPass(lines);
      if hitError {
        IllFormedFails(lines);
        return false;
      }
      pass, bytepos := 2, 0;
      SecondPass(lines);
      return !hitError;
    }
  }

  /** What it means that a pass has gone through all lines. */
  lemma PassedLines(lines: seq<Line>, hitError: bool, output: seq<string>)
    requires var st := SymbolsOf(lines, |lines|);
      && (hitError <==> exists j :: 0 <= j < |lines| && !Good(lines[j].tokens, StartOf(lines, j), st))
      && (!hitError ==> |output| == |lines|
                        && forall j :: 0 <= j < |lines| ==> output[j] == ListingLine(lines[j], StartOf(lines, j), st))
    ensures hitError <==> !Assembles(lines)
    ensures !hitError ==> output == ListingOf(lines)
  {
    hide Good, ListingLine, StartOf, SymbolsOf;
  }

  lemma SymbolsGrow(lines: seq<Line>, i: nat)
    requires i < |lines|
    ensures SymbolsOf(lines, i + 1) == SymbolsOf(lines, i) + NewSymbol(lines[i].tokens, StartOf(lines, i))
  {}

  lemma IllFormedFails(lines: seq<Line>)
    requires exists j :: 0 <= j < |lines| && !WellFormed(lines[j].tokens)
    ensures !Assembles(lines)
  {}
}
