/** From assembler source to memory: what is loaded from a listing is what the source says. */
module AsmCorrect {
  import opened Options
  import opened Words
  import opened Memory
  import opened Isa
  import opened Assembly
  import opened Effects
  import opened Listing
  import opened Assembler

  /** The code of line i of a program that assembles, and the address it is printed with. */
  function Bytes(lines: seq<Line>, i: nat): (bytes: seq<Byte>)
    requires Assembles(lines) && i < |lines|
    ensures |bytes| <= 10
  {
    CodeOf(lines[i].tokens, SymbolsOf(lines, |lines|))
  }

  function LineAddress(lines: seq<Line>, i: nat): int
    requires i < |lines|
  {
    Shown(lines[i].tokens, StartOf(lines, i))
  }

  /** Every printed address is not negative, and all code is inside memory. */
  predicate InMemory(lines: seq<Line>, size: nat)
    requires Assembles(lines)
  {
    forall i {:trigger LineAddress(lines, i)} :: 0 <= i < |lines| && lines[i].tokens != [] ==>
      0 <= LineAddress(lines, i) && (Bytes(lines, i) != [] ==> LineAddress(lines, i) + |Bytes(lines, i)| <= size)
  }

  /** Memory with the code of the first n lines stored in order. */
  function Image(m: seq<Byte>, lines: seq<Line>, n: nat): (m': seq<Byte>)
    requires Assembles(lines) && InMemory(lines, |m|) && n <= |lines|
    ensures |m'| == |m|
  {
    if n == 0 then m
    else
      var before := Image(m, lines, n - 1);
      if lines[n - 1].tokens == [] then before else StoreBytes(before, LineAddress(lines, n - 1), Bytes(lines, n - 1))
  }

  /** Loading the printed listing stores exactly the assembled bytes at their addresses. */
  lemma {:induction false} ListingIsLoaded(m: seq<Byte>, lines: seq<Line>, n: nat)
    requires Assembles(lines) && InMemory(lines, |m|) && n <= |lines|
    ensures Loaded(m, ListingOf(lines)[..n]) == Some(Image(m, lines, n))
  {
    hide LoadLine, Good, StartOf, SymbolsOf, Shown, CodeOf, Text;
    if n > 0 {
      ListingIsLoaded(m, lines, n - 1);
      var listing, i := ListingOf(lines), n - 1;
      assert listing[..n][..n - 1] == listing[..n - 1];
      LineIsLoaded(Image(m, lines, i), lines, i);
    }
  }

  lemma LineIsLoaded(m: seq<Byte>, lines: seq<Line>, i: nat)
    requires Assembles(lines) && InMemory(lines, |m|) && i < |lines|
    ensures LoadLine(m, ListingOf(lines)[i])
         == Some(if lines[i].tokens == [] then m else StoreBytes(m, LineAddress(lines, i), Bytes(lines, i)))
  {
    hide LoadLine, StartOf, SymbolsOf, Text;
    var line := lines[i];
    assert Good(line.tokens, StartOf(lines, i), SymbolsOf(lines, |lines|));
    if line.tokens == [] {
      EmptyIsNotLoaded(m, LineAddress(lines, i), line.text);
    } else {
      PrintedIsLoaded(m, LineAddress(lines, i), Bytes(lines, i), line.text);
    }
  }

  /** No later line puts code where line i has its own. */
  predicate Untouched(lines: seq<Line>, i: nat, n: nat)
    requires Assembles(lines) && i < n <= |lines|
  {
    forall j :: i < j < n ==> Apart(LineAddress(lines, j), |Bytes(lines, j)|, LineAddress(lines, i), |Bytes(lines, i)|)
  }

  lemma {:induction false} CodeStays(m: seq<Byte>, lines: seq<Line>, i: nat, n: nat)
    requires Assembles(lines) && InMemory(lines, |m|) && i < n <= |lines| && Bytes(lines, i) != []
    requires lines[i].tokens != []
    requires Untouched(lines, i, n)
    ensures var a := LineAddress(lines, i);
      0 <= a && a + |Bytes(lines, i)| <= |m| && Image(m, lines, n)[a..a + |Bytes(lines, i)|] == Bytes(lines, i)
    decreases n
  {
    hide Good, StartOf, SymbolsOf, Shown, CodeOf, StoreBytes, Assembles, LineAddress, Bytes, Apart;
    var a, size := LineAddress(lines, i), |Bytes(lines, i)|;
    var before, pos, code := Image(m, lines, n - 1), LineAddress(lines, n - 1), Bytes(lines, n - 1);
    if n - 1 > i {
      CodeStays(m, lines, i, n - 1);
      if lines[n - 1].tokens != [] {
        StoredThere(before, pos, code);
        if code != [] {
          StoreApart(before, pos, code, a, size);
        }
      }
    } else {
      StoredThere(before, pos, code);
    }
  }

  lemma StoredThere(m: seq<Byte>, pos: nat, bytes: seq<Byte>)
    ensures StoreBytes(m, pos, []) == m
    ensures pos + |bytes| <= |m| ==> StoreBytes(m, pos, bytes)[pos..pos + |bytes|] == bytes
  {}

  lemma StoreApart(m: seq<Byte>, pos: nat, bytes: seq<Byte>, a: nat, size: nat)
    requires pos + |bytes| <= |m| && a + size <= |m| && Apart(pos, |bytes|, a, size)
    ensures StoreBytes(m, pos, bytes)[a..a + size] == m[a..a + size]
  {}

  /** From source to execution: where the listing of a program is loaded, the instruction-set model finds
      at the start of every line whose code no later line overwrites the instruction that the line names,
      with its operands, and the next instruction right behind it. */
  lemma SourceIsDecoded(m: seq<Byte>, lines: seq<Line>, i: nat)
    requires Assembles(lines) && InMemory(lines, |m|) && |m| < TWO63 && i < |lines|
    requires var ts := lines[i].tokens; IsInstruction(ts) && !Body(ts)[0].m.Data?
    requires Untouched(lines, i, |lines|)
    ensures var m', pc, body := Loaded(m, ListingOf(lines)), StartOf(lines, i), Body(lines[i].tokens);
      var f := Operands(body[0].m, body[1..], SymbolsOf(lines, |lines|));
      && m'.Some? && f.Some? && 0 <= pc < |m'.value| && pc < TWO63
      && Decoding(m'.value, pc)
      == Decoded(Icode(body[0].m), Ifun(body[0].m), f.value.ra, f.value.rb, true, f.value.val, true, pc + Size(body[0].m))
  {
    hide Decoding, Operands, Encoding, Loaded, Icode, Ifun, Apart;
    var ts, st, n := lines[i].tokens, SymbolsOf(lines, |lines|), |lines|;
    var body := Body(ts);
    assert Good(ts, StartOf(lines, i), st);
    OperandsFit(body[0].m, body[1..], st);
    SizeIsPositive(body[0].m);
    CodeStays(m, lines, i, n);
    ListingIsLoaded(m, lines, n);
    assert ListingOf(lines)[..n] == ListingOf(lines);
    DecodesAsAssembled(Image(m, lines, n), StartOf(lines, i), body[0].m, Operands(body[0].m, body[1..], st).value);
  }

  /** And there the model does what the mnemonic's name says, with the operands as they are written. */
  lemma SourceIsExecuted(m: seq<Byte>, lines: seq<Line>, i: nat, s: IsaState)
    requires Assembles(lines) && InMemory(lines, |m|) && |m| < TWO63 - 10 && i < |lines|
    requires var ts := lines[i].tokens; IsInstruction(ts) && !Body(ts)[0].m.Data?
    requires Untouched(lines, i, |lines|)
    requires Loaded(m, ListingOf(lines)) == Some(s.m) && s.pc == StartOf(lines, i)
    ensures var body, st := Body(lines[i].tokens), SymbolsOf(lines, |lines|);
      var f := Operands(body[0].m, body[1..], st);
      && f.Some? && Written(body[0].m, f.value, body[1..], st)
      && IsWord(s.pc + 10) && Performs(body[0].m, f.value, s, Step(s).0, Step(s).1)
  {
    hide Decoding, Operands, Loaded, Icode, Ifun, Apart, Performs, Step, Written, Assembles, InMemory, Untouched;
    SourceIsDecoded(m, lines, i);
    var body, st := Body(lines[i].tokens), SymbolsOf(lines, |lines|);
    var f := Operands(body[0].m, body[1..], st).value;
    OperandsAsWritten(body[0].m, body[1..], st, f);
    LoadedLength(m, ListingOf(lines));
    assert Size(body[0].m) <= 10;
    PerformsByName(s, body[0].m, f);
  }

  lemma LoadedLength(m: seq<Byte>, lines: seq<string>)
    ensures Loaded(m, lines).Some? ==> |Loaded(m, lines).value| == |m|
  {}

  lemma SizeIsPositive(m: Mnemonic)
    requires !Directive(m)
    ensures Size(m) > 0
  {}

  /** A label, before or behind its use, stands for the start of the line that defines it. */
  lemma {:induction false} LabelOperand(lines: seq<Line>, j: nat, name: string, rest: Tokens)
    requires j < |lines| && Defines(lines[j], name)
    requires forall k :: 0 <= k < |lines| && Defines(lines[k], name) ==> k == j
    ensures ReadNum([Ident(name)] + rest, SymbolsOf(lines, |lines|)) == Some((Wrap(StartOf(lines, j)), rest))
  {
    LabelIsStart(lines, |lines|, name);
    assert ([Ident(name)] + rest)[1..] == rest;
  }
}
