/** The text of an assembler listing, and loading memory from it. */
module Listing {
  import opened Options
  import opened Words
  import opened Memory

  // ----- hexadecimal -----

  function Digit(h: Nibble): char {
    if h < 10 then '0' + h as char else 'a' + (h - 10) as char
  }

  /** The digits are 0 to 9 and a to f, in this order. */
  lemma DigitsInOrder(h: Nibble)
    ensures Digit(h) == "0123456789abcdef"[h]
  {}

  /** The n lowest hexadecimal digits of v, highest first. */
  function Hex(v: int, n: nat): (s: string)
    ensures |s| == n
    decreases n
  {
    if n == 0 then [] else Hex(v / 16, n - 1) + [Digit(v % 16)]
  }

  lemma HexStep(v: int, n: nat)
    ensures Hex(v, n) == if n == 0 then [] else Hex(v / 16, n - 1) + [Digit(v % 16)]
  {}

  function HexBytes(bytes: seq<Byte>): (s: string)
    ensures |s| == 2 * |bytes|
  {
    if bytes == [] then [] else Hex(bytes[0], 2) + HexBytes(bytes[1..])
  }

  lemma {:induction false} HexBytesMore(bytes: seq<Byte>, b: Byte)
    ensures HexBytes(bytes + [b]) == HexBytes(bytes) + Hex(b, 2)
  {
    if bytes == [] {
      assert bytes + [b] == [b] && [b][1..] == [];
    } else {
      assert (bytes + [b])[1..] == bytes[1..] + [b];
      HexBytesMore(bytes[1..], b);
    }
  }

  function Blanks(n: nat): (s: string)
    ensures |s| == n
  {
    seq(n, _ => ' ')
  }

  // ----- printing -----

  function AddressDigits(pos: int): nat { if pos > 0xFFF then 4 else 3 }

  /** A line of the listing: the address and the code, unless the source line is empty, and its text. */
  function Text(pos: int, empty: bool, bytes: seq<Byte>, source: string): string
    requires |bytes| <= 10
  {
    var w := AddressDigits(pos);
    if empty then Blanks(25 + w) + "| " + source
    else "0x" + Hex(pos, w) + ":" + Blanks(4 - w) + HexBytes(bytes) + Blanks(18 + w - 2 * |bytes|) + "| " + source
  }

  /** Writes the digits of value, lowest first, from the end of their place backwards. */
  method HexStuff(dest: array<char>, off: nat, value: int, len: nat)
    requires off + len <= dest.Length
    modifies dest
    ensures dest[..] == old(dest[..off]) + Hex(value, len) + old(dest[off + len..])
  {
    hide Hex, Digit;
    var v := value;
    ghost var before := dest[..];
    for i := 0 to len
      invariant Hex(value, len) == Hex(v, len - i) + dest[off + len - i..off + len]
      invariant dest[..off + len - i] == before[..off + len - i] && dest[off + len..] == before[off + len..]
    {
      HexStep(v, len - i);
      ghost var digits, high := dest[off + len - i..off + len], Hex(v / 16, len - i - 1);
      dest[off + len - i - 1] := Digit(v % 16);
      assert dest[off + len - (i + 1)..off + len] == [Digit(v % 16)] + digits;
      assert high + [Digit(v % 16)] + digits == high + ([Digit(v % 16)] + digits);
      v := v / 16;
    }
    HexStep(v, 0);
    assert dest[..] == dest[..off] + dest[off..off + len] + dest[off + len..];
  }

  /** A line of the listing with the first bytes filled in. */
  function Partial(pos: int, bytes: seq<Byte>): string
    requires |bytes| <= 10
  {
    var w := AddressDigits(pos);
    "0x" + Hex(pos, w) + ":" + Blanks(4 - w) + HexBytes(bytes) + Blanks(18 + w - 2 * |bytes|) + "| "
  }

  lemma FillByte(pos: int, bytes: seq<Byte>, b: Byte)
    requires |bytes| < 10
    ensures var s, at := Partial(pos, bytes), 7 + 2 * |bytes|;
      at + 2 <= |s| && Partial(pos, bytes + [b]) == s[..at] + Hex(b, 2) + s[at + 2..]
  {
    hide Hex, HexBytes;
    HexBytesMore(bytes, b);
    var w, n := AddressDigits(pos), 18 + AddressDigits(pos) - 2 * |bytes|;
    assert Blanks(n) == Blanks(2) + Blanks(n - 2);
    var front := "0x" + Hex(pos, w) + ":" + Blanks(4 - w) + HexBytes(bytes);
    assert Partial(pos, bytes) == front + Blanks(2) + (Blanks(n - 2) + "| ");
    assert Partial(pos, bytes + [b]) == front + Hex(b, 2) + (Blanks(n - 2) + "| ");
    assert |front| == 7 + 2 * |bytes|;
  }

  function Template(pos: int): string {
    (if pos > 0xFFF then "0x0000:" else "0x000:") + "                      " + "| "
  }

  lemma BlanksBetween()
    ensures "                      " == Blanks(22)
  {}

  lemma BlanksBefore()
    ensures "                            " == Blanks(28) && "                             " == Blanks(29)
  {}

  lemma TemplateEnd(front: string, blanks: string, n: nat)
    requires |front| == n + 1 && front[n] == ':'
    ensures (front + blanks + "| ")[n..] == ":" + blanks + "| "
  {}

  lemma FillAddress(pos: int)
    ensures var t, w := Template(pos), AddressDigits(pos);
      2 + w <= |t| && t[..2] + Hex(pos, w) + t[2 + w..] == Partial(pos, [])
  {
    hide Hex;
    var t, w := Template(pos), AddressDigits(pos);
    var front := if pos > 0xFFF then "0x0000:" else "0x000:";
    BlanksBetween();
    BlanksSplit(4 - w, 18 + w);
    TemplateEnd(front, Blanks(22), 2 + w);
    hide Blanks;
    assert t == front + Blanks(22) + "| " && front[..2] == "0x" && t[..2] == front[..2];
    assert t[2 + w..] == ":" + (Blanks(4 - w) + Blanks(18 + w)) + "| ";
  }

  lemma BlanksSplit(a: nat, b: nat)
    ensures Blanks(a) + Blanks(b) == Blanks(a + b)
  {}

  method FillCode(outstring: array<char>, pos: int, bytes: seq<Byte>)
    requires |bytes| <= 10 && outstring[..] == Template(pos)
    modifies outstring
    ensures outstring[..] == Partial(pos, bytes)
  {
    hide Template, Partial, HexBytes, Hex, Blanks;
    FillAddress(pos);
    HexStuff(outstring, 2, pos, AddressDigits(pos));
    for i := 0 to |bytes|
      invariant outstring[..] == Partial(pos, bytes[..i])
    {
      FillByte(pos, bytes[..i], bytes[i]);
      assert bytes[..i] + [bytes[i]] == bytes[..i + 1];
      HexStuff(outstring, 7 + 2 * i, bytes[i], 2);
    }
    assert bytes[..|bytes|] == bytes;
  }

  /** Prints a line: a template is filled with the digits of the address and the code. */
  method PrintCode(pos: int, empty: bool, bytes: seq<Byte>, source: string) returns (line: string)
    requires |bytes| <= 10
    ensures line == Text(pos, empty, bytes, source)
  {
    if empty {
      BlanksBefore();
      return (if pos > 0xFFF then "                             " else "                            ") + "| " + source;
    }
    var template := Template(pos);
    var outstring := new char[|template|](i requires 0 <= i < |template| => template[i]);
    assert outstring[..] == template;
    FillCode(outstring, pos, bytes);
    return outstring[..] + source;
  }

  // ----- loading -----

  predicate IsSpace(c: char) { c == ' ' || '\t' <= c <= '\r' }

  predicate IsHex(c: char) { '0' <= c <= '9' || 'a' <= c <= 'f' || 'A' <= c <= 'F' }

  function HexToDigit(c: char): Nibble
    requires IsHex(c)
  {
    if '0' <= c <= '9' then c as int - '0' as int
    else if 'A' <= c <= 'F' then c as int - 'A' as int + 10
    else c as int - 'a' as int + 10
  }

  /** Character i of a line, which ends in a zero. */
  function At(line: string, i: nat): char {
    if i < |line| then line[i] else '\0'
  }

  function SkipSpace(line: string, i: nat): (j: nat)
    ensures i <= j && !IsSpace(At(line, j))
    ensures forall k :: i <= k < j ==> IsSpace(At(line, k))
    decreases |line| - i
  {
    if IsSpace(At(line, i)) then SkipSpace(line, i + 1) else i
  }

  function SkipHex(line: string, i: nat): (j: nat)
    ensures i <= j && !IsHex(At(line, j))
    ensures forall k :: i <= k < j ==> IsHex(At(line, k))
    decreases |line| - i
  {
    if IsHex(At(line, i)) then SkipHex(line, i + 1) else i
  }

  /** The number that the digits from i up to j stand for, in 64 bits. */
  function HexValue(line: string, i: nat, j: nat): Word
    requires i <= j && forall k :: i <= k < j ==> IsHex(At(line, k))
    decreases j
  {
    if i == j then 0 else Wrap(HexValue(line, i, j - 1) * 16 + HexToDigit(At(line, j - 1)))
  }

  /** Stores the bytes whose digits start at character i, until a pair is not complete; None where they
      run out of memory. */
  function LoadBytes(m: seq<Byte>, line: string, i: nat, pos: int): (r: Option<seq<Byte>>)
    ensures r.Some? ==> |r.value| == |m|
    decreases |line| - i
  {
    if !IsHex(At(line, i)) || !IsHex(At(line, i + 1)) then Some(m)
    else if !(0 <= pos < |m|) then None
    else LoadBytes(m[pos := HexToDigit(At(line, i)) * 16 + HexToDigit(At(line, i + 1))], line, i + 2, pos + 1)
  }

  function LoadLine(m: seq<Byte>, line: string): (r: Option<seq<Byte>>)
    ensures r.Some? ==> |r.value| == |m|
  {
    var i := SkipSpace(line, 0);
    if At(line, i) != '0' || (At(line, i + 1) != 'x' && At(line, i + 1) != 'X') then Some(m)
    else
      var j := SkipHex(line, i + 2);
      var k := SkipSpace(line, j);
      if At(line, k) != ':' then None
      else LoadBytes(m, line, SkipSpace(line, k + 1), HexValue(line, i + 2, j))
  }

  /** Memory after the lines are loaded one after another. */
  function Loaded(m: seq<Byte>, lines: seq<string>): (r: Option<seq<Byte>>)
    ensures r.Some? ==> |r.value| == |m|
  {
    if lines == [] then Some(m)
    else
      var m' :- Loaded(m, lines[..|lines| - 1]);
      LoadLine(m', lines[|lines| - 1])
  }

  /** Loads one line; false where the source reports an error. */
  method LoadLineInto(m: array<Byte>, line: string) returns (ok: bool)
    modifies m
    ensures ok <==> LoadLine(old(m[..]), line).Some?
    ensures ok ==> m[..] == LoadLine(old(m[..]), line).value
  {
    hide LoadBytes, SkipSpace, HexToDigit, Wrap;
    var cpos := SkipSpace(line, 0);
    if At(line, cpos) != '0' || (At(line, cpos + 1) != 'x' && At(line, cpos + 1) != 'X') {
      return true;
    }
    cpos := cpos + 2;
    ghost var start := cpos;
    var bytepos: Word := 0;
    while IsHex(At(line, cpos))
      invariant start <= cpos && SkipHex(line, cpos) == SkipHex(line, start)
      invariant forall k :: start <= k < cpos ==> IsHex(At(line, k))
      invariant bytepos == HexValue(line, start, cpos)
      decreases |line| - cpos
    {
      cpos := cpos + 1;
      bytepos := Wrap(bytepos * 16 + HexToDigit(At(line, cpos - 1)));
    }
    assert cpos == SkipHex(line, start);
    hide SkipHex, HexValue, IsHex;
    cpos := SkipSpace(line, cpos);
    if At(line, cpos) != ':' {
      return false;
    }
    cpos := SkipSpace(line, cpos + 1);
    ok := LoadBytesInto(m, line, cpos, bytepos);
  }

  method LoadBytesInto(m: array<Byte>, line: string, i: nat, pos: int) returns (ok: bool)
    modifies m
    ensures ok <==> LoadBytes(old(m[..]), line, i, pos).Some?
    ensures ok ==> m[..] == LoadBytes(old(m[..]), line, i, pos).value
  {
    var cpos, bytepos := i, pos;
    while IsHex(At(line, cpos)) && IsHex(At(line, cpos + 1))
      invariant LoadBytes(m[..], line, cpos, bytepos) == LoadBytes(old(m[..]), line, i, pos)
      decreases |line| - cpos
    {
      if !(0 <= bytepos < m.Length) {
        return false;
      }
      ghost var before := m[..];
      m[bytepos] := HexToDigit(At(line, cpos)) * 16 + HexToDigit(At(line, cpos + 1));
      assert m[..] == before[bytepos := m[bytepos]];
      cpos, bytepos := cpos + 2, bytepos + 1;
    }
    return true;
  }

  method LoadMem(m: array<Byte>, lines: seq<string>) returns (ok: bool)
    modifies m
    ensures ok <==> Loaded(old(m[..]), lines).Some?
    ensures ok ==> m[..] == Loaded(old(m[..]), lines).value
  {
    var i := 0;
    while i < |lines|
      invariant i <= |lines| && Loaded(old(m[..]), lines[..i]) == Some(m[..])
    {
      ghost var prefix := lines[..i + 1];
      assert prefix[..i] == lines[..i];
      ok := LoadLineInto(m, lines[i]);
      if !ok {
        LoadFails(old(m[..]), lines, i + 1);
        return;
      }
      i := i + 1;
    }
    assert lines[..i] == lines;
    return true;
  }

  lemma {:induction false} LoadFails(m: seq<Byte>, lines: seq<string>, i: nat)
    requires i <= |lines| && Loaded(m, lines[..i]).None?
    ensures Loaded(m, lines).None?
    decreases |lines| - i
  {
    if i < |lines| {
      assert lines[..i + 1][..i] == lines[..i];
      LoadFails(m, lines, i + 1);
    } else {
      assert lines[..i] == lines;
    }
  }

  // ----- what is printed is what is loaded -----

  function StoreBytes(m: seq<Byte>, pos: nat, bytes: seq<Byte>): (m': seq<Byte>)
    requires bytes == [] || pos + |bytes| <= |m|
    ensures |m'| == |m|
  {
    if bytes == [] then m else m[..pos] + bytes + m[pos + |bytes|..]
  }

  lemma DigitRoundTrip(h: Nibble)
    ensures IsHex(Digit(h)) && HexToDigit(Digit(h)) == h
  {}

  function Pow16(n: nat): nat {
    if n == 0 then 1 else 16 * Pow16(n - 1)
  }

  lemma {:induction false} HexValueOf(line: string, i: nat, v: nat, n: nat)
    requires i + n <= |line| && line[i..i + n] == Hex(v, n) && n <= 4 && v < Pow16(n)
    ensures forall k :: i <= k < i + n ==> IsHex(At(line, k))
    ensures HexValue(line, i, i + n) == v
  {
    hide Hex, HexToDigit, IsHex, At, HexValue, Wrap, Pow16;
    if n > 0 {
      SmallNumber(v, n);
      LastDigit(line, i, v, n);
      HexValueOf(line, i, v / 16, n - 1);
    } else {
      assert Pow16(0) == 1 by { PowerOfNone(); }
    }
    HexValueStep(line, i, i + n);
  }

  lemma PowerOfNone()
    ensures Pow16(0) == 1
  {}

  lemma HexValueStep(line: string, i: nat, j: nat)
    requires i <= j && forall k :: i <= k < j ==> IsHex(At(line, k))
    ensures HexValue(line, i, j)
         == if i == j then 0 else Wrap(HexValue(line, i, j - 1) * 16 + HexToDigit(At(line, j - 1)))
  {}

  lemma LastDigit(line: string, i: nat, v: nat, n: nat)
    requires 0 < n && i + n <= |line| && line[i..i + n] == Hex(v, n)
    ensures line[i..i + n - 1] == Hex(v / 16, n - 1)
    ensures IsHex(At(line, i + n - 1)) && HexToDigit(At(line, i + n - 1)) == v % 16
  {
    var digits := line[i..i + n];
    assert digits[..n - 1] == line[i..i + n - 1] == Hex(v / 16, n - 1);
    assert digits[n - 1] == line[i + n - 1] == Digit(v % 16);
    DigitRoundTrip(v % 16);
  }

  lemma SmallNumber(v: nat, n: nat)
    requires 0 < n <= 4 && v < Pow16(n)
    ensures Wrap(v / 16 * 16 + v % 16) == v && v / 16 < Pow16(n - 1)
  {
    hide Pow16, Wrap;
    var q, r := v / 16, v % 16;
    assert v == 16 * q + r;
    SmallPowers(n);
    WrapUnique(v, v);
  }

  lemma SmallPowers(n: nat)
    requires 0 < n <= 4
    ensures Pow16(n) == 16 * Pow16(n - 1) && Pow16(n) <= 0x1_0000
  {
    assert Pow16(0) == 1 && Pow16(1) == 16 && Pow16(2) == 256 && Pow16(3) == 4096 && Pow16(4) == 65536;
  }

  lemma ByteDigits(bytes: seq<Byte>)
    requires bytes != []
    ensures var s, b := HexBytes(bytes), bytes[0];
      s[0] == Digit(b / 16) && s[1] == Digit(b % 16) && s[2..] == HexBytes(bytes[1..])
  {
    var b := bytes[0];
    assert Hex(b / 16, 1) == Hex(b / 16 / 16, 0) + [Digit(b / 16 % 16)];
    assert Hex(b, 2) == [Digit(b / 16), Digit(b % 16)];
  }

  lemma {:induction false} BytesAreLoaded(m: seq<Byte>, line: string, i: nat, end: nat, pos: nat, bytes: seq<Byte>)
    requires end == i + 2 * |bytes| <= |line| && line[i..end] == HexBytes(bytes) && !IsHex(At(line, end))
    requires bytes == [] || pos + |bytes| <= |m|
    ensures LoadBytes(m, line, i, pos) == Some(StoreBytes(m, pos, bytes))
    decreases |bytes|
  {
    if bytes == [] {
      LoadNothing(m, line, i, pos);
    } else {
      hide HexBytes, StoreBytes, LoadBytes, At, IsHex;
      FirstIsLoaded(m, line, i, pos, bytes);
      BytesAreLoaded(m[pos := bytes[0]], line, i + 2, end, pos + 1, bytes[1..]);
      StoreNext(m, pos, bytes);
    }
  }

  lemma FirstIsLoaded(m: seq<Byte>, line: string, i: nat, pos: nat, bytes: seq<Byte>)
    requires bytes != [] && i + 2 * |bytes| <= |line| && line[i..i + 2 * |bytes|] == HexBytes(bytes) && pos < |m|
    ensures line[i + 2..i + 2 * |bytes|] == HexBytes(bytes[1..])
    ensures LoadBytes(m, line, i, pos) == LoadBytes(m[pos := bytes[0]], line, i + 2, pos + 1)
  {
    hide HexBytes, Digit, HexToDigit, LoadBytes, At, IsHex;
    var b := bytes[0];
    DigitsAt(line, i, bytes);
    DigitRoundTrip(b / 16);
    DigitRoundTrip(b % 16);
    LoadPair(m, line, i, pos);
  }

  lemma DigitsAt(line: string, i: nat, bytes: seq<Byte>)
    requires bytes != [] && i + 2 * |bytes| <= |line| && line[i..i + 2 * |bytes|] == HexBytes(bytes)
    ensures At(line, i) == Digit(bytes[0] / 16) && At(line, i + 1) == Digit(bytes[0] % 16)
    ensures line[i + 2..i + 2 + 2 * |bytes[1..]|] == HexBytes(bytes[1..])
  {
    hide HexBytes, Digit;
    ByteDigits(bytes);
    var digits := line[i..i + 2 * |bytes|];
    assert digits[0] == line[i] && digits[1] == line[i + 1];
    assert digits[2..] == line[i + 2..i + 2 + 2 * |bytes[1..]|];
  }

  lemma LoadNothing(m: seq<Byte>, line: string, i: nat, pos: nat)
    requires !IsHex(At(line, i))
    ensures LoadBytes(m, line, i, pos) == Some(StoreBytes(m, pos, []))
  {}

  lemma LoadPair(m: seq<Byte>, line: string, i: nat, pos: nat)
    requires IsHex(At(line, i)) && IsHex(At(line, i + 1)) && pos < |m|
    ensures LoadBytes(m, line, i, pos)
         == LoadBytes(m[pos := HexToDigit(At(line, i)) * 16 + HexToDigit(At(line, i + 1))], line, i + 2, pos + 1)
  {}

  lemma StoreNext(m: seq<Byte>, pos: nat, bytes: seq<Byte>)
    requires bytes != [] && pos + |bytes| <= |m|
    ensures StoreBytes(m[pos := bytes[0]], pos + 1, bytes[1..]) == StoreBytes(m, pos, bytes)
  {}

  /** The parts of a line of the listing. */
  lemma TextParts(pos: nat, bytes: seq<Byte>, source: string)
    requires |bytes| <= 10
    ensures var s, w, n := Text(pos, false, bytes, source), AddressDigits(pos), 2 * |bytes|;
      && 7 + n < |s| && s[0] == '0' && s[1] == 'x' && s[2..2 + w] == Hex(pos, w) && s[2 + w] == ':'
      && (forall k :: 3 + w <= k < 7 ==> s[k] == ' ') && s[7..7 + n] == HexBytes(bytes)
      && s[7 + n] == ' '
      && (n == 0 ==> (forall k :: 7 <= k < 25 + w ==> s[k] == ' ') && 25 + w < |s| && s[25 + w] == '|')
  {
    hide Hex, HexBytes;
    var w, n := AddressDigits(pos), 2 * |bytes|;
    var front := "0x" + Hex(pos, w) + ":" + Blanks(4 - w);
    var back := Blanks(18 + w - n) + "| " + source;
    assert Text(pos, false, bytes, source) == front + HexBytes(bytes) + back;
    assert |front| == 7;
  }

  /** Loading a line of the listing stores its code at its address, and nothing else. */
  lemma PrintedIsLoaded(m: seq<Byte>, pos: nat, bytes: seq<Byte>, source: string)
    requires |bytes| <= 10 && pos <= 0xFFFF && (bytes == [] || pos + |bytes| <= |m|)
    ensures LoadLine(m, Text(pos, false, bytes, source)) == Some(StoreBytes(m, pos, bytes))
  {
    hide Hex, HexBytes, LoadBytes, HexValue, Text;
    var s, w, n := Text(pos, false, bytes, source), AddressDigits(pos), 2 * |bytes|;
    TextParts(pos, bytes, source);
    SkipSpaceIs(s, 0, 0);
    assert Pow16(3) == 0x1000 && Pow16(4) == 0x1_0000;
    HexValueOf(s, 2, pos, w);
    SkipHexIs(s, 2, 2 + w);
    SkipSpaceIs(s, 2 + w, 2 + w);
    var c := if n > 0 then 7 else 25 + w;
    if n > 0 {
      FirstDigit(bytes);
      assert s[7..7 + n][0] == s[7];
    }
    SkipSpaceIs(s, 3 + w, c);
    BytesAreLoaded(m, s, c, c + n, pos, bytes);
  }

  /** An empty source line loads nothing. */
  lemma EmptyIsNotLoaded(m: seq<Byte>, pos: int, source: string)
    ensures LoadLine(m, Text(pos, true, [], source)) == Some(m)
  {
    hide Text, LoadBytes, HexValue;
    EmptyIsSkipped(pos, source);
    SkipSpaceIs(Text(pos, true, [], source), 0, 25 + AddressDigits(pos));
  }

  lemma FirstDigit(bytes: seq<Byte>)
    requires bytes != []
    ensures IsHex(HexBytes(bytes)[0])
  {
    ByteDigits(bytes);
    DigitRoundTrip(bytes[0] / 16);
  }

  lemma EmptyIsSkipped(pos: int, source: string)
    ensures var s, c := Text(pos, true, [], source), 25 + AddressDigits(pos);
      c < |s| && s[c] == '|' && forall k :: 0 <= k < c ==> s[k] == ' '
  {}

  lemma SkipSpaceIs(line: string, i: nat, j: nat)
    requires i <= j && !IsSpace(At(line, j)) && forall k :: i <= k < j ==> IsSpace(At(line, k))
    ensures SkipSpace(line, i) == j
  {}

  lemma SkipHexIs(line: string, i: nat, j: nat)
    requires i <= j && !IsHex(At(line, j)) && forall k :: i <= k < j ==> IsHex(At(line, k))
    ensures SkipHex(line, i) == j
  {}
}
