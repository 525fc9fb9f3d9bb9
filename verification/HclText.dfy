/** For which expressions the generated text is the text that is meant. */
module HclText {
  import opened Options
  import opened Words
  import opened HclTree
  import opened HclRead
  import opened HclCode
  import opened HclGenerates

  // ----- conditions on the expression -----

  predicate HasRows(e: Expr) {
    e.Case? ==> e.rows.Row?
  }

  /** No element of a set is a case expression without rows; rows behind a condition 1 are not looked at. */
  predicate NoEmptyElement(e: Expr)
    decreases e
  {
    match e
    case Var(_) => true
    case Num(_) => true
    case Not(a) => NoEmptyElement(a)
    case And(a, b) => NoEmptyElement(a) && NoEmptyElement(b)
    case Or(a, b) => NoEmptyElement(a) && NoEmptyElement(b)
    case Comp(_, a, b) => NoEmptyElement(a) && NoEmptyElement(b)
    case In(a, b, others) => NoEmptyElement(a) && HasRows(b) && NoEmptyElement(b) && NoEmptyElements(others)
    case Case(rows) => NoEmptyElementInRows(rows)
  }

  predicate NoEmptyElements(elems: Elems)
    decreases elems
  {
    elems.Elem? ==> HasRows(elems.head) && NoEmptyElement(elems.head) && NoEmptyElements(elems.tail)
  }

  predicate NoEmptyElementInRows(rows: Rows)
    decreases rows
  {
    rows.Row? ==>
      NoEmptyElement(rows.cond) && NoEmptyElement(rows.val) && (IsOne(rows.cond) || NoEmptyElementInRows(rows.rest))
  }

  /** Taken for a row, the expression would be the row 1: 0, which prints like the end of a case expression. */
  predicate ReadsAsDefault(e: Expr) {
    match e
    case And(a, b) => IsOne(a) && b == Num(0)
    case Or(a, b) => IsOne(a) && b == Num(0)
    case Comp(_, a, b) => IsOne(a) && b == Num(0)
    case In(a, b, _) => IsOne(a) && b == Num(0)
    case Case(rows) => rows.Row? && IsOne(rows.cond) && rows.val == Num(0)
    case _ => false
  }

  /** An element of a set prints alike in the list: a case expression must be a single row, and if its
      condition is not 1, it must be the last, or what follows must print like its end. */
  predicate PrintsInSet(b: Expr, others: Elems) {
    b.Case? ==>
      && b.rows.Row? && b.rows.rest.NoRow?
      && (IsOne(b.rows.cond) || others.End? || ReadsAsDefault(others.head))
  }

  predicate Printable(e: Expr)
    decreases e
  {
    match e
    case Var(_) => true
    case Num(_) => true
    case Not(a) => Printable(a)
    case And(a, b) => Printable(a) && Printable(b)
    case Or(a, b) => Printable(a) && Printable(b)
    case Comp(_, a, b) => Printable(a) && Printable(b)
    case In(a, b, others) => Printable(a) && Printable(b) && PrintsInSet(b, others) && PrintableElems(others)
    case Case(rows) => PrintableRows(rows)
  }

  predicate PrintableElems(elems: Elems)
    decreases elems
  {
    elems.Elem? ==> Printable(elems.head) && PrintsInSet(elems.head, elems.tail) && PrintableElems(elems.tail)
  }

  predicate PrintableRows(rows: Rows)
    decreases rows
  {
    rows.Row? ==> Printable(rows.cond) && Printable(rows.val) && (IsOne(rows.cond) || PrintableRows(rows.rest))
  }

  /** Expressions whose nodes are read back as themselves are among them. */
  lemma {:induction false} ProperIsPrintable(e: Expr)
    requires Proper(e)
    ensures Printable(e)
    decreases e
  {
    match e
    case Var(_) =>
    case Num(_) =>
    case Not(a) => ProperIsPrintable(a);
    case And(a, b) => ProperIsPrintable(a); ProperIsPrintable(b);
    case Or(a, b) => ProperIsPrintable(a); ProperIsPrintable(b);
    case Comp(_, a, b) => ProperIsPrintable(a); ProperIsPrintable(b);
    case In(a, b, others) =>
      ProperIsPrintable(a);
      ProperIsPrintable(b);
      ProperElemsArePrintable(others);
    case Case(rows) => ProperRowsArePrintable(rows);
  }

  lemma {:induction false} ProperElemsArePrintable(elems: Elems)
    requires ProperElems(elems)
    ensures PrintableElems(elems)
    decreases elems
  {
    if elems.Elem? {
      ProperIsPrintable(elems.head);
      ProperElemsArePrintable(elems.tail);
    }
  }

  lemma {:induction false} ProperRowsArePrintable(rows: Rows)
    requires ProperRows(rows)
    ensures PrintableRows(rows)
    decreases rows
  {
    if rows.Row? {
      ProperIsPrintable(rows.cond);
      ProperIsPrintable(rows.val);
      if !IsOne(rows.cond) {
        ProperRowsArePrintable(rows.rest);
      }
    }
  }

  // ----- comparing texts piece by piece -----

  /** If no piece of a text is shorter than the one that is meant, the texts are equal exactly if all
      pieces are. */
  lemma SamePieces(x: seq<Token>, t: Token, y: seq<Token>, x': seq<Token>, y': seq<Token>)
    requires |x| >= |x'| && |y| >= |y'|
    ensures x + [t] + y == x' + [t] + y' <==> x == x' && y == y'
  {
    var s, s' := x + [t] + y, x' + [t] + y';
    if s == s' {
      assert x == s[..|x|] && x' == s'[..|x'|] && y == s[|x| + 1..] && y' == s'[|x'| + 1..];
    }
  }

  lemma Enclosed(s: seq<Token>, s': seq<Token>)
    ensures [Infix(BarBar)] + s == [Infix(BarBar)] + s' <==> s == s'
    ensures [LParen] + s + [RParen] == [LParen] + s' + [RParen] <==> s == s'
    ensures [Bang] + s == [Bang] + s' <==> s == s'
  {
    var p, p' := [LParen] + s + [RParen], [LParen] + s' + [RParen];
    assert s == p[1..|p| - 1] && s' == p'[1..|p'| - 1];
    assert s == ([Infix(BarBar)] + s)[1..] && s' == ([Infix(BarBar)] + s')[1..];
    assert s == ([Bang] + s)[1..] && s' == ([Bang] + s')[1..];
  }

  lemma SamePair(x: seq<Token>, t: Token, y: seq<Token>, x': seq<Token>, y': seq<Token>)
    requires |x| >= |x'| && |y| >= |y'|
    ensures [LParen] + x + [t] + y + [RParen] == [LParen] + x' + [t] + y' + [RParen] <==> x == x' && y == y'
  {
    SamePieces(x, t, y, x', y');
    Enclosed(x + [t] + y, x' + [t] + y');
    assert [LParen] + x + [t] + y + [RParen] == [LParen] + (x + [t] + y) + [RParen];
    assert [LParen] + x' + [t] + y' + [RParen] == [LParen] + (x' + [t] + y') + [RParen];
  }

  /** An equation and what follows it in the text of a set. */
  lemma SameEquations(a: seq<Token>, b: seq<Token>, r: seq<Token>, a': seq<Token>, b': seq<Token>, r': seq<Token>)
    requires |a| >= |a'| && |b| >= |b'| && |r| >= |r'|
    ensures a + [Infix(Cmp(Eq))] + b + r == a' + [Infix(Cmp(Eq))] + b' + r' <==> a == a' && b == b' && r == r'
  {
    var s, s' := a + [Infix(Cmp(Eq))] + b, a' + [Infix(Cmp(Eq))] + b';
    SamePieces(a, Infix(Cmp(Eq)), b, a', b');
    if s + r == s' + r' {
      assert s == (s + r)[..|s|] && s' == (s' + r')[..|s'|] && r == (s + r)[|s|..] && r' == (s' + r')[|s'|..];
    }
  }

  /** A row and the rows behind it. */
  lemma SameRows(c: seq<Token>, v: seq<Token>, r: seq<Token>, c': seq<Token>, v': seq<Token>, r': seq<Token>)
    requires |c| >= |c'| && |v| >= |v'| && |r| >= |r'|
    ensures c + [Question] + v + [Token.Colon] + r == c' + [Question] + v' + [Token.Colon] + r'
       <==> c == c' && v == v' && r == r'
  {
    SamePieces(c, Question, v, c', v');
    SamePieces(c + [Question] + v, Token.Colon, r, c' + [Question] + v', r');
  }

  // ----- the end of a case expression -----

  lemma HeadKind(e: Expr)
    ensures (Build(e).Node? && Build(e).kind == KNum(1)) <==> IsOne(e)
    ensures (Build(e).Node? && Build(e).kind == KNum(0)) <==> e == Num(0)
  {
    if e.Case? {
      RowsAreCases(Null, e.rows);
    }
  }

  /** The list of a set begins with the node built for its first element, unless that is an empty case. */
  lemma FirstNode(b: Expr, rest: Node)
    requires HasRows(b)
    ensures var n, list := Build(b), Concat(Build(b), rest);
      n.Node? && list == n.(next := Concat(n.next, rest)) && (!b.Case? ==> n.next == Null)
  {
    if b.Case? {
      RowsAreChained(Null, b.rows);
    }
  }

  predicate IsDefault(n: Node) {
    n.Node? && n.arg1.Node? && n.arg1.kind == KNum(1) && n.arg2.Node? && n.arg2.kind == KNum(0)
  }

  /** How the generator sees an element when it takes it for a row. */
  lemma ElementAsRow(b: Expr, rest: Node)
    requires HasRows(b) && NoEmptyElement(b)
    ensures IsDefault(Concat(Build(b), rest)) <==> ReadsAsDefault(b)
  {
    FirstNode(b, rest);
    if b.Case? {
      RowsAreChained(Null, b.rows);
      HeadKind(b.rows.cond);
      HeadKind(b.rows.val);
    } else if b.In? {
      ElemsAreChained(Build(b.first), b.others);
      FirstNode(b.first, Chain(b.others));
      HeadKind(b.arg);
      HeadKind(b.first);
    } else if b.And? || b.Or? || b.Comp? {
      HeadKind(b.left);
      HeadKind(b.right);
    }
  }

  lemma ZeroIsPrinted(st: seq<Symbol>, n: Node)
    requires GenExpr(st, n).Some?
    ensures |GenExpr(st, n).value| >= 1
    ensures GenExpr(st, n).value == [Number(0)] <==> n.kind == KNum(0)
  {}

  lemma DefaultIsPrinted(st: seq<Symbol>, n: Node)
    requires GenRows(st, n).Some?
    ensures |GenRows(st, n).value| >= 1
    ensures GenRows(st, n).value == [Number(0)] <==> n.Null? || IsDefault(n)
  {
    if n.Node? {
      ZeroIsPrinted(st, n.arg2);
    }
  }

  // ----- the text is the one that is meant -----

  /** The rows end in one with condition 1. */
  predicate EndsInOne(rows: Rows) {
    rows.Row? && (IsOne(rows.cond) || EndsInOne(rows.rest))
  }

  /** Where the generator gets through, its code is the text that is meant, with no case expression without
      rows in a set, exactly for printable expressions. */
  lemma TextExactly(st: seq<Symbol>, e: Expr)
    requires Generates(st, e)
    ensures GenExpr(st, Build(e)).Some?
    ensures Printable(e) <==> NoEmptyElement(e) && GenExpr(st, Build(e)) == Some(Text(e))
  {
    GeneratesExactly(st, e);
    if Printable(e) {
      PrintableHasRows(e);
    }
    if NoEmptyElement(e) {
      ExprExactly(st, e);
    }
  }

  lemma {:induction false} PrintableHasRows(e: Expr)
    requires Printable(e)
    ensures NoEmptyElement(e)
    decreases e
  {
    match e
    case Var(_) =>
    case Num(_) =>
    case Not(a) => PrintableHasRows(a);
    case And(a, b) => PrintableHasRows(a); PrintableHasRows(b);
    case Or(a, b) => PrintableHasRows(a); PrintableHasRows(b);
    case Comp(_, a, b) => PrintableHasRows(a); PrintableHasRows(b);
    case In(a, b, others) =>
      PrintableHasRows(a);
      PrintableHasRows(b);
      PrintableElemsHaveRows(others);
    case Case(rows) => PrintableRowsHaveRows(rows);
  }

  lemma {:induction false} PrintableElemsHaveRows(elems: Elems)
    requires PrintableElems(elems)
    ensures NoEmptyElements(elems)
    decreases elems
  {
    if elems.Elem? {
      PrintableHasRows(elems.head);
      PrintableElemsHaveRows(elems.tail);
    }
  }

  lemma {:induction false} PrintableRowsHaveRows(rows: Rows)
    requires PrintableRows(rows)
    ensures NoEmptyElementInRows(rows)
    decreases rows
  {
    if rows.Row? {
      PrintableHasRows(rows.cond);
      PrintableHasRows(rows.val);
      if !IsOne(rows.cond) {
        PrintableRowsHaveRows(rows.rest);
      }
    }
  }

  /** Without such an empty case, what is printed is never shorter than what is meant. */
  lemma {:induction false} ExprExactly(st: seq<Symbol>, e: Expr)
    requires NoEmptyElement(e) && GenExpr(st, Build(e)).Some?
    ensures |GenExpr(st, Build(e)).value| >= |Text(e)|
    ensures GenExpr(st, Build(e)).value == Text(e) <==> Printable(e)
    decreases e, 1
  {
    match e
    case Var(_) =>
    case Num(_) =>
    case Not(a) =>
      ExprExactly(st, a);
      Enclosed(GenExpr(st, Build(a)).value, Text(a));
    case And(a, b) =>
      ExprExactly(st, a);
      ExprExactly(st, b);
      SamePair(GenExpr(st, Build(a)).value, Infix(Amp), GenExpr(st, Build(b)).value, Text(a), Text(b));
    case Or(a, b) =>
      ExprExactly(st, a);
      ExprExactly(st, b);
      SamePair(GenExpr(st, Build(a)).value, Infix(Bar), GenExpr(st, Build(b)).value, Text(a), Text(b));
    case Comp(op, a, b) =>
      ExprExactly(st, a);
      ExprExactly(st, b);
      SamePair(GenExpr(st, Build(a)).value, Infix(Cmp(op)), GenExpr(st, Build(b)).value, Text(a), Text(b));
    case In(a, b, others) =>
      ElemsAreChained(Build(b), others);
      ExprExactly(st, a);
      var ga, ta, list := GenExpr(st, Build(a)).value, Text(a), Concat(Build(b), Chain(others));
      AfterElement(st, ga, b, Chain(others));
      NodeExactly(st, b, Chain(others));
      ElemsExactly(st, ga, ta, others);
      SetExactly(st, ga, ta, b, others);
      Enclosed(GenElems(st, ga, list).value, ta + [Infix(Cmp(Eq))] + Text(b) + ElemsText(ta, others));
    case Case(rows) =>
      RowsAreChained(Null, rows);
      ConcatNull(RowChain(rows));
      RowsExactly(st, rows, Null);
      Enclosed(GenRows(st, Build(e)).value, RowsText(rows));
  }

  /** An element, in front of the rest of the list. */
  lemma {:induction false} NodeExactly(st: seq<Symbol>, b: Expr, rest: Node)
    requires HasRows(b) && NoEmptyElement(b) && GenExpr(st, Concat(Build(b), rest)).Some?
    ensures |GenExpr(st, Concat(Build(b), rest)).value| >= |Text(b)|
    ensures GenExpr(st, Concat(Build(b), rest)).value == Text(b)
       <==> Printable(b) && (b.Case? && !EndsInOne(b.rows) ==> GenRows(st, rest) == Some([Number(0)]))
    decreases b, 2
  {
    FirstNode(b, rest);
    var list := Concat(Build(b), rest);
    if b.Case? {
      RowsAreChained(Null, b.rows);
      RowsExactly(st, b.rows, rest);
      Enclosed(GenRows(st, list).value, RowsText(b.rows));
    } else {
      assert GenExpr(st, list) == GenExpr(st, Build(b));
      ExprExactly(st, b);
    }
  }

  lemma {:induction false} RowsExactly(st: seq<Symbol>, rows: Rows, rest: Node)
    requires NoEmptyElementInRows(rows) && GenRows(st, Concat(RowChain(rows), rest)).Some?
    ensures |GenRows(st, Concat(RowChain(rows), rest)).value| >= |RowsText(rows)|
    ensures GenRows(st, Concat(RowChain(rows), rest)).value == RowsText(rows)
       <==> PrintableRows(rows) && (!EndsInOne(rows) ==> GenRows(st, rest) == Some([Number(0)]))
    decreases rows, 0
  {
    var list := Concat(RowChain(rows), rest);
    if rows.NoRow? {
      DefaultIsPrinted(st, rest);
    } else {
      HeadKind(rows.cond);
      ExprExactly(st, rows.val);
      if !IsOne(rows.cond) {
        ExprExactly(st, rows.cond);
        RowsExactly(st, rows.rest, rest);
        SameRows(GenExpr(st, Build(rows.cond)).value, GenExpr(st, Build(rows.val)).value, GenRows(st, list.next).value,
          Text(rows.cond), Text(rows.val), RowsText(rows.rest));
      }
    }
  }

  /** The text of a list that is the rest of a set. */
  function Following(st: seq<Symbol>, a: seq<Token>, n: Node): seq<Token>
    requires GenElems(st, a, n).Some?
  {
    if n.Null? then [] else [Infix(BarBar)] + GenElems(st, a, n).value
  }

  lemma {:induction false} ElemsExactly(st: seq<Symbol>, ga: seq<Token>, ta: seq<Token>, elems: Elems)
    requires NoEmptyElements(elems) && GenElems(st, ga, Chain(elems)).Some? && |ga| >= |ta|
    ensures |Following(st, ga, Chain(elems))| >= |ElemsText(ta, elems)|
    ensures Following(st, ga, Chain(elems)) == ElemsText(ta, elems)
       <==> elems.End? || (ga == ta && PrintableElems(elems))
    decreases elems, 3
  {
    hide GenExpr, GenElems, GenRows, Text, Build, Concat, Printable, PrintsInSet, NoEmptyElement;
    if elems.Elem? {
      hide Following, ElemsText;
      AfterElement(st, ga, elems.head, Chain(elems.tail));
      NodeExactly(st, elems.head, Chain(elems.tail));
      ElemsExactly(st, ga, ta, elems.tail);
      SetExactly(st, ga, ta, elems.head, elems.tail);
      var g, t := GenElems(st, ga, Chain(elems)).value, ta + [Infix(Cmp(Eq))] + Text(elems.head) + ElemsText(ta, elems.tail);
      FirstOfOthers(st, ga, ta, elems);
      Enclosed(g, t);
    }
  }

  lemma FirstOfOthers(st: seq<Symbol>, ga: seq<Token>, ta: seq<Token>, elems: Elems)
    requires elems.Elem? && HasRows(elems.head) && GenElems(st, ga, Chain(elems)).Some?
    ensures Following(st, ga, Chain(elems)) == [Infix(BarBar)] + GenElems(st, ga, Chain(elems)).value
    ensures ElemsText(ta, elems)
         == [Infix(BarBar)] + (ta + [Infix(Cmp(Eq))] + Text(elems.head) + ElemsText(ta, elems.tail))
  {
    FirstNode(elems.head, Chain(elems.tail));
  }

  /** What is printed behind the first node of an element: more than the rest of the list exactly if the
      element has more nodes. */
  lemma AfterElement(st: seq<Symbol>, a: seq<Token>, b: Expr, rest: Node)
    requires HasRows(b) && GenElems(st, a, Concat(Build(b), rest)).Some?
    ensures var list := Concat(Build(b), rest);
      && list.Node? && GenExpr(st, list).Some? && GenElems(st, a, list.next).Some? && GenElems(st, a, rest).Some?
      && GenElems(st, a, list).value == a + [Infix(Cmp(Eq))] + GenExpr(st, list).value + Following(st, a, list.next)
      && (if b.Case? && b.rows.rest.Row? then |Following(st, a, list.next)| > |Following(st, a, rest)|
          else list.next == rest)
  {
    FirstNode(b, rest);
    if b.Case? {
      RowsAreChained(Null, b.rows);
      MoreRows(st, a, b.rows.rest, rest);
    }
  }

  lemma {:induction false} MoreRows(st: seq<Symbol>, a: seq<Token>, rows: Rows, rest: Node)
    requires GenElems(st, a, Concat(RowChain(rows), rest)).Some?
    ensures GenElems(st, a, rest).Some?
    ensures rows.Row? ==> |Following(st, a, Concat(RowChain(rows), rest))| > |Following(st, a, rest)|
    decreases rows
  {
    if rows.Row? {
      MoreRows(st, a, rows.rest, rest);
    }
  }

  /** The equation of one element in front of those of the others. */
  lemma SetExactly(st: seq<Symbol>, ga: seq<Token>, ta: seq<Token>, b: Expr, others: Elems)
    requires HasRows(b) && NoEmptyElements(others) && |ga| >= |ta|
    requires var list := Concat(Build(b), Chain(others));
      && list.Node? && GenExpr(st, list).Some? && GenElems(st, ga, list).Some?
      && GenElems(st, ga, list.next).Some? && GenElems(st, ga, Chain(others)).Some?
      && GenElems(st, ga, list).value == ga + [Infix(Cmp(Eq))] + GenExpr(st, list).value + Following(st, ga, list.next)
      && (if b.Case? && b.rows.rest.Row? then |Following(st, ga, list.next)| > |Following(st, ga, Chain(others))|
          else list.next == Chain(others))
      && |GenExpr(st, list).value| >= |Text(b)|
      && (GenExpr(st, list).value == Text(b)
          <==> Printable(b) && (b.Case? && !EndsInOne(b.rows) ==> GenRows(st, Chain(others)) == Some([Number(0)])))
    requires |Following(st, ga, Chain(others))| >= |ElemsText(ta, others)|
    requires Following(st, ga, Chain(others)) == ElemsText(ta, others)
         <==> others.End? || (ga == ta && PrintableElems(others))
    ensures var g, t := GenElems(st, ga, Concat(Build(b), Chain(others))).value, ta + [Infix(Cmp(Eq))] + Text(b) + ElemsText(ta, others);
      && |g| >= |t|
      && (g == t <==> ga == ta && Printable(b) && PrintsInSet(b, others) && PrintableElems(others))
  {
    var list := Concat(Build(b), Chain(others));
    SameEquations(ga, GenExpr(st, list).value, Following(st, ga, list.next), ta, Text(b), ElemsText(ta, others));
    if b.Case? && b.rows.rest.NoRow? && !IsOne(b.rows.cond) {
      BehindRow(st, b.rows, others);
    }
  }

  /** When a single row without condition 1 ends where it should. */
  lemma BehindRow(st: seq<Symbol>, rows: Rows, others: Elems)
    requires rows.Row? && rows.rest.NoRow? && !IsOne(rows.cond)
    requires NoEmptyElements(others) && GenExpr(st, Concat(Build(Case(rows)), Chain(others))).Some?
    ensures GenRows(st, Chain(others)) == Some([Number(0)]) <==> others.End? || ReadsAsDefault(others.head)
  {
    FirstNode(Case(rows), Chain(others));
    RowsAreChained(Null, rows);
    HeadKind(rows.cond);
    DefaultIsPrinted(st, Chain(others));
    if others.Elem? {
      FirstNode(others.head, Chain(others.tail));
      ElementAsRow(others.head, Chain(others.tail));
    }
  }
}
