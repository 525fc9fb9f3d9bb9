/** Generated code means what the expression means. */
module HclCorrect {
  import opened Words
  import opened Options
  import opened HclTree
  import opened HclRead
  import opened HclCode
  import opened HclGenerates
  import opened HclText

  // ----- the text generated for nodes is that of the expression they are read as -----

  lemma {:induction false} GenIsText(st: seq<Symbol>, n: Node)
    requires Read(n).Some?
    ensures var e := Read(n).value; GenExpr(st, n) == if Declared(st, e) then Some(Text(e)) else None
    decreases n, 1
  {
    if n.kind == KNot {
      GenIsText(st, n.arg1);
    } else if n.kind in {KAnd, KOr} || n.kind.KComp? {
      GenIsText(st, n.arg1);
      GenIsText(st, n.arg2);
    } else if n.kind == KEle {
      GenIsText(st, n.arg1);
      GenIsElemsText(st, Text(Read(n.arg1).value), n.arg2);
    } else if n.kind == KCase {
      GenIsRowsText(st, n);
    }
  }

  lemma {:induction false} GenIsElemsText(st: seq<Symbol>, a: seq<Token>, ele: Node)
    requires ele.Node? && Read(ele).Some? && ReadElems(ele.next).Some?
    ensures var b, others := Read(ele).value, ReadElems(ele.next).value;
      GenElems(st, a, ele) == if Declared(st, b) && DeclaredElems(st, others)
                              then Some(a + [Infix(Cmp(Eq))] + Text(b) + ElemsText(a, others)) else None
    decreases ele, 2
  {
    GenIsText(st, ele);
    var equation, others := a + [Infix(Cmp(Eq))] + Text(Read(ele).value), ReadElems(ele.next).value;
    if ele.next.Node? {
      GenIsElemsText(st, a, ele.next);
      var more := a + [Infix(Cmp(Eq))] + Text(others.head) + ElemsText(a, others.tail);
      assert equation + [Infix(BarBar)] + more == equation + ElemsText(a, others);
    } else {
      assert equation + [] + [] == equation + ElemsText(a, others);
    }
  }

  lemma {:induction false} GenIsRowsText(st: seq<Symbol>, ele: Node)
    requires ReadRows(ele).Some?
    ensures var rows := ReadRows(ele).value;
      GenRows(st, ele) == if DeclaredRows(st, rows) then Some(RowsText(rows)) else None
    decreases ele, 0
  {
    if ele.Node? {
      GenIsText(st, ele.arg2);
      if !IsOne(Read(ele.arg1).value) {
        GenIsText(st, ele.arg1);
        GenIsRowsText(st, ele.next);
      }
    }
  }

  // ----- the text parses to the syntax tree -----

  /** What follows does not continue an expression of level k. */
  predicate Stops(k: nat, rest: seq<Token>) {
    rest != [] ==> (rest[0].Infix? ==> Level(rest[0].op) < k) && (rest[0] == Question ==> k > 0)
  }

  /** An expression of some level is also one of every looser level, if nothing continues it there. */
  lemma {:induction false} Climb(j: nat, k: nat, ts: seq<Token>, c: CExpr, rest: seq<Token>)
    requires k <= j <= UNARY && ParseAt(j, ts) == Some((c, rest)) && Stops(k, rest)
    ensures ParseAt(k, ts) == Some((c, rest))
    decreases j - k
  {
    if k < j {
      Climb(j, k + 1, ts, c, rest);
      if k > 0 {
        assert ParseInfix(k, c, rest) == Some((c, rest));
      }
    }
  }

  lemma InfixParses(op: Op, ts: seq<Token>, a: CExpr, rest1: seq<Token>, b: CExpr, rest: seq<Token>, k: nat)
    requires ParseAt(UNARY, ts) == Some((a, rest1)) && Starts(rest1, Infix(op))
    requires ParseAt(UNARY, rest1[1..]) == Some((b, rest)) && Stops(k, rest) && k <= Level(op)
    ensures ParseAt(k, ts) == Some((Binary(op, a, b), rest))
  {
    var j := Level(op);
    Climb(UNARY, j + 1, ts, a, rest1);
    Climb(UNARY, j + 1, rest1[1..], b, rest);
    assert ParseInfix(j, Binary(op, a, b), rest) == Some((Binary(op, a, b), rest));
    assert ParseAt(j, ts) == ParseInfix(j, a, rest1);
    Climb(j, k, ts, Binary(op, a, b), rest);
  }

  lemma UnaryIsLevel(ts: seq<Token>)
    ensures ParseAt(UNARY, ts) == ParseUnary(ts)
  {}

  lemma ParenthesesParse(ts: seq<Token>, c: CExpr, rest: seq<Token>)
    requires Starts(ts, LParen) && Starts(rest, RParen) && ParseAt(0, ts[1..]) == Some((c, rest))
    ensures ParseAt(UNARY, ts) == Some((c, rest[1..]))
  {
    UnaryIsLevel(ts);
  }

  /** Two operands and the operator between them in parentheses. */
  lemma PairParses(op: Op, ta: seq<Token>, a: CExpr, tb: seq<Token>, b: CExpr, rest: seq<Token>)
    requires ParseAt(UNARY, ta + ([Infix(op)] + (tb + ([RParen] + rest))))
         == Some((a, [Infix(op)] + (tb + ([RParen] + rest))))
    requires ParseAt(UNARY, tb + ([RParen] + rest)) == Some((b, [RParen] + rest))
    ensures ParseAt(UNARY, [LParen] + ta + [Infix(op)] + tb + [RParen] + rest) == Some((Binary(op, a, b), rest))
  {
    hide ParseAt, ParseInfix, ParseUnary;
    var r := [RParen] + rest;
    var r1 := [Infix(op)] + (tb + r);
    var ts := [LParen] + ta + [Infix(op)] + tb + [RParen] + rest;
    assert ts[1..] == ta + r1 && r1[1..] == tb + r && r[1..] == rest;
    InfixParses(op, ts[1..], a, r1, b, r, 0);
    ParenthesesParse(ts, Binary(op, a, b), r);
  }

  /** The text of an expression, whatever follows, parses to its tree. */
  ghost predicate Parseable(e: Expr) {
    forall rest :: ParseAt(UNARY, Text(e) + rest) == Some((Tree(e), rest))
  }

  lemma ParseableAt(e: Expr, rest: seq<Token>)
    requires Parseable(e)
    ensures ParseAt(UNARY, Text(e) + rest) == Some((Tree(e), rest))
  {}

  lemma {:induction false} TextParses(e: Expr)
    ensures Parseable(e)
    decreases e
  {
    hide ParseAt, ParseInfix, ParseUnary;
    match e
    case Var(name) => LeafParses(e);
    case Num(n) => LeafParses(e);
    case Not(a) => TextParses(a); NotParses(a);
    case And(a, b) => TextParses(a); TextParses(b); OperationParses(e, Amp, a, b);
    case Or(a, b) => TextParses(a); TextParses(b); OperationParses(e, Bar, a, b);
    case Comp(op, a, b) => TextParses(a); TextParses(b); OperationParses(e, Cmp(op), a, b);
    case In(a, b, others) =>
      TextParses(a);
      TextParses(b);
      ElemsParse(a, others);
      InParses(a, b, others);
    case Case(rows) =>
      RowsParse(rows);
      CaseParses(rows);
  }

  lemma LeafParses(e: Expr)
    requires e.Var? || e.Num?
    ensures Parseable(e)
  {
    hide ParseAt, ParseInfix;
    forall rest ensures ParseAt(UNARY, Text(e) + rest) == Some((Tree(e), rest)) {
      var ts, r := Text(e) + rest, [RParen] + rest;
      UnaryIsLevel(ts);
      if e.Var? {
        var quoted := [Quoted(e.name)] + r;
        UnaryIsLevel(quoted);
        assert ts[1..] == quoted && r[1..] == rest && quoted[1..] == r;
        Climb(UNARY, 0, quoted, Quote(e.name), r);
        ParenthesesParse(ts, Quote(e.name), r);
      } else if e.n < 0 {
        assert ts[1..] == [Number(Opposite(e.n))] + rest && ts[1..][1..] == rest;
      } else {
        assert ts[1..] == rest;
      }
    }
  }

  lemma BangParses(ts: seq<Token>, a: CExpr, rest: seq<Token>)
    requires Starts(ts, Bang) && ParseAt(UNARY, ts[1..]) == Some((a, rest))
    ensures ParseAt(UNARY, ts) == Some((LogicalNot(a), rest))
  {
    hide ParseAt;
    UnaryIsLevel(ts);
    UnaryIsLevel(ts[1..]);
  }

  lemma NotParses(a: Expr)
    requires Parseable(a)
    ensures Parseable(Not(a))
  {
    hide ParseAt, ParseInfix, ParseUnary;
    forall rest ensures ParseAt(UNARY, Text(Not(a)) + rest) == Some((Tree(Not(a)), rest)) {
      var ts := Text(Not(a)) + rest;
      ParseableAt(a, rest);
      assert ts[1..] == Text(a) + rest;
      BangParses(ts, Tree(a), rest);
    }
  }

  lemma OperationParses(e: Expr, op: Op, a: Expr, b: Expr)
    requires Parseable(a) && Parseable(b)
    requires Text(e) == [LParen] + Text(a) + [Infix(op)] + Text(b) + [RParen] && Tree(e) == Binary(op, Tree(a), Tree(b))
    ensures Parseable(e)
  {
    hide ParseAt, ParseInfix;
    forall rest ensures ParseAt(UNARY, Text(e) + rest) == Some((Tree(e), rest)) {
      ParseableAt(a, [Infix(op)] + (Text(b) + ([RParen] + rest)));
      ParseableAt(b, [RParen] + rest);
      PairParses(op, Text(a), Tree(a), Text(b), Tree(b), rest);
    }
  }

  /** An equation of two operands, up to something looser. */
  lemma EquationParses(a: Expr, b: Expr, rest: seq<Token>)
    requires Parseable(a) && Parseable(b) && Stops(2, rest)
    ensures ParseAt(2, Text(a) + ([Infix(Cmp(Eq))] + (Text(b) + rest)))
         == Some((Binary(Cmp(Eq), Tree(a), Tree(b)), rest))
  {
    hide ParseAt, ParseInfix;
    var rest1 := [Infix(Cmp(Eq))] + (Text(b) + rest);
    ParseableAt(a, rest1);
    ParseableAt(b, rest);
    assert rest1[1..] == Text(b) + rest;
    InfixParses(Cmp(Eq), Text(a) + rest1, Tree(a), rest1, Tree(b), rest, 2);
  }

  /** The equations for the first element of a set and for the others. */
  lemma SetParses(a: Expr, b: Expr, others: seq<Token>, c: CExpr, r: seq<Token>)
    requires Parseable(a) && Parseable(b) && Stops(2, others) && Starts(r, RParen)
    requires ParseInfix(1, Binary(Cmp(Eq), Tree(a), Tree(b)), others) == Some((c, r))
    ensures ParseAt(0, Text(a) + ([Infix(Cmp(Eq))] + (Text(b) + others))) == Some((c, r))
  {
    hide ParseInfix;
    EquationParses(a, b, others);
    var ts := Text(a) + ([Infix(Cmp(Eq))] + (Text(b) + others));
    assert ParseAt(1, ts) == Some((c, r));
    Climb(1, 0, ts, c, r);
  }

  /** Further equations of a set, up to the closing parenthesis. */
  ghost predicate ElemsParseable(a: Expr, elems: Elems) {
    forall left, r :: Starts(r, RParen) ==>
      ParseInfix(1, left, ElemsText(Text(a), elems) + r) == Some((ElemsTree(Tree(a), left, elems), r))
  }

  ghost predicate RowsParseable(rows: Rows) {
    forall r :: Starts(r, RParen) ==> ParseAt(0, RowsText(rows) + r) == Some((RowsTree(rows), r))
  }

  lemma {:induction false} ElemsParse(a: Expr, elems: Elems)
    requires Parseable(a)
    ensures ElemsParseable(a, elems)
    decreases elems
  {
    if elems.Elem? {
      TextParses(elems.head);
      ElemsParse(a, elems.tail);
      hide ParseAt, ParseInfix;
      forall left, r | Starts(r, RParen)
        ensures ParseInfix(1, left, ElemsText(Text(a), elems) + r) == Some((ElemsTree(Tree(a), left, elems), r))
      {
        ElemParses(a, left, elems, r);
      }
    } else {
      forall r: seq<Token> ensures ElemsText(Text(a), elems) + r == r {}
    }
  }

  lemma ElemsParseableAt(a: Expr, left: CExpr, elems: Elems, r: seq<Token>)
    requires ElemsParseable(a, elems) && Starts(r, RParen)
    ensures ParseInfix(1, left, ElemsText(Text(a), elems) + r) == Some((ElemsTree(Tree(a), left, elems), r))
  {}

  lemma ElemsStop(a: seq<Token>, elems: Elems, r: seq<Token>)
    requires Starts(r, RParen)
    ensures Stops(2, ElemsText(a, elems) + r)
  {}

  lemma ElemParses(a: Expr, left: CExpr, elems: Elems, r: seq<Token>)
    requires elems.Elem? && Parseable(a) && Parseable(elems.head) && ElemsParseable(a, elems.tail) && Starts(r, RParen)
    ensures ParseInfix(1, left, ElemsText(Text(a), elems) + r) == Some((ElemsTree(Tree(a), left, elems), r))
  {
    hide ParseAt, Parseable, Text, Tree;
    var ts := ElemsText(Text(a), elems) + r;
    var equation := Binary(Cmp(Eq), Tree(a), Tree(elems.head));
    var others := ElemsText(Text(a), elems.tail) + r;
    ElemsStop(Text(a), elems.tail, r);
    assert ts[0] == Infix(BarBar) && ts[1..] == Text(a) + ([Infix(Cmp(Eq))] + (Text(elems.head) + others));
    EquationParses(a, elems.head, others);
    assert ParseInfix(1, left, ts) == ParseInfix(1, Binary(BarBar, left, equation), others);
  }

  lemma SetText(a: Expr, b: Expr, others: Elems)
    ensures Text(In(a, b, others))
         == [LParen] + (Text(a) + [Infix(Cmp(Eq))] + Text(b) + ElemsText(Text(a), others)) + [RParen]
    ensures Tree(In(a, b, others)) == ElemsTree(Tree(a), Binary(Cmp(Eq), Tree(a), Tree(b)), others)
  {}

  lemma InParses(a: Expr, b: Expr, others: Elems)
    requires Parseable(a) && Parseable(b) && ElemsParseable(a, others)
    ensures Parseable(In(a, b, others))
  {
    hide ParseAt, ParseInfix, ParseUnary, ElemsParseable, Text, Tree, ElemsText, ElemsTree;
    var e := In(a, b, others);
    SetText(a, b, others);
    forall rest ensures ParseAt(UNARY, Text(e) + rest) == Some((Tree(e), rest)) {
      var ts, r, elems := Text(e) + rest, [RParen] + rest, ElemsText(Text(a), others);
      ElemsStop(Text(a), others, r);
      ElemsParseableAt(a, Binary(Cmp(Eq), Tree(a), Tree(b)), others, r);
      SetParses(a, b, elems + r, Tree(e), r);
      Regrouped(Text(a), Text(b), elems, rest);
      ParenthesesParse(ts, Tree(e), r);
    }
  }

  lemma Regrouped(ta: seq<Token>, tb: seq<Token>, elems: seq<Token>, rest: seq<Token>)
    ensures var ts, r := [LParen] + (ta + [Infix(Cmp(Eq))] + tb + elems) + [RParen] + rest, [RParen] + rest;
      Starts(ts, LParen) && ts[1..] == ta + ([Infix(Cmp(Eq))] + (tb + (elems + r))) && r[1..] == rest
  {}

  lemma CaseParses(rows: Rows)
    requires RowsParseable(rows)
    ensures Parseable(Case(rows))
  {
    hide ParseAt, ParseInfix, ParseUnary;
    var e := Case(rows);
    forall rest ensures ParseAt(UNARY, Text(e) + rest) == Some((Tree(e), rest)) {
      var ts, r := Text(e) + rest, [RParen] + rest;
      assert ts[1..] == RowsText(rows) + r && r[1..] == rest;
      ParenthesesParse(ts, Tree(e), r);
    }
  }

  lemma {:induction false} RowsParse(rows: Rows)
    ensures RowsParseable(rows)
    decreases rows
  {
    hide ParseInfix, ParseAt;
    if rows.Row? {
      TextParses(rows.cond);
      TextParses(rows.val);
      RowsParse(rows.rest);
    }
    forall r | Starts(r, RParen) ensures ParseAt(0, RowsText(rows) + r) == Some((RowsTree(rows), r)) {
      RowParses(rows, r);
    }
  }

  lemma RowParses(rows: Rows, r: seq<Token>)
    requires Starts(r, RParen)
    requires rows.Row? ==> Parseable(rows.cond) && Parseable(rows.val) && RowsParseable(rows.rest)
    ensures ParseAt(0, RowsText(rows) + r) == Some((RowsTree(rows), r))
  {
    hide ParseInfix, ParseAt, Text, Tree, Parseable;
    var ts := RowsText(rows) + r;
    if rows.NoRow? {
      UnaryIsLevel(ts);
      assert ts[1..] == r;
      Climb(UNARY, 0, ts, Literal(0), r);
    } else if IsOne(rows.cond) {
      ParseableAt(rows.val, r);
      Climb(UNARY, 0, ts, Tree(rows.val), r);
    } else {
      ConditionalParses(rows.cond, rows.val, RowsText(rows.rest) + r, RowsTree(rows.rest), r);
      assert ts == Text(rows.cond) + ([Question] + (Text(rows.val) + ([Token.Colon] + (RowsText(rows.rest) + r))));
    }
  }

  lemma ConditionalParses(a: Expr, yes: Expr, no: seq<Token>, c: CExpr, r: seq<Token>)
    requires Parseable(a) && Parseable(yes) && ParseAt(0, no) == Some((c, r))
    ensures ParseAt(0, Text(a) + ([Question] + (Text(yes) + ([Token.Colon] + no))))
         == Some((Conditional(Tree(a), Tree(yes), c), r))
  {
    hide ParseInfix;
    var rest' := [Token.Colon] + no;
    var rest := [Question] + (Text(yes) + rest');
    var ts := Text(a) + rest;
    ParseableAt(a, rest);
    ParseableAt(yes, rest');
    Climb(UNARY, 1, ts, Tree(a), rest);
    Climb(UNARY, 0, Text(yes) + rest', Tree(yes), rest');
    assert rest[1..] == Text(yes) + rest' && rest'[1..] == no;
  }

  // ----- the tree means what the expression means -----

  lemma {:induction false} ZeroBits(op: BitOp, n: nat)
    ensures -Pow2(n) <= 0 < Pow2(n) && Bitwise(op, 0, 0, n) == 0
  {
    if n > 0 {
      ZeroBits(op, n - 1);
    }
  }

  lemma OneBit(op: BitOp, x: int, y: int, n: nat)
    requires (x == 0 || x == 1) && (y == 0 || y == 1) && n > 0
    ensures x < Pow2(n) && y < Pow2(n) && Bitwise(op, x, y, n) == Truth(op.On(x == 1, y == 1))
  {
    ZeroBits(op, n - 1);
    assert x / 2 == 0 && y / 2 == 0;
  }

  /** On 0 and 1 the bitwise operators are the logical ones. */
  lemma BitOperators(x: Word, y: Word)
    requires (x == 0 || x == 1) && (y == 0 || y == 1)
    ensures And64(x, y) == Truth(x != 0 && y != 0) && Or64(x, y) == Truth(x != 0 || y != 0)
  {
    hide Bitwise, Pow2;
    Pow63();
    OneBit(AndOp, x, y, 63);
    OneBit(OrOp, x, y, 63);
  }

  /** For expressions that pass the type checks, the generated C evaluates to the meaning. */
  lemma {:induction false} TreeMeans(st: seq<Symbol>, e: Expr, env: string -> Word)
    requires Accepts(st, e) && BoolsAreBits(st, env)
    ensures Eval(Tree(e), env) == Meaning(e, env)
    decreases e
  {
    hide And64, Or64, BoolsAreBits, Build;
    match e
    case Var(_) =>
    case Num(n) =>
      assert n < 0 ==> Opposite(Wrap(Opposite(n))) == n || Wrap(Opposite(n)) == n;
    case Not(a) => TreeMeans(st, a, env);
    case And(a, b) => TreeMeans(st, a, env); TreeMeans(st, b, env); OperandsAreBits(st, a, b, env);
    case Or(a, b) => TreeMeans(st, a, env); TreeMeans(st, b, env); OperandsAreBits(st, a, b, env);
    case Comp(_, a, b) => TreeMeans(st, a, env); TreeMeans(st, b, env);
    case In(a, b, others) =>
      TreeMeans(st, a, env);
      TreeMeans(st, b, env);
      ElemsMean(st, a, Binary(Cmp(Eq), Tree(a), Tree(b)), others, env);
    case Case(rows) => RowsMean(st, rows, env);
  }

  lemma OperandsAreBits(st: seq<Symbol>, a: Expr, b: Expr, env: string -> Word)
    requires BoolsAreBits(st, env) && CheckArg(st, Build(a), true) && CheckArg(st, Build(b), true)
    ensures var x, y := Meaning(a, env), Meaning(b, env);
      And64(x, y) == Truth(x != 0 && y != 0) && Or64(x, y) == Truth(x != 0 || y != 0)
  {
    hide And64, Or64;
    BooleanIsBit(st, a, env);
    BooleanIsBit(st, b, env);
    BitOperators(Meaning(a, env), Meaning(b, env));
  }

  lemma {:induction false} ElemsMean(st: seq<Symbol>, a: Expr, left: CExpr, elems: Elems, env: string -> Word)
    requires AcceptsElems(st, elems) && BoolsAreBits(st, env) && Eval(Tree(a), env) == Meaning(a, env)
    requires Eval(left, env) == 0 || Eval(left, env) == 1
    ensures Eval(ElemsTree(Tree(a), left, elems), env)
         == Truth(Eval(left, env) != 0 || Among(Meaning(a, env), elems, env))
    decreases elems
  {
    hide And64, Or64, BoolsAreBits, Build;
    if elems.Elem? {
      TreeMeans(st, elems.head, env);
      ElemsMean(st, a, Binary(BarBar, left, Binary(Cmp(Eq), Tree(a), Tree(elems.head))), elems.tail, env);
    }
  }

  lemma {:induction false} RowsMean(st: seq<Symbol>, rows: Rows, env: string -> Word)
    requires AcceptsRows(st, rows) && BoolsAreBits(st, env)
    ensures Eval(RowsTree(rows), env) == FirstTrue(rows, env)
    decreases rows
  {
    hide And64, Or64, BoolsAreBits, Build;
    if rows.Row? {
      TreeMeans(st, rows.cond, env);
      TreeMeans(st, rows.val, env);
      RowsMean(st, rows.rest, env);
    }
  }

  // ----- the compiler is correct -----

  /** For every printable expression whose symbols are in the table, code is generated, and it is one C
      expression, by C's precedence, that evaluates to the expression's meaning. */
  lemma CodeIsCorrect(st: seq<Symbol>, e: Expr, env: string -> Word)
    requires Accepts(st, e) && Printable(e) && Generates(st, e) && BoolsAreBits(st, env)
    ensures GenExpr(st, Build(e)).Some? && Parses(GenExpr(st, Build(e)).value, Tree(e))
    ensures Eval(Tree(e), env) == Meaning(e, env)
  {
    TextExactly(st, e);
    TextParses(e);
    TreeMeans(st, e, env);
    var ts := Text(e);
    assert ts + [] == ts;
    ParseableAt(e, []);
    Climb(UNARY, 0, ts, Tree(e), []);
  }

  const COUNTER_ST: seq<Symbol> := [Symbol("b", true), Symbol("v", false), Symbol("x", false), Symbol("y", false)]

  /** v in {[b: x; 1: y;]} */
  const COUNTER: Expr := In(Var("v"), Case(Row(Var("b"), Var("x"), Row(Num(1), Var("y"), NoRow))), End)

  /** v in {[b: x; 1: y;], [1: y;]} */
  const MISREAD: Expr :=
    In(Var("v"), Case(Row(Var("b"), Var("x"), Row(Num(1), Var("y"), NoRow))), Elem(Case(Row(Num(1), Var("y"), NoRow)), End))

  lemma CounterBuilt()
    ensures var row2 := Node(KCase, false, Build(Num(1)), Build(Var("y")), Null);
      var row1 := Node(KCase, false, Build(Var("b")), Build(Var("x")), row2);
      Build(COUNTER) == NewNode(KEle, true, Build(Var("v")), row1)
  {
    var row2 := Node(KCase, false, Build(Num(1)), Build(Var("y")), Null);
    var row1 := Node(KCase, false, Build(Var("b")), Build(Var("x")), row2);
    RowsAreChained(Null, COUNTER.first.rows);
    assert RowChain(NoRow) == Null;
    assert RowChain(Row(Num(1), Var("y"), NoRow)) == row2;
    assert Build(COUNTER.first) == row1;
    assert BuildElems(row1, End) == row1;
  }

  lemma CounterIsMisread()
    ensures Read(Build(COUNTER)) == Some(MISREAD)
  {
    CounterBuilt();
    var row2 := Node(KCase, false, Build(Num(1)), Build(Var("y")), Null);
    var row1 := Node(KCase, false, Build(Var("b")), Build(Var("x")), row2);
    assert ReadRows(Null) == Some(NoRow) && ReadRows(row2) == Some(Row(Num(1), Var("y"), NoRow));
    assert ReadRows(row1) == Some(COUNTER.first.rows);
    assert ReadElems(Null) == Some(End);
    assert ReadElems(row2) == Some(MISREAD.others);
  }

  lemma CounterIsGenerated()
    ensures GenExpr(COUNTER_ST, Build(COUNTER)).Some?
  {
    CounterBuilt();
    FindCounterSymbols();
    var st, v, y := COUNTER_ST, Build(Var("v")), Build(Var("y"));
    var row2 := Node(KCase, false, Build(Num(1)), y, Null);
    var row1 := Node(KCase, false, Build(Var("b")), Build(Var("x")), row2);
    assert GenRows(st, row2) == GenExpr(st, y) && GenRows(st, row1).Some?;
    assert GenElems(st, GenExpr(st, v).value, Null).Some?;
    assert GenElems(st, GenExpr(st, v).value, row2).Some?;
  }

  lemma CounterIsAccepted()
    ensures Accepts(COUNTER_ST, COUNTER) && CheckArg(COUNTER_ST, Build(COUNTER), true)
  {
    FindCounterSymbols();
    var rows := COUNTER.first.rows;
    assert AcceptsRows(COUNTER_ST, NoRow);
    assert AcceptsRows(COUNTER_ST, rows.rest);
    assert AcceptsElems(COUNTER_ST, End);
  }

  lemma FindCounterSymbols()
    ensures FindSymbol(COUNTER_ST, "b") == Some(true)
    ensures forall name :: name in {"v", "x", "y"} ==> FindSymbol(COUNTER_ST, name) == Some(false)
  {
    assert COUNTER_ST[1..] == [Symbol("v", false), Symbol("x", false), Symbol("y", false)];
    assert COUNTER_ST[1..][1..] == [Symbol("x", false), Symbol("y", false)];
    assert COUNTER_ST[1..][1..][1..] == [Symbol("y", false)];
  }

  /** A case expression of two rows in a set: the second row becomes an element of its own, and the
      generated code finds there a value that is not in the set. */
  lemma CaseInSetGoesWrong(env: string -> Word)
    requires env("b") == 1 && env("v") == env("y") != env("x")
    ensures Accepts(COUNTER_ST, COUNTER) && CheckArg(COUNTER_ST, Build(COUNTER), true)
    ensures GenExpr(COUNTER_ST, Build(COUNTER)).Some?
    ensures Parses(GenExpr(COUNTER_ST, Build(COUNTER)).value, Tree(MISREAD))
    ensures Meaning(COUNTER, env) == 0 && Eval(Tree(MISREAD), env) == 1
  {
    CounterIsMisread();
    CounterIsGenerated();
    CounterIsAccepted();
    MisreadValue(env);
    TextParses(MISREAD);
    hide ParseAt, Tree, Read, GenExpr, Accepts, Text, Meaning, Eval, CheckArg, Build;
    GenIsText(COUNTER_ST, Build(COUNTER));
    ParseableAt(MISREAD, []);
    assert Text(MISREAD) + [] == Text(MISREAD);
    Climb(UNARY, 0, Text(MISREAD), Tree(MISREAD), []);
  }

  lemma MisreadValue(env: string -> Word)
    requires env("b") == 1 && env("v") == env("y") != env("x")
    ensures Meaning(COUNTER, env) == 0 && Eval(Tree(MISREAD), env) == 1
  {
    assert Among(env("v"), End, env) == false;
    assert Meaning(COUNTER.first, env) == FirstTrue(COUNTER.first.rows, env) == env("x");
    var equation := Binary(Cmp(Eq), Quote("v"), Tree(MISREAD.first));
    var another := Binary(Cmp(Eq), Quote("v"), Quote("y"));
    assert Tree(MISREAD.others.head) == RowsTree(MISREAD.others.head.rows) == Quote("y");
    assert Tree(MISREAD) == ElemsTree(Quote("v"), equation, MISREAD.others);
    assert ElemsTree(Quote("v"), equation, MISREAD.others) == ElemsTree(Quote("v"), Binary(BarBar, equation, another), End);
    assert Eval(another, env) == 1;
  }

  /** v in {[b: x;], [1: 0;]} */
  const COINCIDENCE: Expr :=
    In(Var("v"), Case(Row(Var("b"), Var("x"), NoRow)), Elem(Case(Row(Num(1), Num(0), NoRow)), End))

  lemma CoincidenceBuilt()
    ensures var row2 := Node(KCase, false, Build(Num(1)), Build(Num(0)), Null);
      var row1 := Node(KCase, false, Build(Var("b")), Build(Var("x")), row2);
      Build(COINCIDENCE) == NewNode(KEle, true, Build(Var("v")), row1)
  {
    var e := COINCIDENCE;
    var row2 := Node(KCase, false, Build(Num(1)), Build(Num(0)), Null);
    var row1 := Node(KCase, false, Build(Var("b")), Build(Var("x")), row2);
    assert Build(e.first) == row1.(next := Null) && Build(e.others.head) == row2;
    assert BuildElems(Build(e.first), e.others) == row1;
  }

  lemma CoincidenceIsGenerated()
    ensures GenExpr(COUNTER_ST, Build(COINCIDENCE)).Some?
  {
    hide Accepts;
    var st, e := COUNTER_ST, COINCIDENCE;
    FindCounterSymbols();
    CoincidenceBuilt();
    var v, zero := Build(Var("v")), Build(Num(0));
    var row2 := Node(KCase, false, Build(Num(1)), zero, Null);
    var row1 := Node(KCase, false, Build(Var("b")), Build(Var("x")), row2);
    assert GenRows(st, row2) == GenExpr(st, zero) && GenRows(st, row1).Some?;
    assert GenElems(st, GenExpr(st, v).value, Null).Some?;
    assert GenElems(st, GenExpr(st, v).value, row2).Some?;
  }

  lemma CoincidenceIsPrintable()
    ensures Printable(COINCIDENCE) && !Proper(COINCIDENCE)
  {
    var e := COINCIDENCE;
    assert Printable(e.first) && Printable(e.others.head) && PrintableElems(End);
  }

  lemma CoincidenceIsAccepted()
    ensures Accepts(COUNTER_ST, COINCIDENCE)
  {
    FindCounterSymbols();
    assert AcceptsRows(COUNTER_ST, NoRow) && AcceptsElems(COUNTER_ST, End);
    assert Accepts(COUNTER_ST, COINCIDENCE.first) && Accepts(COUNTER_ST, COINCIDENCE.others.head);
  }

  /** The list has the row 1: 0 behind the row b: x, which prints what an ending case expression would, so
      that the text is the one that is meant although the nodes say something else. */
  lemma MisreadButPrinted()
    ensures Accepts(COUNTER_ST, COINCIDENCE) && GenExpr(COUNTER_ST, Build(COINCIDENCE)).Some?
    ensures GenExpr(COUNTER_ST, Build(COINCIDENCE)).value == Text(COINCIDENCE)
    ensures !Proper(COINCIDENCE) && Read(Build(COINCIDENCE)) != Some(Trim(COINCIDENCE))
  {
    hide Accepts, GenExpr, Build, Read, Trim, Proper, Text, Printable;
    CoincidenceIsAccepted();
    CoincidenceIsGenerated();
    CoincidenceIsPrintable();
    ReadBack(COINCIDENCE);
    TextExactly(COUNTER_ST, COINCIDENCE);
  }

  /** v in {[], [1: 0; 1: 0;]} */
  const EMPTY_ELEMENT: Expr :=
    In(Var("v"), Case(NoRow), Elem(Case(Row(Num(1), Num(0), Row(Num(1), Num(0), NoRow))), End))

  /** With an empty case in a set the rows of another can fill its place, so that the text is the one that
      is meant although neither prints as it should. */
  lemma EmptyElementFilledIn()
    ensures GenExpr(COUNTER_ST, Build(EMPTY_ELEMENT)) == Some(Text(EMPTY_ELEMENT))
    ensures !NoEmptyElement(EMPTY_ELEMENT) && !Printable(EMPTY_ELEMENT)
  {
    var st, e := COUNTER_ST, EMPTY_ELEMENT;
    FindCounterSymbols();
    var v, one, zero := Build(Var("v")), Build(Num(1)), Build(Num(0));
    var row := Node(KCase, false, one, zero, Null);
    var list := Node(KCase, false, one, zero, row);
    var a := GenExpr(st, v).value;
    assert Build(e.first) == Null;
    assert Build(e.others.head) == list;
    assert BuildElems(Null, e.others) == list;
    assert Build(e) == NewNode(KEle, true, v, list);
    assert GenElems(st, a, Null) == Some([]);
    assert GenRows(st, row) == GenRows(st, list) == Some([Number(0)]);
    var element := [LParen] + [Number(0)] + [RParen];
    assert GenExpr(st, row) == GenExpr(st, list) == Some(element);
    assert a + [Infix(Cmp(Eq))] + element + [] + [] == a + [Infix(Cmp(Eq))] + element;
    assert GenElems(st, a, row) == Some(a + [Infix(Cmp(Eq))] + element);
    assert Text(Case(NoRow)) == element && Text(e.others.head) == element && Text(Var("v")) == a;
    var equation := a + [Infix(Cmp(Eq))] + element;
    assert ElemsText(a, End) == [] && ElemsText(a, e.others) == [Infix(BarBar)] + a + [Infix(Cmp(Eq))] + element + [];
    assert [Infix(BarBar)] + a + [Infix(Cmp(Eq))] + element + [] == [Infix(BarBar)] + equation;
    assert GenElems(st, a, list) == Some(equation + [Infix(BarBar)] + equation);
    assert equation + [Infix(BarBar)] + equation == equation + ([Infix(BarBar)] + equation);
    assert Text(e) == [LParen] + (equation + ElemsText(a, e.others)) + [RParen];
  }
}
