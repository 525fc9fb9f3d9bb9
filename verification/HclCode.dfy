/** The C text generated for an expression, as tokens, and what C makes of it. */
module HclCode {
  import opened Words
  import opened Options
  import opened HclTree

  datatype Op = BarBar | Bar | Amp | Cmp(op: Comparison)

  /** Quoted(name) is the C expression that was given for a symbol, a Number an unsigned literal. */
  datatype Token = LParen | RParen | Bang | Minus | Question | Colon | Infix(op: Op) | Number(n: nat) | Quoted(name: string)

  function Opposite(x: int): int { -x }

  // ----- generating code -----

  function NumTokens(n: Word): seq<Token> {
    if n < 0 then [Minus, Number(Opposite(n))] else [Number(n)]
  }

  /** The text printed for a node; None where the generator reports an error or meets a null pointer. */
  function GenExpr(st: seq<Symbol>, n: Node): Option<seq<Token>>
    decreases n, 1
  {
    if n.Null? then None
    else
      match n.kind
      case KVar(name) => if FindSymbol(st, name).Some? then Some([LParen, Quoted(name), RParen]) else None
      case KNum(v) => Some(NumTokens(v))
      case KNot => var a :- GenExpr(st, n.arg1); Some([Bang] + a)
      case KAnd => var a :- GenExpr(st, n.arg1); var b :- GenExpr(st, n.arg2); Some([LParen] + a + [Infix(Amp)] + b + [RParen])
      case KOr => var a :- GenExpr(st, n.arg1); var b :- GenExpr(st, n.arg2); Some([LParen] + a + [Infix(Bar)] + b + [RParen])
      case KComp(op) => var a :- GenExpr(st, n.arg1); var b :- GenExpr(st, n.arg2); Some([LParen] + a + [Infix(Cmp(op))] + b + [RParen])
      case KEle =>
        var a :- GenExpr(st, n.arg1);
        var list :- GenElems(st, a, n.arg2);
        Some([LParen] + list + [RParen])
      case KCase => var rows :- GenRows(st, n); Some([LParen] + rows + [RParen])
  }

  function GenElems(st: seq<Symbol>, a: seq<Token>, ele: Node): Option<seq<Token>>
    decreases ele, 2
  {
    if ele.Null? then Some([])
    else
      var b :- GenExpr(st, ele);
      var others :- GenElems(st, a, ele.next);
      Some(a + [Infix(Cmp(Eq))] + b + (if ele.next.Null? then [] else [Infix(BarBar)]) + others)
  }

  function GenRows(st: seq<Symbol>, ele: Node): Option<seq<Token>>
    decreases ele, 0
  {
    if ele.Null? then Some([Number(0)])
    else if ele.arg1.Node? && ele.arg1.kind == KNum(1) then GenExpr(st, ele.arg2)
    else
      var c :- GenExpr(st, ele.arg1);
      var val :- GenExpr(st, ele.arg2);
      var rest :- GenRows(st, ele.next);
      Some(c + [Question] + val + [Token.Colon] + rest)
  }

  // ----- C expressions -----

  datatype CExpr =
    | Quote(name: string)
    | Literal(n: nat)
    | Negate(arg: CExpr)
    | LogicalNot(arg: CExpr)
    | Binary(op: Op, left: CExpr, right: CExpr)
    | Conditional(cond: CExpr, yes: CExpr, no: CExpr)

  /** The value of a C expression over 64-bit integers. */
  function Eval(c: CExpr, env: string -> Word): Word {
    match c
    case Quote(name) => env(name)
    case Literal(n) => Wrap(n)
    case Negate(a) => Wrap(Opposite(Eval(a, env)))
    case LogicalNot(a) => Truth(Eval(a, env) == 0)
    case Binary(BarBar, a, b) => if Eval(a, env) != 0 then 1 else Truth(Eval(b, env) != 0)
    case Binary(Bar, a, b) => Or64(Eval(a, env), Eval(b, env))
    case Binary(Amp, a, b) => And64(Eval(a, env), Eval(b, env))
    case Binary(Cmp(op), a, b) => Truth(op.Holds(Eval(a, env), Eval(b, env)))
    case Conditional(a, yes, no) => if Eval(a, env) != 0 then Eval(yes, env) else Eval(no, env)
  }

  /** Binding strength of the infix operators in C, loosest first. */
  function Level(op: Op): nat {
    match op
    case BarBar => 1
    case Bar => 2
    case Amp => 3
    case Cmp(c) => if c == Eq || c == Ne then 4 else 5
  }

  const UNARY: nat := 6

  type Parsed = Option<(CExpr, seq<Token>)>

  predicate Starts(ts: seq<Token>, t: Token) {
    ts != [] && ts[0] == t
  }

  /** The longest expression of level k at the start of the text, by the grammar of C: 0 for conditional
      expressions, 1 to 5 for the left-associative infix operators, 6 for unary and primary ones. */
  function ParseAt(k: nat, ts: seq<Token>): (r: Parsed)
    requires k <= UNARY
    ensures r.Some? ==> |r.value.1| < |ts|
    decreases |ts|, 2, UNARY - k
  {
    if k == UNARY then ParseUnary(ts)
    else
      var (a, rest) :- ParseAt(k + 1, ts);
      if k > 0 then ParseInfix(k, a, rest)
      else if !Starts(rest, Question) then Some((a, rest))
      else
        var (yes, rest') :- ParseAt(0, rest[1..]);
        if !Starts(rest', Token.Colon) then None
        else
          var (no, rest'') :- ParseAt(0, rest'[1..]);
          Some((Conditional(a, yes, no), rest''))
  }

  /** What follows an operand a of level k: more operands of the same level. */
  function ParseInfix(k: nat, a: CExpr, ts: seq<Token>): (r: Parsed)
    requires 0 < k < UNARY
    ensures r.Some? ==> |r.value.1| <= |ts|
    decreases |ts|, 1
  {
    if ts != [] && ts[0].Infix? && Level(ts[0].op) == k then
      var (b, rest) :- ParseAt(k + 1, ts[1..]);
      ParseInfix(k, Binary(ts[0].op, a, b), rest)
    else
      Some((a, ts))
  }

  function ParseUnary(ts: seq<Token>): (r: Parsed)
    ensures r.Some? ==> |r.value.1| < |ts|
    decreases |ts|, 0
  {
    if ts == [] then None
    else
      match ts[0]
      case Bang => var (a, rest) :- ParseUnary(ts[1..]); Some((LogicalNot(a), rest))
      case Minus => var (a, rest) :- ParseUnary(ts[1..]); Some((Negate(a), rest))
      case Number(n) => Some((Literal(n), ts[1..]))
      case Quoted(name) => Some((Quote(name), ts[1..]))
      case LParen =>
        var (a, rest) :- ParseAt(0, ts[1..]);
        if Starts(rest, RParen) then Some((a, rest[1..])) else None
      case _ => None
  }

  /** The text as a whole is the expression c. */
  predicate Parses(ts: seq<Token>, c: CExpr) {
    ParseAt(0, ts) == Some((c, []))
  }

  // ----- the text and the syntax tree meant by an expression -----

  function Text(e: Expr): seq<Token>
    decreases e
  {
    match e
    case Var(name) => [LParen, Quoted(name), RParen]
    case Num(n) => NumTokens(n)
    case Not(a) => [Bang] + Text(a)
    case And(a, b) => [LParen] + Text(a) + [Infix(Amp)] + Text(b) + [RParen]
    case Or(a, b) => [LParen] + Text(a) + [Infix(Bar)] + Text(b) + [RParen]
    case Comp(op, a, b) => [LParen] + Text(a) + [Infix(Cmp(op))] + Text(b) + [RParen]
    case In(a, b, others) => [LParen] + (Text(a) + [Infix(Cmp(Eq))] + Text(b) + ElemsText(Text(a), others)) + [RParen]
    case Case(rows) => [LParen] + RowsText(rows) + [RParen]
  }

  function ElemsText(a: seq<Token>, elems: Elems): seq<Token>
    decreases elems
  {
    if elems.End? then []
    else [Infix(BarBar)] + a + [Infix(Cmp(Eq))] + Text(elems.head) + ElemsText(a, elems.tail)
  }

  function RowsText(rows: Rows): seq<Token>
    decreases rows
  {
    if rows.NoRow? then [Number(0)]
    else if IsOne(rows.cond) then Text(rows.val)
    else Text(rows.cond) + [Question] + Text(rows.val) + [Token.Colon] + RowsText(rows.rest)
  }

  function Tree(e: Expr): CExpr
    decreases e
  {
    match e
    case Var(name) => Quote(name)
    case Num(n) => if n < 0 then Negate(Literal(Opposite(n))) else Literal(n)
    case Not(a) => LogicalNot(Tree(a))
    case And(a, b) => Binary(Amp, Tree(a), Tree(b))
    case Or(a, b) => Binary(Bar, Tree(a), Tree(b))
    case Comp(op, a, b) => Binary(Cmp(op), Tree(a), Tree(b))
    case In(a, b, others) => ElemsTree(Tree(a), Binary(Cmp(Eq), Tree(a), Tree(b)), others)
    case Case(rows) => RowsTree(rows)
  }

  function ElemsTree(a: CExpr, left: CExpr, elems: Elems): CExpr
    decreases elems
  {
    if elems.End? then left
    else ElemsTree(a, Binary(BarBar, left, Binary(Cmp(Eq), a, Tree(elems.head))), elems.tail)
  }

  function RowsTree(rows: Rows): CExpr
    decreases rows
  {
    if rows.NoRow? then Literal(0)
    else if IsOne(rows.cond) then Tree(rows.val)
    else Conditional(Tree(rows.cond), Tree(rows.val), RowsTree(rows.rest))
  }
}
