/** The expressions of the hardware control language, and the linked nodes its parser builds for them. */
module HclTree {
  import opened Options
  import opened Words

  // ----- expressions, as the grammar derives them -----

  datatype Comparison = Eq | Ne | Lt | Le | Gt | Ge {
    predicate Holds(x: int, y: int) {
      match this
      case Eq => x == y
      case Ne => x != y
      case Lt => x < y
      case Le => x <= y
      case Gt => x > y
      case Ge => x >= y
    }
  }

  datatype Expr =
    | Var(name: string)
    | Num(n: Word)
    | Not(arg: Expr)
    | And(left: Expr, right: Expr)
    | Or(left: Expr, right: Expr)
    | Comp(op: Comparison, left: Expr, right: Expr)
    | In(arg: Expr, first: Expr, others: Elems)
    | Case(rows: Rows)

  datatype Elems = End | Elem(head: Expr, tail: Elems)

  datatype Rows = NoRow | Row(cond: Expr, val: Expr, rest: Rows)

  function Truth(b: bool): Word { if b then 1 else 0 }

  /** The value of an expression. The first case whose condition is true decides; without one it is 0. */
  function Meaning(e: Expr, env: string -> Word): Word
    decreases e
  {
    match e
    case Var(name) => env(name)
    case Num(n) => n
    case Not(a) => Truth(Meaning(a, env) == 0)
    case And(a, b) => Truth(Meaning(a, env) != 0 && Meaning(b, env) != 0)
    case Or(a, b) => Truth(Meaning(a, env) != 0 || Meaning(b, env) != 0)
    case Comp(op, a, b) => Truth(op.Holds(Meaning(a, env), Meaning(b, env)))
    case In(a, b, others) => Truth(Meaning(a, env) == Meaning(b, env) || Among(Meaning(a, env), others, env))
    case Case(rows) => FirstTrue(rows, env)
  }

  predicate Among(v: Word, elems: Elems, env: string -> Word)
    decreases elems
  {
    match elems
    case End => false
    case Elem(b, others) => v == Meaning(b, env) || Among(v, others, env)
  }

  function FirstTrue(rows: Rows, env: string -> Word): Word
    decreases rows
  {
    match rows
    case NoRow => 0
    case Row(c, val, rest) => if Meaning(c, env) != 0 then Meaning(val, env) else FirstTrue(rest, env)
  }

  // ----- nodes -----

  datatype Kind = KVar(name: string) | KNum(n: Word) | KNot | KAnd | KOr | KComp(op: Comparison) | KEle | KCase

  /** A null pointer, or a node; next links the elements of a set and the rows of a case expression. */
  datatype Node = Null | Node(kind: Kind, isbool: bool, arg1: Node, arg2: Node, next: Node)

  function NewNode(kind: Kind, isbool: bool, arg1: Node, arg2: Node): Node {
    Node(kind, isbool, arg1, arg2, Null)
  }

  function Concat(n1: Node, n2: Node): Node {
    if n1.Null? then n2 else n1.(next := Concat(n1.next, n2))
  }

  lemma {:induction false} ConcatAssociative(n1: Node, n2: Node, n3: Node)
    ensures Concat(Concat(n1, n2), n3) == Concat(n1, Concat(n2, n3))
  {
    if n1.Node? {
      ConcatAssociative(n1.next, n2, n3);
    }
  }

  /** What the parser's actions build. Lists grow at their end. */
  function Build(e: Expr): Node
    decreases e
  {
    match e
    case Var(name) => NewNode(KVar(name), false, Null, Null)
    case Num(n) => NewNode(KNum(n), false, Null, Null)
    case Not(a) => NewNode(KNot, true, Build(a), Null)
    case And(a, b) => NewNode(KAnd, true, Build(a), Build(b))
    case Or(a, b) => NewNode(KOr, true, Build(a), Build(b))
    case Comp(op, a, b) => NewNode(KComp(op), true, Build(a), Build(b))
    case In(a, b, others) => NewNode(KEle, true, Build(a), BuildElems(Build(b), others))
    case Case(rows) => BuildRows(Null, rows)
  }

  function BuildElems(list: Node, elems: Elems): Node
    decreases elems
  {
    match elems
    case End => list
    case Elem(b, others) => BuildElems(Concat(list, Build(b)), others)
  }

  function BuildRows(list: Node, rows: Rows): Node
    decreases rows
  {
    match rows
    case NoRow => list
    case Row(c, val, rest) => BuildRows(Concat(list, NewNode(KCase, false, Build(c), Build(val))), rest)
  }

  // ----- the type checks made on the way -----

  datatype Symbol = Symbol(name: string, isbool: bool)

  /** Whether the symbol of that name, if there is one, is Boolean. */
  function FindSymbol(st: seq<Symbol>, name: string): Option<bool> {
    if st == [] then None
    else if st[0].name == name then Some(st[0].isbool)
    else FindSymbol(st[1..], name)
  }

  predicate CheckArg(st: seq<Symbol>, arg: Node, wantbool: bool) {
    if arg.Null? then false
    else
      match arg.kind
      case KVar(name) => FindSymbol(st, name) == Some(wantbool)
      case KNum(n) => wantbool ==> n == 0 || n == 1
      case _ => wantbool == arg.isbool
  }

  /** The check of a membership test looks along its left operand instead of the set. */
  predicate CheckList(st: seq<Symbol>, ele: Node) {
    ele.Null? || (CheckArg(st, ele, false) && CheckList(st, ele.next))
  }

  /** No check fails while the expression is built. */
  predicate Accepts(st: seq<Symbol>, e: Expr)
    decreases e
  {
    match e
    case Var(_) => true
    case Num(_) => true
    case Not(a) => Accepts(st, a) && CheckArg(st, Build(a), true)
    case And(a, b) => Accepts(st, a) && Accepts(st, b) && CheckArg(st, Build(a), true) && CheckArg(st, Build(b), true)
    case Or(a, b) => Accepts(st, a) && Accepts(st, b) && CheckArg(st, Build(a), true) && CheckArg(st, Build(b), true)
    case Comp(_, a, b) => Accepts(st, a) && Accepts(st, b) && CheckArg(st, Build(a), false) && CheckArg(st, Build(b), false)
    case In(a, b, others) =>
      Accepts(st, a) && Accepts(st, b) && AcceptsElems(st, others) && CheckArg(st, Build(a), false) && CheckList(st, Build(a))
    case Case(rows) => AcceptsRows(st, rows)
  }

  predicate AcceptsElems(st: seq<Symbol>, elems: Elems)
    decreases elems
  {
    elems.Elem? ==> Accepts(st, elems.head) && AcceptsElems(st, elems.tail)
  }

  predicate AcceptsRows(st: seq<Symbol>, rows: Rows)
    decreases rows
  {
    rows.Row? ==>
      && Accepts(st, rows.cond) && Accepts(st, rows.val) && AcceptsRows(st, rows.rest)
      && CheckArg(st, Build(rows.cond), true) && CheckArg(st, Build(rows.val), false)
  }

  /** The first symbol of a name is the one that is found. */
  lemma {:induction false} FirstOfName(st: seq<Symbol>, name: string)
    ensures FindSymbol(st, name).None? <==> forall i :: 0 <= i < |st| ==> st[i].name != name
    ensures FindSymbol(st, name).Some? ==>
      exists i :: 0 <= i < |st| && st[i] == Symbol(name, FindSymbol(st, name).value)
        && forall j :: 0 <= j < i ==> st[j].name != name
  {
    if st != [] {
      FirstOfName(st[1..], name);
      forall i | 0 <= i < |st| - 1 ensures st[1..][i] == st[i + 1] {}
      if st[0].name != name && FindSymbol(st[1..], name).Some? {
        var i :| 0 <= i < |st[1..]| && st[1..][i] == Symbol(name, FindSymbol(st[1..], name).value)
          && forall j :: 0 <= j < i ==> st[1..][j].name != name;
        assert st[i + 1] == Symbol(name, FindSymbol(st, name).value);
        assert forall j :: 0 <= j < i + 1 ==> st[j].name != name by {
          assert forall j :: 1 <= j < i + 1 ==> st[j] == st[1..][j - 1];
        }
      }
    }
  }

  // ----- types, without nodes -----

  predicate IsBoolean(st: seq<Symbol>, e: Expr) {
    match e
    case Var(name) => FindSymbol(st, name) == Some(true)
    case Num(n) => n == 0 || n == 1
    case Case(_) => false
    case _ => true
  }

  /** A case expression without rows has no type at all. */
  predicate IsInteger(st: seq<Symbol>, e: Expr) {
    match e
    case Var(name) => FindSymbol(st, name) == Some(false)
    case Num(_) => true
    case Case(rows) => rows.Row?
    case _ => false
  }

  /** Logical operators take Booleans, comparisons and values integers. The elements of a set may be of any
      type, as the checks leave them out. */
  predicate WellTyped(st: seq<Symbol>, e: Expr)
    decreases e
  {
    match e
    case Var(_) => true
    case Num(_) => true
    case Not(a) => WellTyped(st, a) && IsBoolean(st, a)
    case And(a, b) => WellTyped(st, a) && WellTyped(st, b) && IsBoolean(st, a) && IsBoolean(st, b)
    case Or(a, b) => WellTyped(st, a) && WellTyped(st, b) && IsBoolean(st, a) && IsBoolean(st, b)
    case Comp(_, a, b) => WellTyped(st, a) && WellTyped(st, b) && IsInteger(st, a) && IsInteger(st, b)
    case In(a, b, others) => WellTyped(st, a) && WellTyped(st, b) && WellTypedElems(st, others) && IsInteger(st, a)
    case Case(rows) => WellTypedRows(st, rows)
  }

  predicate WellTypedElems(st: seq<Symbol>, elems: Elems)
    decreases elems
  {
    elems.Elem? ==> WellTyped(st, elems.head) && WellTypedElems(st, elems.tail)
  }

  predicate WellTypedRows(st: seq<Symbol>, rows: Rows)
    decreases rows
  {
    rows.Row? ==>
      && WellTyped(st, rows.cond) && WellTyped(st, rows.val) && WellTypedRows(st, rows.rest)
      && IsBoolean(st, rows.cond) && IsInteger(st, rows.val)
  }

  lemma ArgChecked(st: seq<Symbol>, e: Expr)
    ensures CheckArg(st, Build(e), true) <==> IsBoolean(st, e)
    ensures CheckArg(st, Build(e), false) <==> IsInteger(st, e)
  {
    if e.Case? {
      RowsAreCases(Null, e.rows);
      RowsNotNull(Null, e.rows);
    }
  }

  lemma {:induction false} RowsNotNull(list: Node, rows: Rows)
    ensures BuildRows(list, rows).Null? <==> list.Null? && rows.NoRow?
    decreases rows
  {
    if rows.Row? {
      RowsNotNull(Concat(list, NewNode(KCase, false, Build(rows.cond), Build(rows.val))), rows.rest);
    }
  }

  /** The nodes that the check of a membership test walks along are those of its left operand, and all of one
      type. */
  lemma LeftIsChecked(st: seq<Symbol>, e: Expr)
    ensures CheckArg(st, Build(e), false) ==> CheckList(st, Build(e))
  {
    if e.Case? {
      AllCases(st, Null, e.rows);
    }
  }

  predicate OnlyCases(n: Node) {
    n.Null? || (n.kind == KCase && !n.isbool && OnlyCases(n.next))
  }

  lemma {:induction false} AllCases(st: seq<Symbol>, list: Node, rows: Rows)
    requires OnlyCases(list)
    ensures OnlyCases(BuildRows(list, rows)) && CheckList(st, BuildRows(list, rows))
    decreases rows
  {
    if rows.Row? {
      var row := NewNode(KCase, false, Build(rows.cond), Build(rows.val));
      CasesJoined(list, row);
      AllCases(st, Concat(list, row), rows.rest);
    } else {
      CasesPass(st, list);
    }
  }

  lemma {:induction false} CasesJoined(n1: Node, n2: Node)
    requires OnlyCases(n1) && OnlyCases(n2)
    ensures OnlyCases(Concat(n1, n2))
  {
    if n1.Node? {
      CasesJoined(n1.next, n2);
    }
  }

  lemma {:induction false} CasesPass(st: seq<Symbol>, n: Node)
    requires OnlyCases(n)
    ensures CheckList(st, n)
  {
    if n.Node? {
      CasesPass(st, n.next);
    }
  }

  /** The checks made while the nodes are built accept just the well-typed expressions. */
  lemma {:induction false} AcceptsExactly(st: seq<Symbol>, e: Expr)
    ensures Accepts(st, e) <==> WellTyped(st, e)
    decreases e
  {
    hide Build, CheckArg, CheckList, IsBoolean, IsInteger;
    match e
    case Var(_) =>
    case Num(_) =>
    case Not(a) => AcceptsExactly(st, a); ArgChecked(st, a);
    case And(a, b) => AcceptsExactly(st, a); AcceptsExactly(st, b); ArgChecked(st, a); ArgChecked(st, b);
    case Or(a, b) => AcceptsExactly(st, a); AcceptsExactly(st, b); ArgChecked(st, a); ArgChecked(st, b);
    case Comp(_, a, b) => AcceptsExactly(st, a); AcceptsExactly(st, b); ArgChecked(st, a); ArgChecked(st, b);
    case In(a, b, others) =>
      AcceptsExactly(st, a);
      AcceptsExactly(st, b);
      ElemsAccepted(st, others);
      ArgChecked(st, a);
      LeftIsChecked(st, a);
    case Case(rows) => RowsAccepted(st, rows);
  }

  lemma {:induction false} ElemsAccepted(st: seq<Symbol>, elems: Elems)
    ensures AcceptsElems(st, elems) <==> WellTypedElems(st, elems)
    decreases elems
  {
    if elems.Elem? {
      AcceptsExactly(st, elems.head);
      ElemsAccepted(st, elems.tail);
    }
  }

  lemma {:induction false} RowsAccepted(st: seq<Symbol>, rows: Rows)
    ensures AcceptsRows(st, rows) <==> WellTypedRows(st, rows)
    decreases rows
  {
    hide Build, CheckArg, IsBoolean, IsInteger;
    if rows.Row? {
      AcceptsExactly(st, rows.cond);
      AcceptsExactly(st, rows.val);
      RowsAccepted(st, rows.rest);
      ArgChecked(st, rows.cond);
      ArgChecked(st, rows.val);
    }
  }

  /** Boolean symbols are 0 or 1. */
  ghost predicate BoolsAreBits(st: seq<Symbol>, env: string -> Word) {
    forall name :: FindSymbol(st, name) == Some(true) ==> env(name) == 0 || env(name) == 1
  }

  lemma {:induction false} RowsAreCases(list: Node, rows: Rows)
    requires list.Null? || (list.kind == KCase && !list.isbool)
    ensures var n := BuildRows(list, rows); n.Null? || (n.kind == KCase && !n.isbool)
    decreases rows
  {
    if rows.Row? {
      RowsAreCases(Concat(list, NewNode(KCase, false, Build(rows.cond), Build(rows.val))), rows.rest);
    }
  }

  /** Every expression accepted as Boolean evaluates to 0 or 1. */
  lemma BooleanIsBit(st: seq<Symbol>, e: Expr, env: string -> Word)
    requires BoolsAreBits(st, env) && CheckArg(st, Build(e), true)
    ensures Meaning(e, env) == 0 || Meaning(e, env) == 1
  {
    if e.Case? {
      RowsAreCases(Null, e.rows);
    }
  }

  // ----- how nodes are read back -----

  /** The expression that a node stands for when the lists it heads are followed to their ends, or in a
      case expression to the first row with the condition 1; None where a null pointer is in the way. */
  function Read(n: Node): Option<Expr>
    decreases n, 1
  {
    if n.Null? then None
    else
      match n.kind
      case KVar(name) => Some(Var(name))
      case KNum(v) => Some(Num(v))
      case KNot => var a :- Read(n.arg1); Some(Not(a))
      case KAnd => var a :- Read(n.arg1); var b :- Read(n.arg2); Some(And(a, b))
      case KOr => var a :- Read(n.arg1); var b :- Read(n.arg2); Some(Or(a, b))
      case KComp(op) => var a :- Read(n.arg1); var b :- Read(n.arg2); Some(Comp(op, a, b))
      case KEle =>
        var a :- Read(n.arg1);
        var b :- Read(n.arg2);
        var others :- ReadElems(n.arg2.next);
        Some(In(a, b, others))
      case KCase => var rows :- ReadRows(n); Some(Case(rows))
  }

  function ReadElems(ele: Node): Option<Elems>
    decreases ele, 2
  {
    if ele.Null? then Some(End)
    else
      var b :- Read(ele);
      var others :- ReadElems(ele.next);
      Some(Elem(b, others))
  }

  predicate IsOne(e: Expr) { e == Num(1) }

  function ReadRows(ele: Node): Option<Rows>
    decreases ele, 0
  {
    if ele.Null? then Some(NoRow)
    else
      var c :- Read(ele.arg1);
      var val :- Read(ele.arg2);
      if IsOne(c) then Some(Row(c, val, NoRow))
      else
        var rest :- ReadRows(ele.next);
        Some(Row(c, val, rest))
  }

  /** Without the rows that follow a condition 1. */
  function Trim(e: Expr): Expr
    decreases e
  {
    match e
    case Var(_) => e
    case Num(_) => e
    case Not(a) => Not(Trim(a))
    case And(a, b) => And(Trim(a), Trim(b))
    case Or(a, b) => Or(Trim(a), Trim(b))
    case Comp(op, a, b) => Comp(op, Trim(a), Trim(b))
    case In(a, b, others) => In(Trim(a), Trim(b), TrimElems(others))
    case Case(rows) => Case(TrimRows(rows))
  }

  function TrimElems(elems: Elems): Elems
    decreases elems
  {
    if elems.End? then End else Elem(Trim(elems.head), TrimElems(elems.tail))
  }

  function TrimRows(rows: Rows): Rows
    decreases rows
  {
    if rows.NoRow? then NoRow
    else Row(Trim(rows.cond), Trim(rows.val), if IsOne(rows.cond) then NoRow else TrimRows(rows.rest))
  }

  // ----- when the nodes say what the source says -----

  /** An element of a set keeps to itself in the list: a case expression must be a single row, and unless
      it comes last, its condition is 1. */
  predicate FitsInSet(e: Expr, last: bool) {
    e.Case? ==> e.rows.Row? && e.rows.rest.NoRow? && (last || IsOne(e.rows.cond))
  }

  predicate Proper(e: Expr)
    decreases e
  {
    match e
    case Var(_) => true
    case Num(_) => true
    case Not(a) => Proper(a)
    case And(a, b) => Proper(a) && Proper(b)
    case Or(a, b) => Proper(a) && Proper(b)
    case Comp(_, a, b) => Proper(a) && Proper(b)
    case In(a, b, others) => Proper(a) && Proper(b) && FitsInSet(b, others.End?) && ProperElems(others)
    case Case(rows) => rows.Row? && ProperRows(rows)
  }

  predicate ProperElems(elems: Elems)
    decreases elems
  {
    elems.Elem? ==> Proper(elems.head) && FitsInSet(elems.head, elems.tail.End?) && ProperElems(elems.tail)
  }

  /** Rows behind a condition 1 are not looked at. */
  predicate ProperRows(rows: Rows)
    decreases rows
  {
    rows.Row? ==>
      Proper(rows.cond) && Proper(rows.val) && (IsOne(rows.cond) || ProperRows(rows.rest))
  }
}
