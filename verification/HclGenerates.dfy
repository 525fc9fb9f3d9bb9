/** For which expressions the generator gets through: which symbols it looks up, and where it needs a node. */
module HclGenerates {
  import opened Options
  import opened Words
  import opened HclTree
  import opened HclRead
  import opened HclCode

  // ----- sizes, for termination -----

  function Size(e: Expr): (n: nat)
    ensures e.Case? ==> SizeOfRows(e.rows) < n
    ensures e.And? || e.Or? || e.Comp? ==> Size(e.left) + Size(e.right) < n
    ensures e.In? ==> Size(e.arg) + Size(e.first) + SizeOfElems(e.others) + 1 < n
    decreases e
  {
    match e
    case Var(_) => 1
    case Num(_) => 1
    case Not(a) => 1 + Size(a)
    case And(a, b) => 1 + Size(a) + Size(b)
    case Or(a, b) => 1 + Size(a) + Size(b)
    case Comp(_, a, b) => 1 + Size(a) + Size(b)
    case In(a, b, others) => 2 + Size(a) + Size(b) + SizeOfElems(others)
    case Case(rows) => 1 + SizeOfRows(rows)
  }

  function SizeOfElems(elems: Elems): nat
    decreases elems
  {
    if elems.End? then 0 else 1 + Size(elems.head) + SizeOfElems(elems.tail)
  }

  function SizeOfRows(rows: Rows): nat
    decreases rows
  {
    if rows.NoRow? then 0 else 1 + Size(rows.cond) + Size(rows.val) + SizeOfRows(rows.rest)
  }

  // ----- what the generator visits -----

  /** Every symbol that the generator visits is in the table, and wherever it needs a node there is one. The
      rows behind a condition 1 are not visited. */
  predicate Generates(st: seq<Symbol>, e: Expr)
    decreases Size(e), 0
  {
    match e
    case Var(name) => FindSymbol(st, name).Some?
    case Num(_) => true
    case Not(a) => Generates(st, a)
    case And(a, b) => Generates(st, a) && Generates(st, b)
    case Or(a, b) => Generates(st, a) && Generates(st, b)
    case Comp(_, a, b) => Generates(st, a) && Generates(st, b)
    case In(a, b, others) => Generates(st, a) && ElementsGenerate(st, Elem(b, others))
    case Case(rows) => rows.Row? && RowsGenerate(st, rows, End)
  }

  /** The elements of a set: each row of a case expression among them begins a list of rows of its own. */
  predicate ElementsGenerate(st: seq<Symbol>, elems: Elems)
    decreases SizeOfElems(elems), 0
  {
    elems.Elem? ==>
      && (if elems.head.Case? then EachRowGenerates(st, elems.head.rows, elems.tail) else Generates(st, elems.head))
      && ElementsGenerate(st, elems.tail)
  }

  predicate EachRowGenerates(st: seq<Symbol>, rows: Rows, others: Elems)
    decreases SizeOfRows(rows) + SizeOfElems(others), 3
  {
    rows.Row? ==> RowsGenerate(st, rows, others) && EachRowGenerates(st, rows.rest, others)
  }

  /** Rows, behind which the list goes on with other elements of a set. */
  predicate RowsGenerate(st: seq<Symbol>, rows: Rows, others: Elems)
    decreases SizeOfRows(rows) + SizeOfElems(others), 2
  {
    if rows.NoRow? then ElementsAsRows(st, others)
    else
      Generates(st, rows.val) && (IsOne(rows.cond) || (Generates(st, rows.cond) && RowsGenerate(st, rows.rest, others)))
  }

  /** Elements of a set that the generator takes for rows: their operands serve as condition and value. */
  predicate ElementsAsRows(st: seq<Symbol>, elems: Elems)
    decreases SizeOfElems(elems), 1
  {
    elems.Elem? ==>
      match elems.head
      case Case(rows) => RowsGenerate(st, rows, elems.tail)
      case And(a, b) => Generates(st, b) && (IsOne(a) || (Generates(st, a) && ElementsAsRows(st, elems.tail)))
      case Or(a, b) => Generates(st, b) && (IsOne(a) || (Generates(st, a) && ElementsAsRows(st, elems.tail)))
      case Comp(_, a, b) => Generates(st, b) && (IsOne(a) || (Generates(st, a) && ElementsAsRows(st, elems.tail)))
      case In(a, b, others) =>
        FirstGenerates(st, Elem(b, others)) && (IsOne(a) || (Generates(st, a) && ElementsAsRows(st, elems.tail)))
      case _ => false
  }

  /** The first node of a set, on its own. */
  predicate FirstGenerates(st: seq<Symbol>, elems: Elems)
    decreases SizeOfElems(elems), 0
  {
    elems.Elem? &&
      if !elems.head.Case? then Generates(st, elems.head)
      else if elems.head.rows.Row? then RowsGenerate(st, elems.head.rows, elems.tail)
      else FirstGenerates(st, elems.tail)
  }

  // ----- so it succeeds -----

  lemma {:induction false} GeneratesExactly(st: seq<Symbol>, e: Expr)
    ensures GenExpr(st, Build(e)).Some? <==> Generates(st, e)
    decreases Size(e), 0
  {
    match e
    case Var(_) =>
    case Num(_) =>
    case Not(a) => GeneratesExactly(st, a);
    case And(a, b) => GeneratesExactly(st, a); GeneratesExactly(st, b);
    case Or(a, b) => GeneratesExactly(st, a); GeneratesExactly(st, b);
    case Comp(_, a, b) => GeneratesExactly(st, a); GeneratesExactly(st, b);
    case In(a, b, others) =>
      GeneratesExactly(st, a);
      ElemsAreChained(Build(b), others);
      assert Chain(Elem(b, others)) == Concat(Build(b), Chain(others));
      if GenExpr(st, Build(a)).Some? {
        ElementsExactly(st, GenExpr(st, Build(a)).value, Elem(b, others));
      }
    case Case(rows) =>
      RowsAreChained(Null, rows);
      ConcatNull(RowChain(rows));
      RowsExact(st, rows, End);
  }

  lemma {:induction false} ElementsExactly(st: seq<Symbol>, a: seq<Token>, elems: Elems)
    ensures GenElems(st, a, Chain(elems)).Some? <==> ElementsGenerate(st, elems)
    decreases SizeOfElems(elems), 0
  {
    if elems.Elem? {
      ElementsExactly(st, a, elems.tail);
      if elems.head.Case? {
        RowsAreChained(Null, elems.head.rows);
        EachRowExactly(st, a, elems.head.rows, elems.tail);
      } else {
        GeneratesExactly(st, elems.head);
        AloneGenerates(st, elems.head, Chain(elems.tail));
      }
    }
  }

  /** A node that is not a row is printed alike whatever follows. */
  lemma AloneGenerates(st: seq<Symbol>, b: Expr, rest: Node)
    requires !b.Case?
    ensures var list := Concat(Build(b), rest);
      list.Node? && list == Build(b).(next := rest) && GenExpr(st, list) == GenExpr(st, Build(b))
  {}

  lemma {:induction false} EachRowExactly(st: seq<Symbol>, a: seq<Token>, rows: Rows, others: Elems)
    ensures GenElems(st, a, Concat(RowChain(rows), Chain(others))).Some?
       <==> EachRowGenerates(st, rows, others) && GenElems(st, a, Chain(others)).Some?
    decreases SizeOfRows(rows) + SizeOfElems(others), 3
  {
    if rows.Row? {
      RowsExact(st, rows, others);
      EachRowExactly(st, a, rows.rest, others);
    }
  }

  lemma {:induction false} RowsExact(st: seq<Symbol>, rows: Rows, others: Elems)
    ensures GenRows(st, Concat(RowChain(rows), Chain(others))).Some? <==> RowsGenerate(st, rows, others)
    decreases SizeOfRows(rows) + SizeOfElems(others), 2
  {
    if rows.NoRow? {
      AsRowsExactly(st, others);
    } else {
      OneIsBuilt(rows.cond);
      GeneratesExactly(st, rows.val);
      GeneratesExactly(st, rows.cond);
      RowsExact(st, rows.rest, others);
    }
  }

  lemma OneIsBuilt(e: Expr)
    ensures (Build(e).Node? && Build(e).kind == KNum(1)) <==> IsOne(e)
  {
    if e.Case? {
      RowsAreCases(Null, e.rows);
    }
  }

  lemma {:induction false} AsRowsExactly(st: seq<Symbol>, elems: Elems)
    ensures GenRows(st, Chain(elems)).Some? <==> ElementsAsRows(st, elems)
    decreases SizeOfElems(elems), 1
  {
    if elems.Elem? {
      var b := elems.head;
      if b.Case? {
        RowsAreChained(Null, b.rows);
        RowsExact(st, b.rows, elems.tail);
      } else {
        AloneGenerates(st, b, Chain(elems.tail));
        AsRowsExactly(st, elems.tail);
        if b.And? || b.Or? || b.Comp? {
          OneIsBuilt(b.left);
          GeneratesExactly(st, b.left);
          GeneratesExactly(st, b.right);
        } else if b.In? {
          OneIsBuilt(b.arg);
          GeneratesExactly(st, b.arg);
          ElemsAreChained(Build(b.first), b.others);
          FirstExactly(st, Elem(b.first, b.others));
        }
      }
    }
  }

  lemma {:induction false} FirstExactly(st: seq<Symbol>, elems: Elems)
    ensures GenExpr(st, Chain(elems)).Some? <==> FirstGenerates(st, elems)
    decreases SizeOfElems(elems), 0
  {
    if elems.Elem? {
      if !elems.head.Case? {
        AloneGenerates(st, elems.head, Chain(elems.tail));
        GeneratesExactly(st, elems.head);
      } else {
        RowsAreChained(Null, elems.head.rows);
        if elems.head.rows.Row? {
          RowsExact(st, elems.head.rows, elems.tail);
        } else {
          FirstExactly(st, elems.tail);
        }
      }
    }
  }

  // ----- without case expressions in the way -----

  /** Every symbol of the expression is in the table, but for those in rows behind a condition 1. */
  predicate Declared(st: seq<Symbol>, e: Expr)
    decreases e
  {
    match e
    case Var(name) => FindSymbol(st, name).Some?
    case Num(_) => true
    case Not(a) => Declared(st, a)
    case And(a, b) => Declared(st, a) && Declared(st, b)
    case Or(a, b) => Declared(st, a) && Declared(st, b)
    case Comp(_, a, b) => Declared(st, a) && Declared(st, b)
    case In(a, b, others) => Declared(st, a) && Declared(st, b) && DeclaredElems(st, others)
    case Case(rows) => DeclaredRows(st, rows)
  }

  predicate DeclaredElems(st: seq<Symbol>, elems: Elems)
    decreases elems
  {
    elems.Elem? ==> Declared(st, elems.head) && DeclaredElems(st, elems.tail)
  }

  predicate DeclaredRows(st: seq<Symbol>, rows: Rows)
    decreases rows
  {
    rows.Row? ==>
      Declared(st, rows.val) && (IsOne(rows.cond) || (Declared(st, rows.cond) && DeclaredRows(st, rows.rest)))
  }

  /** For a proper expression the generator needs no more than the symbols. */
  lemma {:induction false} ProperGenerates(st: seq<Symbol>, e: Expr)
    requires Proper(e)
    ensures Generates(st, e) <==> Declared(st, e)
    decreases e
  {
    match e
    case Var(_) =>
    case Num(_) =>
    case Not(a) => ProperGenerates(st, a);
    case And(a, b) => ProperGenerates(st, a); ProperGenerates(st, b);
    case Or(a, b) => ProperGenerates(st, a); ProperGenerates(st, b);
    case Comp(_, a, b) => ProperGenerates(st, a); ProperGenerates(st, b);
    case In(a, b, others) =>
      ProperGenerates(st, a);
      ProperGenerates(st, b);
      ElementGenerates(st, b, others);
      ProperElemsGenerate(st, others);
    case Case(rows) => ProperRowsGenerate(st, rows);
  }

  /** An element that keeps to itself is visited like an expression of its own. */
  lemma ElementGenerates(st: seq<Symbol>, b: Expr, others: Elems)
    requires FitsInSet(b, others.End?)
    ensures ElementsGenerate(st, Elem(b, others)) <==> Generates(st, b) && ElementsGenerate(st, others)
  {
    if b.Case? {
      assert EachRowGenerates(st, NoRow, others) && ElementsAsRows(st, End);
      assert RowsGenerate(st, NoRow, End) && (others.End? ==> RowsGenerate(st, NoRow, others));
      assert RowsGenerate(st, b.rows, others) <==> RowsGenerate(st, b.rows, End);
    }
  }

  lemma {:induction false} ProperElemsGenerate(st: seq<Symbol>, elems: Elems)
    requires ProperElems(elems)
    ensures ElementsGenerate(st, elems) <==> DeclaredElems(st, elems)
    decreases elems
  {
    if elems.Elem? {
      ProperGenerates(st, elems.head);
      ElementGenerates(st, elems.head, elems.tail);
      ProperElemsGenerate(st, elems.tail);
    }
  }

  lemma {:induction false} ProperRowsGenerate(st: seq<Symbol>, rows: Rows)
    requires ProperRows(rows)
    ensures RowsGenerate(st, rows, End) <==> DeclaredRows(st, rows)
    decreases rows
  {
    if rows.Row? {
      ProperGenerates(st, rows.val);
      ProperGenerates(st, rows.cond);
      if !IsOne(rows.cond) {
        ProperRowsGenerate(st, rows.rest);
      }
    }
  }
}
