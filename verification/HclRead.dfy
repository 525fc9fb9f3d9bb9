/** When the nodes built for an expression, read back, are the expression again. */
module HclRead {
  import opened Options
  import opened HclTree

  /** The list of the elements of a set, in which the rows of a case expression are nodes of the list. */
  function Chain(elems: Elems): Node
    decreases elems
  {
    if elems.End? then Null else Concat(Build(elems.head), Chain(elems.tail))
  }

  function RowChain(rows: Rows): Node
    decreases rows
  {
    if rows.NoRow? then Null else Node(KCase, false, Build(rows.cond), Build(rows.val), RowChain(rows.rest))
  }

  lemma {:induction false} ElemsAreChained(list: Node, elems: Elems)
    ensures BuildElems(list, elems) == Concat(list, Chain(elems))
    decreases elems
  {
    if elems.End? {
      ConcatNull(list);
    } else {
      ElemsAreChained(Concat(list, Build(elems.head)), elems.tail);
      ConcatAssociative(list, Build(elems.head), Chain(elems.tail));
    }
  }

  lemma {:induction false} RowsAreChained(list: Node, rows: Rows)
    ensures BuildRows(list, rows) == Concat(list, RowChain(rows))
    decreases rows
  {
    if rows.NoRow? {
      ConcatNull(list);
    } else {
      var row := NewNode(KCase, false, Build(rows.cond), Build(rows.val));
      RowsAreChained(Concat(list, row), rows.rest);
      ConcatAssociative(list, row, RowChain(rows.rest));
      assert Concat(row, RowChain(rows.rest)) == row.(next := RowChain(rows.rest));
    }
  }

  lemma {:induction false} ConcatNull(n: Node)
    ensures Concat(n, Null) == n
  {
    if n.Node? {
      ConcatNull(n.next);
    }
  }

  function Length(n: Node): nat {
    if n.Null? then 0 else 1 + Length(n.next)
  }

  function Count(elems: Elems): nat {
    if elems.End? then 0 else 1 + Count(elems.tail)
  }

  predicate NoEmptyCase(elems: Elems) {
    elems.Elem? ==> (elems.head.Case? ==> elems.head.rows.Row?) && NoEmptyCase(elems.tail)
  }

  lemma {:induction false} ConcatLength(n1: Node, n2: Node)
    ensures Length(Concat(n1, n2)) == Length(n1) + Length(n2)
  {
    if n1.Node? {
      ConcatLength(n1.next, n2);
    }
  }

  /** Each node of a list is read as one element, and never as a case expression without rows. */
  lemma {:induction false} ElementPerNode(n: Node)
    requires ReadElems(n).Some?
    ensures Count(ReadElems(n).value) == Length(n) && NoEmptyCase(ReadElems(n).value)
    decreases n
  {
    if n.Node? {
      if Read(n).value.Case? {
        ReadHasRows(n);
      }
      ElementPerNode(n.next);
    }
  }

  lemma ReadHasRows(n: Node)
    requires Read(n).Some? && Read(n).value.Case?
    ensures Read(n).value.rows.Row?
  {
    assert ReadRows(n).Some? && ReadRows(n).value.Row?;
  }

  lemma {:induction false} TrimmedElems(elems: Elems)
    ensures Count(TrimElems(elems)) == Count(elems)
    ensures NoEmptyCase(TrimElems(elems)) <==> NoEmptyCase(elems)
    decreases elems
  {
    if elems.Elem? {
      TrimmedElems(elems.tail);
      var e := elems.head;
      assert TrimElems(elems) == Elem(Trim(e), TrimElems(elems.tail));
      assert (e.Case? <==> Trim(e).Case?) && (e.Case? ==> (e.rows.NoRow? <==> Trim(e).rows.NoRow?));
    }
  }

  lemma {:induction false} ChainLength(elems: Elems)
    requires NoEmptyCase(elems)
    ensures Length(Chain(elems)) >= Count(elems)
    decreases elems
  {
    if elems.Elem? {
      ConcatLength(Build(elems.head), Chain(elems.tail));
      BuildLength(elems.head);
      ChainLength(elems.tail);
    }
  }

  lemma BuildLength(e: Expr)
    ensures e.Case? ==> Build(e) == RowChain(e.rows)
    ensures e.Case? && e.rows.Row? ==> Length(Build(e)) == 1 + Length(RowChain(e.rows.rest))
    ensures e.Case? && e.rows.Row? && e.rows.rest.Row? ==> Length(Build(e)) >= 2
    ensures !e.Case? ==> Length(Build(e)) == 1
  {
    if e.Case? {
      RowsAreChained(Null, e.rows);
    } else {
      assert Length(Null) == 0;
    }
  }

  /** The nodes built for an expression are read as that expression exactly if it is proper. */
  lemma {:induction false} ReadBack(e: Expr)
    ensures Read(Build(e)) == Some(Trim(e)) <==> Proper(e)
    decreases e, 0
  {
    match e
    case Var(_) =>
    case Num(_) =>
    case Not(a) => ReadBack(a);
    case And(a, b) => ReadBack(a); ReadBack(b);
    case Or(a, b) => ReadBack(a); ReadBack(b);
    case Comp(_, a, b) => ReadBack(a); ReadBack(b);
    case In(a, b, others) =>
      ReadBack(a);
      ReadBack(b);
      ReadBackElems(others);
      ElemsAreChained(Build(b), others);
      SetReadBack(b, others);
    case Case(rows) =>
      RowsAreChained(Null, rows);
      ReadBackRows(rows);
  }

  lemma {:induction false} ReadBackElems(elems: Elems)
    ensures ReadElems(Chain(elems)) == Some(TrimElems(elems)) <==> ProperElems(elems)
    decreases elems, 1
  {
    if elems.Elem? {
      ReadBack(elems.head);
      ReadBackElems(elems.tail);
      SetReadBack(elems.head, elems.tail);
    }
  }

  /** One element of a set in front of the others. */
  lemma SetReadBack(b: Expr, others: Elems)
    requires Read(Build(b)) == Some(Trim(b)) <==> Proper(b)
    requires ReadElems(Chain(others)) == Some(TrimElems(others)) <==> ProperElems(others)
    ensures ReadElems(Concat(Build(b), Chain(others))) == Some(Elem(Trim(b), TrimElems(others)))
       <==> Proper(b) && FitsInSet(b, others.End?) && ProperElems(others)
  {
    hide Read, Build, Proper, Trim, ReadRows, Chain, TrimElems, ProperElems;
    if !b.Case? {
      AloneInFront(b, Chain(others));
    } else if b.rows.Row? && b.rows.rest.NoRow? {
      SingleRowInFront(b.rows.cond, b.rows.val, others);
    } else {
      RowsInFront(b, others);
    }
  }

  /** Anything but a case expression is one node, which is read alike whatever follows. */
  lemma AloneInFront(b: Expr, rest: Node)
    requires !b.Case?
    ensures var list := Concat(Build(b), rest);
      list.Node? && list.next == rest && Read(list) == Read(Build(b))
  {
    var n := Build(b);
    assert Concat(Null, rest) == rest;
    assert n.Node? && n.next.Null?;
    assert Concat(n, rest) == n.(next := rest);
  }

  /** So is a case expression of a single row if its condition is 1. */
  lemma SingleRowInFront(c: Expr, val: Expr, others: Elems)
    requires Read(Build(Case(Row(c, val, NoRow)))) == Some(Trim(Case(Row(c, val, NoRow))))
         <==> Proper(Case(Row(c, val, NoRow)))
    ensures var b := Case(Row(c, val, NoRow));
      var list := Concat(Build(b), Chain(others));
      && list.Node? && list.next == Chain(others)
      && (Read(list) == Some(Trim(b)) && ReadElems(Chain(others)) == Some(TrimElems(others))
          <==> Proper(b) && FitsInSet(b, others.End?) && ReadElems(Chain(others)) == Some(TrimElems(others)))
  {
    var b := Case(Row(c, val, NoRow));
    BuildLength(b);
    var n := Build(b);
    assert n == Node(KCase, false, Build(c), Build(val), Null);
    assert Concat(Null, Chain(others)) == Chain(others);
    var list := Concat(n, Chain(others));
    assert list == n.(next := Chain(others));
    assert TrimRows(NoRow) == NoRow && TrimRows(b.rows) == Row(Trim(c), Trim(val), NoRow);
    assert IsOne(Trim(c)) <==> IsOne(c);
    if ReadElems(Chain(others)) == Some(TrimElems(others)) {
      assert others.End? <==> Chain(others).Null?;
      RowAlone(n, Trim(c), Trim(val));
      RowAlone(list, Trim(c), Trim(val));
    }
  }

  /** When a list of rows is read as a single one. */
  lemma RowAlone(n: Node, c: Expr, val: Expr)
    requires n.Node? && n.kind == KCase
    ensures Read(n) == Some(Case(Row(c, val, NoRow)))
       <==> Read(n.arg1) == Some(c) && Read(n.arg2) == Some(val) && (IsOne(c) || n.next.Null?)
  {
    assert Read(n) == Some(Case(Row(c, val, NoRow))) <==> ReadRows(n) == Some(Row(c, val, NoRow));
    assert ReadRows(n.next) == Some(NoRow) <==> n.next.Null?;
  }

  /** Two or more rows are as many elements, and none is no element. */
  lemma RowsInFront(b: Expr, others: Elems)
    requires b.Case? && (b.rows.NoRow? || b.rows.rest.Row?)
    ensures ReadElems(Concat(Build(b), Chain(others))) != Some(Elem(Trim(b), TrimElems(others)))
  {
    var elems, list := Elem(b, others), Concat(Build(b), Chain(others));
    TrimmedElems(elems);
    BuildLength(b);
    if ReadElems(list) == Some(TrimElems(elems)) {
      ElementPerNode(list);
      ConcatLength(Build(b), Chain(others));
      ChainLength(others);
      assert false;
    }
  }

  lemma {:induction false} ReadBackRows(rows: Rows)
    ensures ReadRows(RowChain(rows)) == Some(TrimRows(rows)) <==> ProperRows(rows)
    decreases rows, 1
  {
    if rows.Row? {
      ReadBack(rows.cond);
      ReadBack(rows.val);
      ReadBackRows(rows.rest);
    }
  }
}
