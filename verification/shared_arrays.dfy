/**
 The canonical core: expression nodes are shared arrays, rewritten in
 place, so that every rule holding one sees the rewrite.
 */
module SharedArrays {
  import opened Operators
  import opened Located
  import P = Pratt

  /** An operation array: its operator, and the terms pushed so far. */
  class ExprNode<A> {
    var op: Op
    var terms: seq<Term<ExprNode<A>, A>>

    constructor (op: Op, terms: seq<Term<ExprNode<A>, A>>)
      ensures this.op == op && this.terms == terms
    {
      this.op, this.terms := op, terms;
    }
  }

  type Shape<A> = Layout<ExprNode<A>, A>

  /** Each node of the layout holds the operator and the terms the layout says. */
  ghost predicate Holds<A>(l: Shape<A>)
    reads l.Ids()
    decreases l
  {
    l.Spot? || (
      KidsInside(l);
      && l.id.op == l.op && l.id.terms == l.Tops()
      && forall k | 0 <= k < |l.kids| :: Holds(l.kids[k]))
  }

  /** Nodes a layout names exist, so a node made later is none of them. */
  lemma {:induction false} Exist<A>(l: Shape<A>)
    ensures forall n | n in l.Ids() :: allocated(n)
    decreases l
  {
    if l.Cell? {
      forall n | n in l.Ids()
        ensures allocated(n)
      {
        if n != l.id {
          assert n in l.KidIds();
          var k :| 0 <= k < |l.kids| && n in l.kids[k].Ids();
          Exist(l.kids[k]);
        }
      }
    }
  }

  /** A tree of distinct nodes that hold what it says. */
  ghost predicate InPlace<A>(l: Shape<A>)
    reads l.Ids()
  {
    l.Apart() && Holds(l)
  }

  /** Rewrite a node in place, truncating it to the given terms. */
  method UpdateExprNode<A>(node: ExprNode<A>, op: Op, terms: seq<Term<ExprNode<A>, A>>)
    modifies node
    ensures node.op == op && node.terms == terms
  {
    node.op := op;
    node.terms := terms;
  }

  /** A shallow copy: its own identity, the same terms. */
  method DupNode<A>(node: ExprNode<A>) returns (out: ExprNode<A>)
    ensures fresh(out) && out.op == node.op && out.terms == node.terms
  {
    out := new ExprNode(node.op, node.terms);
  }

  /** Assign the last term, which for a node missing it is the next slot. */
  method SetLast<A>(node: ExprNode<A>, term: Term<ExprNode<A>, A>)
    requires |node.terms| == node.op.Terms() - 1 || |node.terms| == node.op.Terms()
    modifies node`terms
    ensures |old(node.terms)| == node.op.Terms() ==> node.terms == old(node.terms)[|old(node.terms)| - 1 := term]
    ensures |old(node.terms)| < node.op.Terms() ==> node.terms == old(node.terms) + [term]
  {
    node.terms := node.terms[..node.op.Terms() - 1] + [term];
  }

  /** Moving a node's content to another identity moves nothing below it. */
  lemma Moved<A>(l: Shape<A>, copy: ExprNode<A>) returns (moved: Shape<A>)
    requires l.Cell? && l.Apart() && copy !in l.Ids()
    ensures moved == Cell(copy, l.op, l.kids) && moved.Apart() && moved.Tops() == l.Tops()
    ensures moved.Ids() == {copy} + l.KidIds() && moved.Erase() == l.Erase()
  {
    moved := Cell(copy, l.op, l.kids);
    assert moved.KidIds() == l.KidIds();
    assert moved.Erased() == l.Erased();
  }

  lemma HoldsKids<A>(l: Shape<A>)
    requires l.Cell?
    ensures Holds(l) <==> l.id.op == l.op && l.id.terms == l.Tops() && forall k | 0 <= k < |l.kids| :: Holds(l.kids[k])
  {
  }

  /** Wrap a node's whole content under a new operator: the content moves to a copy. */
  method Wrap<A>(expr: ExprNode<A>, op: Op, ghost l: Shape<A>) returns (ghost l': Shape<A>)
    requires l.Cell? && l.id == expr && InPlace(l)
    modifies expr
    ensures l'.Cell? && l'.id == expr && InPlace(l')
    ensures l.Ids() <= l'.Ids() && fresh(l'.Ids() - l.Ids())
    ensures l'.Erase() == Node(op, [l.Erase()])
  {
    Exist(l);
    HoldsKids(l);
    KidsInside(l);
    var copy := DupNode(expr);
    UpdateExprNode(expr, op, [Ref(copy)]);
    ghost var moved := Moved(l, copy);
    SingleIds(expr, op, moved);
    l' := Cell(expr, op, [moved]);
    assert forall k | 0 <= k < |l.kids| :: Holds(l.kids[k]);
    HoldsKids(moved);
    HoldsKids(l');
  }

  lemma HoldsWithLast<A>(l: Shape<A>, last: Shape<A>)
    requires l.Cell? && l.kids != []
    requires l.id.op == l.op && l.id.terms == l.Tops()[|l.kids| - 1 := last.Top()]
    requires forall k | 0 <= k < |l.kids| - 1 :: Holds(l.kids[k])
    requires Holds(last)
    ensures Holds(l.WithLast(last))
  {
    var u := l.WithLast(last);
    assert forall k | 0 <= k < |l.kids| - 1 :: u.kids[k] == l.kids[k];
    assert u.Tops() == l.Tops()[|l.kids| - 1 := last.Top()];
    HoldsKids(u);
  }

  /** The last term and the ones before it share nothing, nor does the node itself with any of them. */
  lemma LastApart<A>(l: Shape<A>)
    requires l.Cell? && l.kids != [] && l.Apart()
    ensures l.Last().Apart() && l.Last().Ids() <= l.KidIds() && l.id !in l.KidIds()
    ensures forall k | 0 <= k < |l.kids| - 1 :: l.kids[k].Ids() !! l.Last().Ids() && l.kids[k].Ids() <= l.KidIds()
  {
    KidsInside(l);
  }

  /** Put the last term under a new operator. */
  method WrapLast<A>(expr: ExprNode<A>, op: Op, ghost l: Shape<A>) returns (out: ExprNode<A>, ghost l': Shape<A>)
    requires l.Cell? && l.id == expr && InPlace(l) && l.kids != [] && |l.kids| == l.op.Terms()
    modifies expr
    ensures l' == l.WithLast(Cell(out, op, [l.Last()])) && InPlace(l')
    ensures l'.Erase() == l.Erase().WithLast(Node(op, [l.Erase().Last()]))
    ensures l.Ids() <= l'.Ids() && fresh(l'.Ids() - l.Ids())
  {
    Exist(l);
    HoldsKids(l);
    LastApart(l);
    EraseShape(l);
    var last := expr.terms[expr.op.Terms() - 1];
    out := new ExprNode(op, [last]);
    assert out !in l.Ids();
    SetLast(expr, Ref(out));
    ghost var inner := Cell(out, op, [l.Last()]);
    SingleIds(out, op, l.Last());
    HoldsKids(inner);
    WithLastIds(l, inner);
    assert forall k | 0 <= k < |l.kids| - 1 :: Holds(l.kids[k]);
    HoldsWithLast(l, inner);
    l' := l.WithLast(inner);
  }

  /** Put a node without terms in the next slot. */
  method FillNext<A>(expr: ExprNode<A>, op: Op, ghost l: Shape<A>) returns (out: ExprNode<A>, ghost l': Shape<A>)
    requires l.Cell? && l.id == expr && InPlace(l) && |l.kids| == l.op.Terms() - 1
    modifies expr
    ensures l' == l.With(Cell(out, op, [])) && InPlace(l')
    ensures l'.Erase() == Node(l.op, l.Erase().terms + [Node(op, [])])
    ensures l.Ids() <= l'.Ids() && fresh(l'.Ids() - l.Ids())
  {
    Exist(l);
    HoldsKids(l);
    KidsInside(l);
    out := new ExprNode(op, []);
    assert out !in l.Ids();
    SetLast(expr, Ref(out));
    ghost var inner := Cell(out, op, []);
    assert inner.Apart() && inner.Ids() == {out} && inner.Erased() == [] && inner.Tops() == [];
    HoldsKids(inner);
    WithIds(l, inner);
    EraseShape(l);
    l' := l.With(inner);
    assert forall k | 0 <= k < |l.kids| :: Holds(l.kids[k]);
    assert l'.Tops() == l.Tops() + [Ref(out)];
    HoldsKids(l');
  }

  /** The layout after a rewrite inside the last term, which kept that term's identity. */
  lemma Drilled<A>(l: Shape<A>, inner: Shape<A>) returns (l': Shape<A>)
    requires l.Cell? && l.kids != [] && l.Apart() && InPlace(inner)
    requires l.Last().Ids() <= inner.Ids() && (inner.Ids() - l.Last().Ids()) !! l.Ids()
    requires l.id.op == l.op && l.id.terms == l.Tops() && inner.Top() == l.Last().Top()
    requires forall k | 0 <= k < |l.kids| - 1 :: Holds(l.kids[k])
    ensures l' == l.WithLast(inner) && InPlace(l') && l'.Ids() == l.Ids() + inner.Ids() && l'.Last() == inner
    ensures l'.Erase() == l.Erase().WithLast(inner.Erase())
  {
    EraseShape(l);
    WithLastIds(l, inner);
    HoldsWithLast(l, inner);
    l' := l.WithLast(inner);
  }

  lemma AtLast<A>(l: Shape<A>)
    requires l.Cell? && l.kids != []
    ensures l.Reaches(1) && l.At(1) == l.Last()
  {
  }

  /** Embed the next operator; the root keeps its identity and `out` is where its next term goes. */
  method Prattify<A>(expr: ExprNode<A>, op: Op, ghost l: Shape<A>) returns (out: ExprNode<A>, ghost l': Shape<A>)
    requires l.Cell? && l.id == expr && InPlace(l) && P.Applicable(l.Erase(), op)
    modifies l.Ids()
    ensures l'.Cell? && l'.id == expr && InPlace(l')
    ensures l.Ids() <= l'.Ids() && fresh(l'.Ids() - l.Ids())
    ensures l'.Erase() == P.Prattify(l.Erase(), op).0
    ensures l'.Reaches(P.Prattify(l.Erase(), op).1) && l'.At(P.Prattify(l.Erase(), op).1).Top() == Ref(out)
    decreases l, 1
  {
    EraseShape(l);
    HoldsKids(l);
    if op.kind.Infix? {
      out, l' := PrattifyInfix(expr, op, l);
    } else if op.kind.Prefix? {
      out, l' := FillNext(expr, op, l);
      AtLast(l');
    } else {
      out := expr;
      l' := PrattifySuffix(expr, op, l);
    }
  }

  method PrattifyInfix<A>(expr: ExprNode<A>, op: Op, ghost l: Shape<A>) returns (out: ExprNode<A>, ghost l': Shape<A>)
    requires l.Cell? && l.id == expr && InPlace(l) && P.Applicable(l.Erase(), op) && op.kind.Infix?
    modifies l.Ids()
    ensures l'.Cell? && l'.id == expr && InPlace(l')
    ensures l.Ids() <= l'.Ids() && fresh(l'.Ids() - l.Ids())
    ensures l'.Erase() == P.Prattify(l.Erase(), op).0
    ensures l'.Reaches(P.Prattify(l.Erase(), op).1) && l'.At(P.Prattify(l.Erase(), op).1).Top() == Ref(out)
    decreases l, 0, 1
  {
    EraseShape(l);
    HoldsKids(l);
    if expr.op.kind.Suffix? || op.left <= expr.op.right {
      out := expr;
      l' := Wrap(expr, op, l);
    } else {
      LastApart(l);
      var last := expr.terms[expr.op.Terms() - 1];
      assert last == l.Last().Top();
      if last.Ref? && last.id.op.right < op.left {
        DrilledAt(l, l.Last(), op);
        ghost var inner;
        out, l', inner := PrattifyLast(last.id, op, l);
        DrilledAt(l, inner, op);
      } else {
        out, l' := WrapLast(expr, op, l);
        WrappedAt(l, Cell(out, op, [l.Last()]), op);
      }
    }
  }

  /** Embed the operator in the last term, a node of its own. */
  method PrattifyLast<A>(last: ExprNode<A>, op: Op, ghost l: Shape<A>)
    returns (out: ExprNode<A>, ghost l': Shape<A>, ghost inner: Shape<A>)
    requires l.Cell? && l.kids != [] && InPlace(l) && l.Last().Cell? && l.Last().id == last
    requires P.Applicable(l.Last().Erase(), op)
    modifies l.Last().Ids()
    ensures l'.Cell? && l'.id == l.id && InPlace(l')
    ensures l.Ids() <= l'.Ids() && fresh(l'.Ids() - l.Ids())
    ensures |l.Erase().terms| == |l.kids| && l'.Erase() == l.Erase().WithLast(P.Prattify(l.Last().Erase(), op).0)
    ensures l' == l.WithLast(inner)
    ensures inner.Reaches(P.Prattify(l.Last().Erase(), op).1) && inner.At(P.Prattify(l.Last().Erase(), op).1).Top() == Ref(out)
    decreases l, 0, 0
  {
    Exist(l);
    EraseShape(l);
    HoldsKids(l);
    LastApart(l);
    assert forall k | 0 <= k < |l.kids| - 1 :: Holds(l.kids[k]) && l.kids[k].Ids() <= l.Ids();
    out, inner := Prattify(last, op, l.Last());
    assert forall k | 0 <= k < |l.kids| - 1 :: Holds(l.kids[k]);
    l' := Drilled(l, inner);
  }

  method PrattifySuffix<A>(expr: ExprNode<A>, op: Op, ghost l: Shape<A>) returns (ghost l': Shape<A>)
    requires l.Cell? && l.id == expr && InPlace(l) && P.Applicable(l.Erase(), op) && op.kind.Suffix?
    modifies l.Ids()
    ensures l'.Cell? && l'.id == expr && InPlace(l')
    ensures l.Ids() <= l'.Ids() && fresh(l'.Ids() - l.Ids())
    ensures l'.Erase() == P.Prattify(l.Erase(), op).0
    decreases l, 0, 1
  {
    EraseShape(l);
    HoldsKids(l);
    if !expr.op.kind.Suffix? && expr.op.right <= op.left {
      LastApart(l);
      var last := expr.terms[expr.op.Terms() - 1];
      assert last == l.Last().Top();
      if last.Ref? && last.id.op.kind.Prefix? && last.id.op.right < op.left {
        var _, drilled, _ := PrattifyLast(last.id, op, l);
        l' := drilled;
      } else {
        var _, wrapped := WrapLast(expr, op, l);
        l' := wrapped;
      }
    } else {
      l' := Wrap(expr, op, l);
    }
  }
}
