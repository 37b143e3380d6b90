/**
 The `expr` rule actions over shared arrays: which node each action hands
 to the core, and that a run of them performs the run on values.
 */
module Rules {
  import opened Operators
  import opened Located
  import opened SharedArrays
  import P = Pratt

  /** Everything outside one spine node holds what the layout says. */
  ghost predicate HoldsAround<A>(l: Shape<A>, depth: nat)
    requires l.Apart() && l.Reaches(depth)
    reads l.Ids() - l.At(depth).Ids()
    decreases l
  {
    depth == 0 || (
      AroundApart(l, depth);
      && l.id.op == l.op && l.id.terms == l.Tops()
      && (forall k | 0 <= k < |l.kids| - 1 :: Holds(l.kids[k]))
      && HoldsAround(l.Last(), depth - 1))
  }

  lemma AtInside<A>(l: Shape<A>, depth: nat)
    requires l.Apart() && l.Reaches(depth)
    ensures l.At(depth).Ids() <= l.Ids() && l.At(depth).Apart()
  {
    if depth > 0 {
      LastApart(l);
      AtInside(l.Last(), depth - 1);
    }
  }

  lemma AroundApart<A>(l: Shape<A>, depth: nat)
    requires l.Apart() && l.Reaches(depth) && depth > 0
    ensures l.At(depth).Ids() <= l.Last().Ids() <= l.KidIds() && l.id !in l.KidIds() && l.Last().Apart()
    ensures forall k | 0 <= k < |l.kids| - 1 :: l.kids[k].Ids() !! l.Last().Ids() && l.kids[k].Ids() <= l.KidIds()
  {
    LastApart(l);
    AtInside(l.Last(), depth - 1);
  }

  lemma {:induction false} HoldsSplit<A>(l: Shape<A>, depth: nat)
    requires InPlace(l) && l.Reaches(depth)
    ensures HoldsAround(l, depth) && InPlace(l.At(depth))
  {
    if depth > 0 {
      HoldsKids(l);
      AroundApart(l, depth);
      HoldsSplit(l.Last(), depth - 1);
    }
  }

  lemma {:induction false} HoldsPut<A>(l: Shape<A>, depth: nat, m: Shape<A>)
    requires l.Apart() && l.Reaches(depth) && HoldsAround(l, depth) && Holds(m) && m.Top() == l.At(depth).Top()
    ensures Holds(l.Put(depth, m)) && l.Put(depth, m).Top() == l.Top()
  {
    if depth > 0 {
      AroundApart(l, depth);
      HoldsPut(l.Last(), depth - 1, m);
      assert l.Last().Put(depth - 1, m).Top() == l.Last().Top();
      HoldsWithLast(l, l.Last().Put(depth - 1, m));
    }
  }

  /** A rewrite of a spine node that keeps its identity leaves the whole tree in place. */
  lemma Rewritten<A>(l: Shape<A>, depth: nat, m: Shape<A>) returns (l': Shape<A>)
    requires l.Apart() && l.Reaches(depth) && HoldsAround(l, depth) && InPlace(m) && m.Top() == l.At(depth).Top()
    requires l.At(depth).Ids() <= m.Ids() && (m.Ids() - l.At(depth).Ids()) !! l.Ids()
    ensures l' == l.Put(depth, m) && InPlace(l') && l'.Top() == l.Top() && l'.Ids() == l.Ids() + m.Ids()
    ensures l'.Reaches(depth) && l'.At(depth) == m
  {
    HoldsPut(l, depth, m);
    PutIds(l, depth, m);
    l' := l.Put(depth, m);
  }

  /** Apply the core to a node on the spine of a larger expression. */
  method PrattifyAt<A>(node: ExprNode<A>, op: Op, ghost l: Shape<A>, ghost depth: nat, ghost above: nat)
    returns (out: ExprNode<A>, ghost l': Shape<A>)
    requires InPlace(l) && l.Erase().OnSpine(depth) && l.Reaches(depth) && Is(l.At(depth), node) && above <= depth
    requires P.Applicable(l.Erase().At(depth), op)
    modifies l.At(depth).Ids()
    ensures InPlace(l') && l'.Top() == l.Top() && l.Ids() <= l'.Ids() && fresh(l'.Ids() - l.Ids())
    ensures l'.Erase() == l.Erase().Put(depth, P.Prattify(l.Erase().At(depth), op).0)
    ensures l'.Reaches(depth) && Is(l'.At(depth), node)
    ensures var more := P.Prattify(l.Erase().At(depth), op).1;
            l'.At(depth).Reaches(more) && Is(l'.At(depth).At(more), out)
    ensures l.Reaches(above) && l'.Reaches(above) && l'.At(above).Top() == l.At(above).Top()
  {
    HoldsSplit(l, depth);
    AtInside(l, depth);
    EraseAt(l, depth);
    Exist(l);
    ghost var m;
    out, m := Prattify(node, op, l.At(depth));
    EraseAt(l, depth);
    l' := Rewritten(l, depth, m);
    PutTop(l, depth, above, m);
  }

  /** Push a finished operand on a node of its own. */
  method Push<A>(node: ExprNode<A>, term: Term<ExprNode<A>, A>, ghost l: Shape<A>, ghost x: Shape<A>)
    requires InPlace(l) && Is(l, node) && InPlace(x) && x.Top() == term && x.Ids() !! l.Ids()
    modifies node`terms
    ensures InPlace(l.With(x)) && l.With(x).Ids() == l.Ids() + x.Ids()
  {
    HoldsKids(l);
    KidsInside(l);
    assert forall k | 0 <= k < |l.kids| :: Holds(l.kids[k]) && node !in l.kids[k].Ids();
    node.terms := node.terms + [term];
    assert forall k | 0 <= k < |l.kids| :: Holds(l.kids[k]);
    WithIds(l, x);
    assert l.With(x).Tops() == l.Tops() + [term];
    HoldsKids(l.With(x));
  }

  /** Push a finished operand on the open node of a larger expression. */
  method PushAt<A>(node: ExprNode<A>, term: Term<ExprNode<A>, A>, ghost l: Shape<A>, ghost depth: nat, ghost above: nat, ghost x: Shape<A>)
    returns (ghost l': Shape<A>)
    requires InPlace(l) && l.Erase().OnSpine(depth) && l.Reaches(depth) && Is(l.At(depth), node) && above <= depth
    requires InPlace(x) && x.Top() == term && x.Ids() !! l.Ids()
    modifies node`terms
    ensures InPlace(l') && l'.Top() == l.Top() && l'.Ids() == l.Ids() + x.Ids()
    ensures var slot := l.Erase().At(depth);
            slot.Node? && l'.Erase() == l.Erase().Put(depth, Node(slot.op, slot.terms + [x.Erase()]))
    ensures l.Reaches(above) && l'.Reaches(above) && l'.At(above).Top() == l.At(above).Top()
  {
    HoldsSplit(l, depth);
    AtInside(l, depth);
    EraseAt(l, depth);
    EraseShape(l.At(depth));
    Exist(l);
    ghost var m := l.At(depth).With(x);
    assert HoldsAround(l, depth) && node !in l.Ids() - l.At(depth).Ids();
    Push(node, term, l.At(depth), x);
    assert HoldsAround(l, depth);
    assert m.Ids() == l.At(depth).Ids() + x.Ids();
    l' := Rewritten(l, depth, m);
    PutTop(l, depth, above, m);
  }

  ghost predicate Is<A>(l: Shape<A>, node: ExprNode?<A>) {
    l.Cell? && l.id == node
  }

  /** The layout is a valid run state, and the held nodes are the spine nodes its depths say. */
  ghost predicate Linked<A>(l: Shape<A>, topDepth: nat, atDepth: nat, term: Term<ExprNode<A>, A>, top: ExprNode?<A>, at: ExprNode?<A>) {
    && l.Top() == term
    && P.Valid(P.Run(l.Erase(), topDepth, atDepth))
    && (l.Cell? ==> l.Reaches(topDepth) && Is(l.At(topDepth), top))
    && (l.Erase().Open() ==> l.Reaches(atDepth) && Is(l.At(atDepth), at))
  }

  lemma LinkedPrefix<A>(l: Shape<A>, topDepth: nat, atDepth: nat, term: Term<ExprNode<A>, A>, top: ExprNode?<A>, at: ExprNode?<A>,
                        op: Op, l': Shape<A>, at': ExprNode<A>)
    requires Linked(l, topDepth, atDepth, term, top, at) && l.Cell?
    requires op.kind.Prefix? && P.Accepts(P.Run(l.Erase(), topDepth, atDepth), Operator(op))
    requires l'.Top() == l.Top() && l'.Erase() == l.Erase().Put(atDepth, P.Prattify(l.Erase().At(atDepth), op).0)
    requires l'.Reaches(atDepth) && l'.At(atDepth).Reaches(1) && Is(l'.At(atDepth).At(1), at')
    requires l'.Reaches(topDepth) && l'.At(topDepth).Top() == l.At(topDepth).Top()
    ensures Linked(l', topDepth, atDepth + 1, term, top, at')
    ensures P.Run(l'.Erase(), topDepth, atDepth + 1) == P.Step(P.Run(l.Erase(), topDepth, atDepth), Operator(op))
  {
    P.StepValid(P.Run(l.Erase(), topDepth, atDepth), Operator(op));
    ReachesSum(l', atDepth, 1);
  }

  lemma LinkedInfix<A>(l: Shape<A>, topDepth: nat, atDepth: nat, term: Term<ExprNode<A>, A>, top: ExprNode?<A>, at: ExprNode?<A>,
                       op: Op, l': Shape<A>, out: ExprNode<A>)
    requires Linked(l, topDepth, atDepth, term, top, at) && l.Cell?
    requires op.kind.Infix? && P.Accepts(P.Run(l.Erase(), topDepth, atDepth), Operator(op))
    requires l'.Top() == l.Top() && l'.Erase() == P.Prattify(l.Erase(), op).0
    requires l'.Reaches(P.Prattify(l.Erase(), op).1) && Is(l'.At(P.Prattify(l.Erase(), op).1), out)
    ensures var depth := P.Prattify(l.Erase(), op).1;
            && Linked(l', depth, depth, term, out, out)
            && P.Run(l'.Erase(), depth, depth) == P.Step(P.Run(l.Erase(), topDepth, atDepth), Operator(op))
  {
    P.StepValid(P.Run(l.Erase(), topDepth, atDepth), Operator(op));
  }

  /** Open a prefix at the attachment point. */
  method PrefixAt<A>(at: ExprNode<A>, op: Op, ghost l: Shape<A>, ghost topDepth: nat, ghost atDepth: nat,
                     ghost term: Term<ExprNode<A>, A>, ghost top: ExprNode?<A>)
    returns (attach: ExprNode<A>, ghost l': Shape<A>)
    requires InPlace(l) && Linked(l, topDepth, atDepth, term, top, at) && l.Cell?
    requires op.kind.Prefix? && P.Accepts(P.Run(l.Erase(), topDepth, atDepth), Operator(op))
    modifies l.Ids()
    ensures InPlace(l') && Linked(l', topDepth, atDepth + 1, term, top, attach)
    ensures l.Ids() <= l'.Ids() && fresh(l'.Ids() - l.Ids())
    ensures P.Run(l'.Erase(), topDepth, atDepth + 1) == P.Step(P.Run(l.Erase(), topDepth, atDepth), Operator(op))
  {
    AtInside(l, atDepth);
    attach, l' := PrattifyAt(at, op, l, atDepth, topDepth);
    LinkedPrefix(l, topDepth, atDepth, term, top, at, op, l', attach);
  }

  /** An operator with at most its first term makes a valid run state. */
  lemma FirstTerm<A>(op: Op, terms: seq<Tree<A>>)
    requires op.WellPowered() && |terms| == (if op.kind.Prefix? then 0 else 1) && forall k | 0 <= k < |terms| :: terms[k].Whole()
    ensures P.Valid(P.Run(Node(op, terms), 0, 0))
  {
  }

  datatype Held<A> = Nothing | Something(term: Term<ExprNode<A>, A>)

  /**
   The nodes the rules hold while one expression is read: the first value's
   rule holds the root, the last infix rule the node a suffix goes to, and
   the innermost open rule the node the next term is pushed on.
   */
  class ExprRules<A(0)> {
    var root: Held<A>
    var top: ExprNode?<A>
    var at: ExprNode?<A>
    ghost var layout: Shape<A>
    ghost var topDepth: nat
    ghost var atDepth: nat

    /** The run state the nodes make up. */
    ghost function State(): P.State<A>
      reads this
    {
      if root.Nothing? then P.Start else P.Run(layout.Erase(), topDepth, atDepth)
    }

    /** The nodes reachable from the root. */
    ghost function Footprint(): set<ExprNode<A>>
      reads this
    {
      if root.Nothing? then {} else layout.Ids()
    }

    ghost predicate Valid()
      reads this, Footprint()
    {
      root.Something? ==> InPlace(layout) && Linked(layout, topDepth, atDepth, root.term, top, at)
    }

    constructor ()
      ensures Valid() && root == Nothing && State() == P.Start && Footprint() == {}
    {
      root, top, at := Nothing, null, null;
      topDepth, atDepth := 0, 0;
      layout := *;
    }

    /** Start an expression at a fresh node, over an atom if there is a first term. */
    method StartFresh(op: Op, first: Held<A>)
      requires op.WellPowered() && (op.kind.Prefix? <==> first.Nothing?) && (first.Something? ==> first.term.Atom?)
      modifies this
      ensures Valid() && root.Something? && root.term.Ref? && fresh(Footprint())
      ensures State() == P.Run(Node(op, if first.Nothing? then [] else [Leaf(first.term.atom)]), 0, 0)
    {
      var terms := if first.Nothing? then [] else [first.term];
      var node := new ExprNode(op, terms);
      ghost var cell: Shape<A> := Cell(node, op, if first.Nothing? then [] else [Spot(first.term.atom)]);
      assert cell.Tops() == terms;
      assert forall k | 0 <= k < |cell.kids| :: cell.kids[k].Spot? && cell.kids[k].Ids() == {} && Holds(cell.kids[k]);
      assert cell.KidIds() == {};
      assert cell.Apart();
      assert cell.Erased() == if first.Nothing? then [] else [Leaf(first.term.atom)];
      HoldsKids(cell);
      FirstTerm(op, cell.Erased());
      assert cell.Apart();
      assert Holds(cell);
      assert Linked(cell, 0, 0, Ref(node), node, node);
      layout := cell;
      root, top, at := Something(Ref(node)), node, node;
      topDepth, atDepth := 0, 0;
      assert Holds(layout);
    }

    /**
     Start an expression over what the rule before holds. An operation held
     is wrapped where it is, so that every holder sees the new operator; a
     prefix has no first term and starts afresh whatever is held.
     */
    method Prior(op: Op)
      requires Valid() && op.WellPowered() && (!op.kind.Prefix? ==> root.Something? && layout.Erase().Whole())
      modifies this, Footprint()
      ensures Valid() && root.Something? && root.term.Ref?
      ensures State() == P.Run(Node(op, if op.kind.Prefix? then [] else [old(layout.Erase())]), 0, 0)
      ensures fresh(Footprint() - old(Footprint()))
      ensures !op.kind.Prefix? ==> old(Footprint()) <= Footprint() && (old(root.term.Ref?) ==> root == old(root))
    {
      if op.kind.Prefix? {
        StartFresh(op, Nothing);
      } else if root.term.Atom? {
        StartFresh(op, root);
      } else {
        ghost var l := Wrap(root.term.id, op, layout);
        FirstTerm(op, [layout.Erase()]);
        layout, topDepth, atDepth := l, 0, 0;
        top, at := root.term.id, root.term.id;
      }
    }

    method Infix(op: Op)
      requires Valid() && op.kind.Infix? && P.Accepts(State(), Operator(op))
      modifies this, Footprint()
      ensures Valid() && State() == P.Step(old(State()), Operator(op))
      ensures old(Footprint()) <= Footprint() && fresh(Footprint() - old(Footprint()))
      ensures old(root.Something? && root.term.Ref?) ==> root == old(root)
    {
      if root.term.Ref? {
        MoreInfix(op);
      } else {
        Prior(op);
      }
    }

    /** The second and further infix operators go to the core at the root. */
    method MoreInfix(op: Op)
      requires Valid() && op.kind.Infix? && P.Accepts(State(), Operator(op)) && root.term.Ref?
      modifies this, layout.Ids()
      ensures Valid() && root == old(root) && State() == P.Step(old(State()), Operator(op))
      ensures old(layout.Ids()) <= layout.Ids() && fresh(layout.Ids() - old(layout.Ids()))
    {
      ghost var depth := P.Prattify(layout.Erase(), op).1;
      var attach, l := Prattify(root.term.id, op, layout);
      LinkedInfix(layout, topDepth, atDepth, root.term, top, at, op, l, attach);
      layout, topDepth, atDepth := l, depth, depth;
      top, at := attach, attach;
    }

    method Prefix(op: Op)
      requires Valid() && op.kind.Prefix? && P.Accepts(State(), Operator(op))
      modifies this, Footprint()
      ensures Valid() && State() == P.Step(old(State()), Operator(op))
      ensures old(Footprint()) <= Footprint() && fresh(Footprint() - old(Footprint()))
      ensures old(root.Something?) ==> root == old(root)
    {
      if root.Nothing? {
        Prior(op);
      } else {
        OpenPrefix(op);
      }
    }

    /** A prefix opens where the next term goes. */
    method OpenPrefix(op: Op)
      requires Valid() && op.kind.Prefix? && P.Accepts(State(), Operator(op)) && root.Something?
      modifies this, layout.Ids()
      ensures Valid() && root == old(root) && State() == P.Step(old(State()), Operator(op))
      ensures old(layout.Ids()) <= layout.Ids() && fresh(layout.Ids() - old(layout.Ids()))
    {
      ghost var before := State();
      var attach, l := PrefixAt(at, op, layout, topDepth, atDepth, root.term, top);
      at, layout, atDepth := attach, l, atDepth + 1;
      assert State() == P.Step(before, Operator(op));
    }

    method Suffix(op: Op)
      requires Valid() && op.kind.Suffix? && P.Accepts(State(), Operator(op))
      modifies this, Footprint()
      ensures Valid() && State() == P.Step(old(State()), Operator(op))
      ensures old(Footprint()) <= Footprint() && fresh(Footprint() - old(Footprint()))
      ensures old(root.Something? && root.term.Ref?) ==> root == old(root)
    {
      P.StepValid(State(), Operator(op));
      if root.term.Ref? {
        WholeAt(layout.Erase(), topDepth);
        ghost var l;
        ghost var depth := topDepth;
        AtInside(layout, depth);
        at, l := PrattifyAt(top, op, layout, depth, depth);
        layout, atDepth := l, depth;
      } else {
        Prior(op);
      }
    }

    /** The operand's rule closes: its node is the root, or is pushed on the innermost open node. */
    method Operand(term: Term<ExprNode<A>, A>, ghost x: Shape<A>)
      requires Valid() && InPlace(x) && x.Top() == term && x.Ids() !! Footprint()
      requires P.Accepts(State(), Operators.Operand(x.Erase()))
      modifies this, Footprint()
      ensures Valid() && State() == P.Step(old(State()), Operators.Operand(x.Erase()))
      ensures Footprint() == old(Footprint()) + x.Ids()
      ensures old(root.Something?) ==> root == old(root)
    {
      P.StepValid(State(), Operators.Operand(x.Erase()));
      if root.Nothing? {
        root, layout := Something(term), x;
        topDepth, atDepth := 0, 0;
        if term.Ref? {
          top := term.id;
        }
      } else {
        ghost var depth := atDepth;
        AtInside(layout, depth);
        layout := PushAt(at, term, layout, depth, topDepth, x);
      }
    }
  }
}
