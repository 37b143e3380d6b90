/**
 The Rust core: nodes live in an arena under ids that never repeat, each
 recording the root of its expression, and each root counting the nodes
 its expression holds.
 */
module Arena {
  import opened Operators
  import opened Located
  import P = Pratt

  /** The most nodes one expression may hold. */
  const NODE_LIMIT: nat := 127

  type Value<A> = Term<nat, A>

  datatype ExprNode<A> = ExprNode(op: Op, terms: seq<Value<A>>, root: nat, size: nat)

  type Nodes<A> = map<nat, ExprNode<A>>

  type Shape<A> = Layout<nat, A>

  /** A node the arena holds, with the root it records. */
  predicate Rooted<A>(nodes: Nodes<A>, id: nat) {
    && id in nodes && nodes[id].root in nodes
    && nodes[nodes[id].root].root == nodes[id].root
  }

  /** A handle's node is in the arena. */
  predicate Live<A>(nodes: Nodes<A>, value: Value<A>) {
    value.Ref? ==> Rooted(nodes, value.id)
  }

  /** No node's term is a handle to a node that is not there. */
  ghost predicate TermsHeld<A>(nodes: Nodes<A>) {
    forall id | id in nodes :: HeldBy(nodes, nodes[id].terms)
  }

  predicate HeldBy<A>(nodes: Nodes<A>, terms: seq<Value<A>>) {
    forall k | 0 <= k < |terms| && terms[k].Ref? :: terms[k].id in nodes
  }

  lemma HeldSnoc<A>(nodes: Nodes<A>, terms: seq<Value<A>>, count: nat, value: Value<A>)
    requires HeldBy(nodes, terms) && count <= |terms| && (value.Ref? ==> value.id in nodes)
    ensures HeldBy(nodes, terms[..count] + [value])
  {
  }

  /** A node given new terms that are there, no node being dropped. */
  lemma TermsStayHeld<A>(before: Nodes<A>, after: Nodes<A>, node: nat)
    requires TermsHeld(before) && before.Keys <= after.Keys && node in after && HeldBy(after, after[node].terms)
    requires forall id | id in after && id != node :: id in before && after[id].terms == before[id].terms
    ensures TermsHeld(after)
  {
    forall id | id in after
      ensures HeldBy(after, after[id].terms)
    {
      if id != node {
        assert HeldBy(before, before[id].terms);
      }
    }
  }

  /** What taking the terms into the expression rooted at `root` counts against it: the sizes of the expressions they bring. */
  function Brought<A>(nodes: Nodes<A>, root: nat, terms: seq<Value<A>>): nat
    requires forall k | 0 <= k < |terms| :: Live(nodes, terms[k])
  {
    if terms == [] then 0
    else
      var rest := Brought(nodes, root, terms[..|terms| - 1]);
      var last := terms[|terms| - 1];
      assert Live(nodes, terms[|terms| - 1]);
      if last.Ref? && nodes[last.id].root != root then rest + nodes[nodes[last.id].root].size else rest
  }

  /** The arena with one more count against a root. */
  function Counted<A>(nodes: Nodes<A>, root: nat, count: nat): Nodes<A>
    requires root in nodes
  {
    nodes[root := nodes[root].(size := nodes[root].size + count)]
  }

  /** Counting against a root changes nothing that is brought to it. */
  lemma {:induction false} BroughtCounted<A>(nodes: Nodes<A>, root: nat, count: nat, terms: seq<Value<A>>)
    requires root in nodes && nodes[root].root == root
    requires forall k | 0 <= k < |terms| :: Live(nodes, terms[k])
    ensures forall k | 0 <= k < |terms| :: Live(Counted(nodes, root, count), terms[k])
    ensures Brought(Counted(nodes, root, count), root, terms) == Brought(nodes, root, terms)
  {
    assert forall k | 0 <= k < |terms| :: Live(nodes, terms[k]) ==> Live(Counted(nodes, root, count), terms[k]);
    if terms != [] {
      assert Live(nodes, terms[|terms| - 1]);
      BroughtCounted(nodes, root, count, terms[..|terms| - 1]);
    }
  }

  // ----- an expression in the arena -----

  /** The operator nodes of an expression, those inside groups included. */
  ghost function Size<A>(t: Tree<A>): nat {
    if t.Leaf? then 0 else 1 + SizeFrom(t, 0)
  }

  ghost function SizeFrom<A>(t: Tree<A>, k: nat): nat
    requires t.Node? && k <= |t.terms|
    decreases t, 0, |t.terms| - k
  {
    if k == |t.terms| then 0 else Size(t.terms[k]) + SizeFrom(t, k + 1)
  }

  /** How deep the operator nodes nest. */
  ghost function Depth<A>(t: Tree<A>): nat {
    if t.Leaf? then 0 else 1 + DepthFrom(t, 0)
  }

  ghost function DepthFrom<A>(t: Tree<A>, k: nat): nat
    requires t.Node? && k <= |t.terms|
    decreases t, 0, |t.terms| - k
  {
    if k == |t.terms| then 0
    else if Depth(t.terms[k]) < DepthFrom(t, k + 1) then DepthFrom(t, k + 1) else Depth(t.terms[k])
  }

  lemma {:induction false} DepthWithinSize<A>(t: Tree<A>)
    ensures Depth(t) <= Size(t)
    decreases t, 1
  {
    if t.Node? {
      DepthWithinSizeFrom(t, 0);
    }
  }

  lemma {:induction false} DepthWithinSizeFrom<A>(t: Tree<A>, k: nat)
    requires t.Node? && k <= |t.terms|
    ensures DepthFrom(t, k) <= SizeFrom(t, k)
    decreases t, 0, |t.terms| - k
  {
    if k < |t.terms| {
      DepthWithinSize(t.terms[k]);
      DepthWithinSizeFrom(t, k + 1);
    }
  }

  /** The size of a node whose last term is set apart. */
  lemma {:induction false} SizeLast<A>(t: Tree<A>, lead: seq<Tree<A>>, last: Tree<A>, k: nat)
    requires t.Node? && t.terms == lead + [last] && k <= |lead|
    ensures SizeFrom(t, k) == SizeFrom(Node(t.op, lead), k) + Size(last)
    decreases |lead| - k
  {
    if k < |lead| {
      SizeLast(t, lead, last, k + 1);
    } else {
      assert SizeFrom(t, k + 1) == 0;
    }
  }

  lemma SizeWithLast<A>(t: Tree<A>, x: Tree<A>)
    requires t.Node? && t.terms != []
    ensures Size(t.WithLast(x)) == Size(t) - Size(t.Last()) + Size(x)
    ensures Size(t.Last()) <= Size(t)
  {
    var lead := t.terms[..|t.terms| - 1];
    SizeLast(t, lead, t.Last(), 0);
    SizeLast(t.WithLast(x), lead, x, 0);
  }

  lemma SizeWith<A>(t: Tree<A>, x: Tree<A>)
    requires t.Node?
    ensures Size(Node(t.op, t.terms + [x])) == Size(t) + Size(x)
  {
    SizeLast(Node(t.op, t.terms + [x]), t.terms, x, 0);
  }

  /** One insertion adds one operator node. */
  lemma {:induction false} PrattifySize<A>(t: Tree<A>, op: Op)
    requires P.Applicable(t, op)
    ensures Size(P.Prattify(t, op).0) == Size(t) + 1
    decreases t
  {
    var u := P.Prattify(t, op).0;
    SizeWith(Node(op, []), t);
    assert [] + [t] == [t];
    if op.kind.Prefix? {
      SizeWith(t, Node(op, []));
    } else if u != Node(op, [t]) {
      SizeWithLast(t, u.Last());
      SizeWith(Node(op, []), t.Last());
      assert [] + [t.Last()] == [t.Last()];
      if u.Last() != Node(op, [t.Last()]) {
        PrattifySize(t.Last(), op);
      }
    }
  }

  lemma {:induction false} SizePut<A>(t: Tree<A>, depth: nat, u: Tree<A>)
    requires t.OnSpine(depth)
    ensures Size(t.Put(depth, u)) == Size(t) - Size(t.At(depth)) + Size(u) && Size(t.At(depth)) <= Size(t)
  {
    if depth > 0 {
      SizePut(t.Last(), depth - 1, u);
      SizeWithLast(t, t.Last().Put(depth - 1, u));
    }
  }

  /** The arena holds what the layout says. */
  ghost predicate Stored<A>(l: Shape<A>, nodes: Nodes<A>) {
    l.Cell? ==>
      && l.id in nodes && nodes[l.id].op == l.op && nodes[l.id].terms == l.Tops()
      && forall k | 0 <= k < |l.kids| :: Stored(l.kids[k], nodes)
  }

  /** The nodes record `root`, down to the finished expressions taken in, which keep roots of their own. */
  ghost predicate Region<A>(l: Shape<A>, root: nat, nodes: Nodes<A>)
    decreases l, 1
  {
    l.Cell? ==>
      && Rooted(nodes, l.id) && nodes[l.id].root == root
      && forall k | 0 <= k < |l.kids| :: Region(l.kids[k], root, nodes) || Guest(l.kids[k], root, nodes, l.op.Closed())
  }

  /**
   A finished expression taken in by another and counted at its own root.
   A group takes in any expression, its inside or its branch; any other
   node only groups.
   */
  ghost predicate Guest<A>(l: Shape<A>, root: nat, nodes: Nodes<A>, any: bool)
    decreases l, 0
  {
    && l.Cell? && (any || l.op.Closed()) && l.id != root
    && Rooted(nodes, l.id) && nodes[l.id].root == l.id
    && (forall k | 0 <= k < |l.kids| :: Region(l.kids[k], l.id, nodes) || Guest(l.kids[k], l.id, nodes, l.op.Closed()))
    && Size(l.Erase()) <= nodes[l.id].size
  }

  /** Nodes of these ids keep all but their sizes, which only grow. */
  ghost predicate Kept<A>(before: Nodes<A>, after: Nodes<A>, ids: set<nat>) {
    forall id | id in ids && id in before ::
      && id in after && after[id].op == before[id].op && after[id].terms == before[id].terms
      && after[id].root == before[id].root && before[id].size <= after[id].size
  }

  /** No size changes but the root's, which may grow. */
  ghost predicate CountsOnly<A>(before: Nodes<A>, after: Nodes<A>, root: nat) {
    forall id | id in before ::
      id in after && before[id].size <= after[id].size && (id != root ==> after[id].size == before[id].size)
  }

  /** Roots stay where they are. */
  ghost predicate SameRoots<A>(before: Nodes<A>, after: Nodes<A>) {
    forall id | Rooted(before, id) :: Rooted(after, id) && after[id].root == before[id].root
  }

  lemma {:induction false} StoredKept<A>(l: Shape<A>, before: Nodes<A>, after: Nodes<A>)
    requires Stored(l, before) && Kept(before, after, l.Ids())
    ensures Stored(l, after)
  {
    if l.Cell? {
      KidsInside(l);
      forall k | 0 <= k < |l.kids|
        ensures Stored(l.kids[k], after)
      {
        StoredKept(l.kids[k], before, after);
      }
    }
  }

  lemma {:induction false} RegionKept<A>(l: Shape<A>, root: nat, before: Nodes<A>, after: Nodes<A>)
    requires SameRoots(before, after) && exists r :: CountsOnly(before, after, r)
    ensures Region(l, root, before) ==> Region(l, root, after)
    ensures forall any :: Guest(l, root, before, any) ==> Guest(l, root, after, any)
    decreases l
  {
    if l.Cell? {
      forall k | 0 <= k < |l.kids|
        ensures Region(l.kids[k], root, before) ==> Region(l.kids[k], root, after)
        ensures forall any :: Guest(l.kids[k], root, before, any) ==> Guest(l.kids[k], root, after, any)
        ensures Region(l.kids[k], l.id, before) ==> Region(l.kids[k], l.id, after)
        ensures forall any :: Guest(l.kids[k], l.id, before, any) ==> Guest(l.kids[k], l.id, after, any)
      {
        RegionKept(l.kids[k], root, before, after);
        RegionKept(l.kids[k], l.id, before, after);
      }
    }
  }

  /** No operand is a group. */
  ghost predicate LeavesOnly<A>(t: Tree<A>) {
    t.Node? ==> !t.op.Closed() && forall k | 0 <= k < |t.terms| :: LeavesOnly(t.terms[k])
  }

  lemma LeavesWithLast<A>(t: Tree<A>, x: Tree<A>)
    requires t.Node? && t.terms != []
    ensures LeavesOnly(t.WithLast(x)) ==> LeavesOnly(x) && (LeavesOnly(t.Last()) ==> LeavesOnly(t))
  {
    var u := t.WithLast(x);
    if LeavesOnly(u) {
      assert u.terms[|t.terms| - 1] == x;
      forall k | 0 <= k < |t.terms| - 1
        ensures LeavesOnly(t.terms[k])
      {
        assert u.terms[k] == t.terms[k];
      }
    }
  }

  lemma LeavesWith<A>(t: Tree<A>, x: Tree<A>)
    requires t.Node?
    ensures LeavesOnly(Node(t.op, t.terms + [x])) ==> LeavesOnly(t) && LeavesOnly(x)
  {
    var u := Node(t.op, t.terms + [x]);
    if LeavesOnly(u) {
      assert u.terms[|t.terms|] == x;
      forall k | 0 <= k < |t.terms|
        ensures LeavesOnly(t.terms[k])
      {
        assert u.terms[k] == t.terms[k];
      }
    }
  }

  lemma LeavesOver<A>(op: Op, t: Tree<A>)
    ensures LeavesOnly(Node(op, [t])) ==> LeavesOnly(t)
  {
    LeavesWith(Node(op, []), t);
    assert [] + [t] == [t];
  }

  /** What one insertion into the layout does to the arena around it. */
  ghost predicate Grown<A>(before: Nodes<A>, after: Nodes<A>, l: Shape<A>, l': Shape<A>, root: nat, added: nat) {
    && SameRoots(before, after) && CountsOnly(before, after, root)
    && Kept(before, after, before.Keys - l.Ids())
    && l.Ids() <= l'.Ids() && (l'.Ids() - l.Ids()) !! before.Keys
    && root in before && before[root].size + added <= after[root].size
    && (LeavesOnly(l'.Erase()) ==> LeavesOnly(l.Erase()) && after[root].size == before[root].size + added)
  }

  lemma {:induction false} StoredIds<A>(l: Shape<A>, nodes: Nodes<A>)
    requires Stored(l, nodes)
    ensures l.Ids() <= nodes.Keys
  {
    if l.Cell? {
      forall k | 0 <= k < |l.kids|
        ensures l.kids[k].Ids() <= nodes.Keys
      {
        StoredIds(l.kids[k], nodes);
      }
    }
  }

  /** The terms of an expression's node are live. */
  lemma TermsLive<A>(l: Shape<A>, root: nat, nodes: Nodes<A>)
    requires l.Cell? && Region(l, root, nodes)
    ensures forall k | 0 <= k < |l.Tops()| :: Live(nodes, l.Tops()[k])
  {
    forall k | 0 <= k < |l.Tops()|
      ensures Live(nodes, l.Tops()[k])
    {
      assert Region(l.kids[k], root, nodes) || Guest(l.kids[k], root, nodes, l.op.Closed());
    }
  }

  /** Terms of the expression itself bring nothing. */
  lemma {:induction false} OwnBringNothing<A>(nodes: Nodes<A>, root: nat, terms: seq<Value<A>>)
    requires forall k | 0 <= k < |terms| :: Live(nodes, terms[k]) && (terms[k].Ref? ==> nodes[terms[k].id].root == root)
    ensures Brought(nodes, root, terms) == 0
  {
    if terms != [] {
      assert Live(nodes, terms[|terms| - 1]);
      OwnBringNothing(nodes, root, terms[..|terms| - 1]);
    }
  }

  lemma LeavesBringNothing<A>(l: Shape<A>, root: nat, nodes: Nodes<A>)
    requires l.Cell? && Region(l, root, nodes) && LeavesOnly(l.Erase())
    ensures forall k | 0 <= k < |l.Tops()| :: Live(nodes, l.Tops()[k])
    ensures Brought(nodes, root, l.Tops()) == 0
    ensures forall k | 0 <= k < |l.kids| :: l.kids[k].Cell? ==> l.kids[k].id in nodes && nodes[l.kids[k].id].root == root
  {
    TermsLive(l, root, nodes);
    EraseShape(l);
    forall k | 0 <= k < |l.kids|
      ensures l.kids[k].Cell? ==> l.kids[k].id in nodes && nodes[l.kids[k].id].root == root
    {
      assert l.Erase().terms[k] == l.kids[k].Erase();
      assert Region(l.kids[k], root, nodes) || Guest(l.kids[k], root, nodes, l.op.Closed());
    }
    OwnBringNothing(nodes, root, l.Tops());
  }

  /** An arena step that rewrites one node and otherwise only adds nodes and counts. */
  ghost predicate Rewrites<A>(before: Nodes<A>, after: Nodes<A>, node: nat) {
    && node in before && SameRoots(before, after) && CountsOnly(before, after, before[node].root)
    && Kept(before, after, before.Keys - {node})
  }

  /** A step that only adds nodes, and counts against one root. */
  ghost predicate Adds<A>(before: Nodes<A>, after: Nodes<A>, root: nat, count: nat) {
    && SameRoots(before, after) && CountsOnly(before, after, root)
    && Kept(before, after, before.Keys)
    && root in before && after[root].size == before[root].size + count
  }

  ghost predicate Holds<A>(nodes: Nodes<A>, id: nat, op: Op, terms: seq<Value<A>>, root: nat) {
    Rooted(nodes, id) && nodes[id].op == op && nodes[id].terms == terms && nodes[id].root == root
  }

  lemma AddedNode<A>(before: Nodes<A>, root: nat, count: nat, id: nat, op: Op, terms: seq<Value<A>>)
    requires Rooted(before, root) && before[root].root == root && id !in before
    ensures var after := Counted(before, root, count)[id := ExprNode(op, terms, root, 1)];
            Adds(before, after, root, count) && after.Keys == before.Keys + {id} && Holds(after, id, op, terms, root)
  {
  }

  /** Entering a node and counting it, then counting what its terms bring. */
  lemma Inserted<A>(before: Nodes<A>, root: nat, id: nat, op: Op, terms: seq<Value<A>>)
    requires Rooted(before, root) && before[root].root == root && id !in before
    requires forall k | 0 <= k < |terms| :: Live(before, terms[k])
    ensures var grown := Counted(before[id := ExprNode(op, terms, root, 1)], root, 1);
            && id in grown && grown[id].root == root
            && (forall k | 0 <= k < |terms| :: Live(grown, terms[k]))
            && var brought := Brought(grown, root, terms);
            && brought == Brought(before, root, terms)
            && var after := Counted(grown, root, brought);
            && Adds(before, after, root, 1 + brought) && after.Keys == before.Keys + {id} && Holds(after, id, op, terms, root)
  {
    var node := ExprNode(op, terms, root, 1);
    var brought := Brought(before, root, terms);
    EnteredBrings(before, root, id, node, terms);
    CountedTwice(before, root, id, node, 1, brought);
    AddedNode(before, root, 1 + brought, id, op, terms);
  }

  /** A node entered under a root brings nothing new to it. */
  lemma EnteredBrings<A>(before: Nodes<A>, root: nat, id: nat, node: ExprNode<A>, terms: seq<Value<A>>)
    requires Rooted(before, root) && before[root].root == root && id !in before && node.root == root
    requires forall k | 0 <= k < |terms| :: Live(before, terms[k])
    ensures var grown := Counted(before[id := node], root, 1);
            && id in grown && grown[id].root == root
            && (forall k | 0 <= k < |terms| :: Live(grown, terms[k]))
            && Brought(grown, root, terms) == Brought(before, root, terms)
  {
    var grown := Counted(before[id := node], root, 1);
    assert forall k | 0 <= k < |terms| :: Live(before, terms[k]) ==> Live(grown, terms[k]);
    BroughtSame(before, grown, root, terms);
  }

  lemma CountedTwice<A>(nodes: Nodes<A>, root: nat, id: nat, node: ExprNode<A>, first: nat, second: nat)
    requires root in nodes && id != root
    ensures Counted(Counted(nodes[id := node], root, first), root, second) == Counted(nodes, root, first + second)[id := node]
  {
  }

  lemma RewrittenNode<A>(before: Nodes<A>, root: nat, count: nat, node: nat, op: Op, terms: seq<Value<A>>)
    requires Rooted(before, node) && before[node].root == root
    ensures var counted := Counted(before, root, count);
            node in counted
            && var after := counted[node := counted[node].(op := op, terms := terms)];
            && Rewrites(before, after, node) && after.Keys == before.Keys && Holds(after, node, op, terms, root)
            && after[root].size == before[root].size + count
            && forall id :: Rooted(before, id) ==> Rooted(after, id)
  {
  }

  lemma AddThenRewrite<A>(a: Nodes<A>, b: Nodes<A>, c: Nodes<A>, root: nat, count: nat, node: nat)
    requires Adds(a, b, root, count) && Rewrites(b, c, node) && Rooted(a, node) && a[node].root == root
    ensures Rewrites(a, c, node)
  {
  }

  /** A stored expression of which the step rewrites no node is stored and rooted as before. */
  lemma Untouched<A>(l: Shape<A>, root: nat, before: Nodes<A>, after: Nodes<A>, node: nat)
    requires Rewrites(before, after, node) && Stored(l, before) && node !in l.Ids()
    ensures Stored(l, after)
    ensures Region(l, root, before) ==> Region(l, root, after)
    ensures forall any :: Guest(l, root, before, any) ==> Guest(l, root, after, any)
  {
    StoredIds(l, before);
    StoredKept(l, before, after);
    RegionKept(l, root, before, after);
  }

  lemma KidsUntouched<A>(l: Shape<A>, root: nat, before: Nodes<A>, after: Nodes<A>)
    requires l.Cell? && l.Apart() && Stored(l, before) && Region(l, root, before) && Rewrites(before, after, l.id)
    ensures forall k | 0 <= k < |l.kids| :: Stored(l.kids[k], after)
    ensures forall k | 0 <= k < |l.kids| :: Region(l.kids[k], root, after) || Guest(l.kids[k], root, after, l.op.Closed())
  {
    KidsInside(l);
    forall k | 0 <= k < |l.kids|
      ensures Stored(l.kids[k], after) && (Region(l.kids[k], root, after) || Guest(l.kids[k], root, after, l.op.Closed()))
    {
      assert Region(l.kids[k], root, before) || Guest(l.kids[k], root, before, l.op.Closed());
      Untouched(l.kids[k], root, before, after, l.id);
    }
  }

  lemma WrapStored<A>(l: Shape<A>, root: nat, before: Nodes<A>, after: Nodes<A>, copy: nat, op: Op) returns (l': Shape<A>)
    requires l.Cell? && l.Apart() && Stored(l, before) && Region(l, root, before)
    requires Rewrites(before, after, l.id) && copy !in before
    requires Holds(after, copy, l.op, l.Tops(), root) && Holds(after, l.id, op, [Ref(copy)], root)
    ensures l' == Cell(l.id, op, [Cell(copy, l.op, l.kids)]) && l'.Apart() && Stored(l', after) && Region(l', root, after)
    ensures l'.Ids() == l.Ids() + {copy} && l'.Erase() == Node(op, [l.Erase()])
  {
    StoredIds(l, before);
    var moved := Cell(copy, l.op, l.kids);
    assert moved.KidIds() == l.KidIds() && moved.Tops() == l.Tops() && moved.Erased() == l.Erased();
    KidsUntouched(l, root, before, after);
    SingleIds(l.id, op, moved);
    l' := Cell(l.id, op, [moved]);
    assert Stored(moved, after) && Region(moved, root, after);
  }

  /** The layout after its last term became `inner`, which the node itself now holds. */
  lemma LastStored<A>(l: Shape<A>, root: nat, before: Nodes<A>, after: Nodes<A>, inner: Shape<A>)
    requires l.Cell? && l.kids != [] && l.Apart() && Stored(l, before) && Region(l, root, before)
    requires Rewrites(before, after, l.id) && Holds(after, l.id, l.op, l.Tops()[|l.kids| - 1 := inner.Top()], root)
    requires inner.Apart() && Stored(inner, after) && Region(inner, root, after)
    requires l.Last().Ids() <= inner.Ids() && (inner.Ids() - l.Last().Ids()) !! l.Ids()
    ensures l.WithLast(inner).Apart() && Stored(l.WithLast(inner), after) && Region(l.WithLast(inner), root, after)
    ensures l.WithLast(inner).Ids() == l.Ids() + inner.Ids()
    ensures l.WithLast(inner).Erase() == l.Erase().WithLast(inner.Erase())
  {
    EraseShape(l);
    KidsUntouched(l, root, before, after);
    WithLastIds(l, inner);
    var u := l.WithLast(inner);
    assert u.Tops() == l.Tops()[|l.kids| - 1 := inner.Top()];
    assert forall k | 0 <= k < |u.kids| :: u.kids[k] == if k == |l.kids| - 1 then inner else l.kids[k];
  }

  lemma SiblingsKept<A>(l: Shape<A>, root: nat, before: Nodes<A>, after: Nodes<A>, inner: Shape<A>, added: nat)
    requires l.Cell? && l.kids != [] && l.Apart() && Stored(l, before) && Region(l, root, before)
    requires Grown(before, after, l.Last(), inner, root, added)
    ensures forall k | 0 <= k < |l.kids| - 1 :: Stored(l.kids[k], after)
    ensures forall k | 0 <= k < |l.kids| - 1 :: Region(l.kids[k], root, after) || Guest(l.kids[k], root, after, l.op.Closed())
    ensures Holds(after, l.id, l.op, l.Tops(), root) && (inner.Ids() - l.Last().Ids()) !! l.Ids()
  {
    StoredIds(l, before);
    KidsInside(l);
    forall k | 0 <= k < |l.kids| - 1
      ensures Stored(l.kids[k], after) && (Region(l.kids[k], root, after) || Guest(l.kids[k], root, after, l.op.Closed()))
    {
      assert Region(l.kids[k], root, before) || Guest(l.kids[k], root, before, l.op.Closed());
      assert l.kids[k].Ids() !! l.Last().Ids();
      StoredKept(l.kids[k], before, after);
      RegionKept(l.kids[k], root, before, after);
    }
    assert l.id !in l.Last().Ids();
  }

  lemma DrilledGrown<A>(l: Shape<A>, root: nat, before: Nodes<A>, after: Nodes<A>, inner: Shape<A>, added: nat)
    requires l.Cell? && l.kids != [] && Grown(before, after, l.Last(), inner, root, added)
    requires l.WithLast(inner).Ids() == l.Ids() + inner.Ids() && (inner.Ids() - l.Last().Ids()) !! before.Keys
    ensures Grown(before, after, l, l.WithLast(inner), root, added)
  {
    EraseShape(l);
    KidsInside(l);
    LeavesWithLast(l.Erase(), inner.Erase());
    assert l.Last().Ids() <= l.Ids();
  }

  /** The layout after a rewrite inside its last term. */
  lemma DrilledStored<A>(l: Shape<A>, root: nat, before: Nodes<A>, after: Nodes<A>, inner: Shape<A>, added: nat)
    requires l.Cell? && l.kids != [] && l.Apart() && Stored(l, before) && Region(l, root, before)
    requires Grown(before, after, l.Last(), inner, root, added) && inner.Top() == l.Last().Top()
    requires inner.Apart() && Stored(inner, after) && Region(inner, root, after)
    ensures l.WithLast(inner).Apart() && Stored(l.WithLast(inner), after) && Region(l.WithLast(inner), root, after)
    ensures l.WithLast(inner).Erase() == l.Erase().WithLast(inner.Erase()) && Grown(before, after, l, l.WithLast(inner), root, added)
  {
    SiblingsKept(l, root, before, after, inner, added);
    WithLastIds(l, inner);
    WithLastStored(l, root, after, inner);
    DrilledGrown(l, root, before, after, inner, added);
    assert l.WithLast(inner).Erase() == l.Erase().WithLast(inner.Erase()) by {
      EraseShape(l);
    }
  }

  /** A node without terms yet. */
  lemma NoTermsStored<A>(id: nat, op: Op, root: nat, nodes: Nodes<A>)
    requires Holds(nodes, id, op, [], root)
    ensures var l: Shape<A> := Cell(id, op, []);
            l.Apart() && Stored(l, nodes) && Region(l, root, nodes) && l.Ids() == {id} && l.Erase() == Node(op, [])
  {
    var l: Shape<A> := Cell(id, op, []);
    assert l.KidIds() == {} && l.Erased() == [] && l.Tops() == [];
  }

  /** The layout after a term was pushed. */
  lemma PushedStored<A>(l: Shape<A>, root: nat, before: Nodes<A>, after: Nodes<A>, x: Shape<A>)
    requires l.Cell? && l.Apart() && Stored(l, before) && Region(l, root, before)
    requires Rewrites(before, after, l.id) && Holds(after, l.id, l.op, l.Tops() + [x.Top()], root)
    requires x.Apart() && x.Ids() !! l.Ids() && Stored(x, after) && (Region(x, root, after) || Guest(x, root, after, l.op.Closed()))
    ensures l.With(x).Apart() && Stored(l.With(x), after) && Region(l.With(x), root, after)
    ensures l.With(x).Ids() == l.Ids() + x.Ids() && l.With(x).Erase() == Node(l.op, l.Erase().terms + [x.Erase()])
  {
    EraseShape(l);
    KidsUntouched(l, root, before, after);
    WithIds(l, x);
    var u := l.With(x);
    assert u.Tops() == l.Tops() + [x.Top()];
    assert forall k | 0 <= k < |u.kids| :: u.kids[k] == if k == |l.kids| then x else l.kids[k];
  }

  /** Counting the terms one by one counts them all. */
  lemma NextBrought<A>(nodes: Nodes<A>, root: nat, lead: seq<Value<A>>, term: Value<A>)
    requires root in nodes && nodes[root].root == root && Live(nodes, term)
    requires forall j | 0 <= j < |lead| :: Live(nodes, lead[j])
    ensures var counted := Counted(nodes, root, Brought(nodes, root, lead));
            && Live(counted, term) && Brought(counted, root, [term]) == Brought(nodes, root, [term])
    ensures forall j | 0 <= j < |lead + [term]| :: Live(nodes, (lead + [term])[j])
    ensures Brought(nodes, root, lead + [term]) == Brought(nodes, root, lead) + Brought(nodes, root, [term])
  {
    BroughtCounted(nodes, root, Brought(nodes, root, lead), [term]);
    assert Live(Counted(nodes, root, Brought(nodes, root, lead)), [term][0]);
    BroughtSnoc(nodes, root, lead, term);
  }

  lemma BroughtSnoc<A>(nodes: Nodes<A>, root: nat, terms: seq<Value<A>>, term: Value<A>)
    requires Live(nodes, term) && forall j | 0 <= j < |terms| :: Live(nodes, terms[j])
    ensures forall j | 0 <= j < |terms + [term]| :: Live(nodes, (terms + [term])[j])
    ensures Brought(nodes, root, terms + [term]) == Brought(nodes, root, terms) + Brought(nodes, root, [term])
  {
    assert (terms + [term])[..|terms|] == terms && [term][..0] == [];
  }

  lemma CountedMore<A>(nodes: Nodes<A>, root: nat, first: nat, second: nat)
    requires root in nodes
    ensures Counted(Counted(nodes, root, first), root, second) == Counted(nodes, root, first + second)
  {
  }

  /** The layout once a node without terms is in the next slot. */
  lemma NextFilled<A>(before: Nodes<A>, mid: Nodes<A>, after: Nodes<A>, l: Shape<A>, root: nat, id: nat, op: Op)
    requires l.Cell? && l.Apart() && Stored(l, before) && Region(l, root, before) && id !in before && !op.Closed()
    requires Adds(before, mid, root, 1) && Holds(mid, id, op, [], root)
    requires Rewrites(mid, after, l.id) && Holds(after, l.id, l.op, l.Tops() + [Ref(id)], root)
    requires root in mid && root in after && after[root].size == mid[root].size
    ensures var l' := l.With(Cell(id, op, []));
            && l'.Apart() && Stored(l', after) && Region(l', root, after)
            && l'.Erase() == Node(l.op, l.Erase().terms + [Node(op, [])]) && Grown(before, after, l, l', root, 1)
    ensures Holds(after, id, op, [], root)
  {
    StoredIds(l, before);
    LeavesWith(l.Erase(), Node(op, []));
    AddThenRewrite(before, mid, after, root, 1, l.id);
    NoTermsStored(id, op, root, after);
    PushedStored(l, root, before, after, Cell(id, op, []));
  }

  lemma LastBrings<A>(l: Shape<A>, root: nat, nodes: Nodes<A>)
    requires l.Cell? && l.kids != [] && Region(l, root, nodes)
    ensures Live(nodes, l.Last().Top())
    ensures LeavesOnly(l.Erase()) ==> Brought(nodes, root, [l.Last().Top()]) == 0
  {
    TermsLive(l, root, nodes);
    assert Live(nodes, l.Tops()[|l.kids| - 1]);
    if LeavesOnly(l.Erase()) {
      LeavesBringNothing(l, root, nodes);
      OwnBringNothing(nodes, root, [l.Last().Top()]);
    }
  }

  /** A new node over the old last term, entered before its parent was rewritten. */
  lemma LastInner<A>(l: Shape<A>, root: nat, before: Nodes<A>, mid: Nodes<A>, after: Nodes<A>, out: nat, op: Op)
    requires l.Cell? && l.kids != [] && l.Apart() && Stored(l, before) && Region(l, root, before)
    requires exists count: nat :: Adds(before, mid, root, count)
    requires Rewrites(mid, after, l.id) && out !in before && !op.Closed() && !l.op.Closed()
    requires Holds(mid, out, op, [l.Last().Top()], root)
    ensures Rewrites(before, after, l.id)
    ensures var inner := Cell(out, op, [l.Last()]);
            && inner.Apart() && inner.Ids() == {out} + l.Last().Ids() && inner.Erase() == Node(op, [l.Last().Erase()])
            && Stored(inner, after) && Region(inner, root, after)
  {
    var count: nat :| Adds(before, mid, root, count);
    AddThenRewrite(before, mid, after, root, count, l.id);
    StoredIds(l, before);
    KidsInside(l);
    KidsUntouched(l, root, before, after);
    SingleIds(out, op, l.Last());
    var inner := Cell(out, op, [l.Last()]);
    assert inner.kids[0] == l.kids[|l.kids| - 1];
    assert out in mid && out != l.id;
  }

  /** Entering a node over the last term, then assigning it to the last slot. */
  lemma WrapLastStored<A>(l: Shape<A>, root: nat, before: Nodes<A>, mid: Nodes<A>, after: Nodes<A>, out: nat, op: Op)
    returns (l': Shape<A>)
    requires l.Cell? && l.kids != [] && l.Apart() && Stored(l, before) && Region(l, root, before) && Live(before, l.Last().Top())
    requires LeavesOnly(l.Erase()) ==> Brought(before, root, [l.Last().Top()]) == 0
    requires out !in before && !op.Closed() && !l.op.Closed() && Adds(before, mid, root, 1 + Brought(before, root, [l.Last().Top()]))
    requires Rewrites(mid, after, l.id) && Holds(mid, out, op, [l.Last().Top()], root)
    requires Holds(after, l.id, l.op, l.Tops()[|l.kids| - 1 := Ref(out)], root) && after[root].size == mid[root].size
    ensures l' == l.WithLast(Cell(out, op, [l.Last()])) && l'.Apart() && Stored(l', after) && Region(l', root, after)
    ensures l'.Erase() == l.Erase().WithLast(Node(op, [l.Erase().Last()])) && Grown(before, after, l, l', root, 1)
  {
    EraseShape(l);
    StoredIds(l, before);
    LeavesWithLast(l.Erase(), Node(op, [l.Erase().Last()]));
    LeavesOver(op, l.Erase().Last());
    LastInner(l, root, before, mid, after, out, op);
    LastStored(l, root, before, after, Cell(out, op, [l.Last()]));
    l' := l.WithLast(Cell(out, op, [l.Last()]));
  }

  // ----- a whole expression -----

  /** An expression of the arena, held by its root, whose recorded size covers every node reachable from it. */
  ghost predicate Tracks<A>(l: Shape<A>, nodes: Nodes<A>) {
    && l.Cell? && l.Apart() && Stored(l, nodes) && Region(l, l.id, nodes)
    && Size(l.Erase()) <= nodes[l.id].size
    && (LeavesOnly(l.Erase()) ==> nodes[l.id].size == Size(l.Erase()))
  }

  /** The nodes above a spine node and the node itself record the same root. */
  lemma {:induction false} SpineRegion<A>(l: Shape<A>, depth: nat, root: nat, nodes: Nodes<A>)
    requires l.Apart() && Stored(l, nodes) && Region(l, root, nodes) && l.Erase().OnSpine(depth)
    requires l.Erase().At(depth).Node? && (l.Erase().At(depth).op.Closed() ==> depth == 0)
    ensures l.Reaches(depth) && l.At(depth).Cell? && l.At(depth).Apart() && l.At(depth).Erase() == l.Erase().At(depth)
    ensures Stored(l.At(depth), nodes) && Region(l.At(depth), root, nodes)
  {
    EraseAt(l, depth);
    if depth > 0 {
      EraseShape(l);
      LastHeld(l, root, nodes);
      SpineRegion(l.Last(), depth - 1, root, nodes);
    }
  }

  /** A step inside a spine node is a step of the whole. */
  lemma {:induction false} RewroteAt<A>(l: Shape<A>, depth: nat, root: nat, before: Nodes<A>, after: Nodes<A>, m: Shape<A>, added: nat)
    requires l.Apart() && Stored(l, before) && Region(l, root, before) && l.Erase().OnSpine(depth)
    requires l.Erase().At(depth).Node? && (l.Erase().At(depth).op.Closed() ==> depth == 0)
    requires l.Reaches(depth) && Grown(before, after, l.At(depth), m, root, added) && m.Top() == l.At(depth).Top()
    requires m.Apart() && Stored(m, after) && Region(m, root, after)
    ensures l.Put(depth, m).Apart() && Stored(l.Put(depth, m), after) && Region(l.Put(depth, m), root, after)
    ensures l.Put(depth, m).Top() == l.Top() && Grown(before, after, l, l.Put(depth, m), root, added)
  {
    if depth > 0 {
      EraseShape(l);
      LastHeld(l, root, before);
      SpineRegion(l, depth, root, before);
      var inner := l.Last().Put(depth - 1, m);
      RewroteAt(l.Last(), depth - 1, root, before, after, m, added);
      assert l.Put(depth, m) == l.WithLast(inner);
      DrilledStored(l, root, before, after, inner, added);
    }
  }

  /** A rewrite below the last term leaves the node and its other terms as they were. */
  lemma SiblingsUntouched<A>(l: Shape<A>, root: nat, before: Nodes<A>, after: Nodes<A>, node: nat)
    requires l.Cell? && l.kids != [] && l.Apart() && Stored(l, before) && Region(l, root, before)
    requires Rewrites(before, after, node) && node in l.Last().Ids()
    ensures forall k | 0 <= k < |l.kids| - 1 :: Stored(l.kids[k], after)
    ensures forall k | 0 <= k < |l.kids| - 1 :: Region(l.kids[k], root, after) || Guest(l.kids[k], root, after, l.op.Closed())
    ensures Holds(after, l.id, l.op, l.Tops(), root)
  {
    KidsInside(l);
    forall k | 0 <= k < |l.kids| - 1
      ensures Stored(l.kids[k], after) && (Region(l.kids[k], root, after) || Guest(l.kids[k], root, after, l.op.Closed()))
    {
      assert Region(l.kids[k], root, before) || Guest(l.kids[k], root, before, l.op.Closed());
      assert l.kids[k].Ids() !! l.Last().Ids();
      Untouched(l.kids[k], root, before, after, node);
    }
  }

  lemma WithLastStored<A>(l: Shape<A>, root: nat, after: Nodes<A>, inner: Shape<A>)
    requires l.Cell? && l.kids != [] && Holds(after, l.id, l.op, l.Tops(), root) && inner.Top() == l.Last().Top()
    requires forall k | 0 <= k < |l.kids| - 1 :: Stored(l.kids[k], after)
    requires forall k | 0 <= k < |l.kids| - 1 :: Region(l.kids[k], root, after) || Guest(l.kids[k], root, after, l.op.Closed())
    requires Stored(inner, after) && Region(inner, root, after)
    ensures Stored(l.WithLast(inner), after) && Region(l.WithLast(inner), root, after)
  {
    var u := l.WithLast(inner);
    assert u.Tops() == l.Tops();
    assert forall k | 0 <= k < |u.kids| :: u.kids[k] == if k == |l.kids| - 1 then inner else l.kids[k];
  }

  /** A step that rewrites one spine node leaves the rest of the expression stored and rooted. */
  lemma {:induction false} RewroteOne<A>(l: Shape<A>, depth: nat, root: nat, before: Nodes<A>, after: Nodes<A>, m: Shape<A>)
    requires l.Apart() && Stored(l, before) && Region(l, root, before) && l.Erase().OnSpine(depth)
    requires l.Erase().At(depth).Node? && !l.Erase().At(depth).op.Closed()
    requires l.Reaches(depth) && l.At(depth).Cell? && Rewrites(before, after, l.At(depth).id) && m.Top() == l.At(depth).Top()
    requires Stored(m, after) && Region(m, root, after)
    ensures Stored(l.Put(depth, m), after) && Region(l.Put(depth, m), root, after) && l.Put(depth, m).Top() == l.Top()
  {
    if depth > 0 {
      EraseShape(l);
      LastHeld(l, root, before);
      RewroteOne(l.Last(), depth - 1, root, before, after, m);
      AtIds(l.Last(), depth - 1);
      SiblingsUntouched(l, root, before, after, l.At(depth).id);
      WithLastStored(l, root, after, l.Last().Put(depth - 1, m));
    }
  }

  /** A value, or a whole expression of its own: a group, or any where a group takes it in. */
  ghost predicate FinishedIn<A>(x: Shape<A>, nodes: Nodes<A>, any: bool) {
    x.Spot? || ((any || x.op.Closed()) && Tracks(x, nodes))
  }

  /** An expression none of whose nodes a step rewrites or counts against stays as it was. */
  lemma OthersTracked<A>(y: Shape<A>, before: Nodes<A>, after: Nodes<A>, ids: set<nat>, root: nat)
    requires Tracks(y, before) && SameRoots(before, after) && CountsOnly(before, after, root)
    requires Kept(before, after, before.Keys - ids) && y.Ids() !! ids && root in ids
    ensures Tracks(y, after)
  {
    StoredIds(y, before);
    StoredKept(y, before, after);
    RegionKept(y, y.id, before, after);
  }

  /** A step that keeps every node, and every expression that shares none of these ids. */
  ghost predicate Spares<A(!new)>(before: Nodes<A>, after: Nodes<A>, ids: set<nat>) {
    before.Keys <= after.Keys && forall y: Shape<A> | Tracks(y, before) && y.Ids() !! ids :: Tracks(y, after)
  }

  lemma StepSpares<A(!new)>(before: Nodes<A>, after: Nodes<A>, ids: set<nat>, root: nat)
    requires SameRoots(before, after) && CountsOnly(before, after, root) && Kept(before, after, before.Keys - ids)
    requires root in ids
    ensures Spares(before, after, ids)
  {
    forall y: Shape<A> | Tracks(y, before) && y.Ids() !! ids
      ensures Tracks(y, after)
    {
      OthersTracked(y, before, after, ids, root);
    }
  }

  lemma StepSparesAll<A(!new)>(before: Nodes<A>, after: Nodes<A>, id: nat)
    requires SameRoots(before, after) && CountsOnly(before, after, id) && Kept(before, after, before.Keys) && id !in before
    ensures Spares(before, after, {})
  {
    forall y: Shape<A> | Tracks(y, before)
      ensures Tracks(y, after)
    {
      StoredIds(y, before);
      OthersTracked(y, before, after, {id}, id);
    }
  }

  /** One arena, as one thread holds it. */
  class Arena<A(!new)> {
    var nodes: Nodes<A>
    var nextId: nat
    var overLimit: bool

    /** Ids are handed out in order, roots are live, and while the flag is clear no size is over the limit. */
    ghost predicate Valid()
      reads this
    {
      && (forall id | id in nodes :: id <= nextId)
      && (forall id {:trigger Rooted(nodes, id)} | id in nodes :: Rooted(nodes, id))
      && (!overLimit ==> forall id | id in nodes :: nodes[id].size <= NODE_LIMIT)
      && TermsHeld(nodes)
    }

    /** The expression rooted here is over the limit. */
    ghost predicate Outgrown(root: nat)
      reads this
    {
      root in nodes && nodes[root].size > NODE_LIMIT
    }

    constructor ()
      ensures Valid() && nodes == map[] && nextId == 0 && !overLimit
    {
      nodes, nextId, overLimit := map[], 0, false;
    }

    /** Count more nodes against the expression a node belongs to. */
    method Grow(node: nat, count: nat)
      requires Valid() && node in nodes
      modifies this`nodes, this`overLimit
      ensures Valid() && overLimit == (old(overLimit) || Outgrown(old(nodes[node].root)))
      ensures Rooted(old(nodes), node)
      ensures nodes == Counted(old(nodes), old(nodes[node].root), count)
    {
      assert Rooted(nodes, node);
      ghost var before := nodes;
      var root := nodes[node].root;
      nodes := nodes[root := nodes[root].(size := nodes[root].size + count)];
      if nodes[root].size > NODE_LIMIT {
        overLimit := true;
      }
      assert forall id :: Rooted(before, id) ==> Rooted(nodes, id);
      TermsStayHeld(before, nodes, root);
    }

    /** Account for a term taken into an expression: one of another expression brings its whole tree. */
    method Adopt(container: nat, term: Value<A>)
      requires Valid() && container in nodes && Live(nodes, term)
      modifies this`nodes, this`overLimit
      ensures Valid() && overLimit == (old(overLimit) || Outgrown(old(nodes[container].root)))
      ensures Rooted(old(nodes), container)
      ensures var root := old(nodes[container].root); nodes == Counted(old(nodes), root, Brought(old(nodes), root, [term]))
      ensures var root := old(nodes[container].root);
              nodes[root].size == old(nodes[root].size)
                + if term.Ref? && old(nodes[term.id].root) != root then old(nodes[nodes[term.id].root].size) else 0
    {
      assert [term][..0] == [] && Rooted(nodes, container);
      if term.Ref? && nodes[term.id].root != nodes[container].root {
        Grow(container, nodes[nodes[term.id].root].size);
      } else {
        assert nodes == Counted(nodes, nodes[container].root, 0);
      }
    }

    method AdoptAll(container: nat, terms: seq<Value<A>>)
      requires Valid() && container in nodes
      requires forall k | 0 <= k < |terms| :: Live(nodes, terms[k])
      modifies this`nodes, this`overLimit
      ensures Valid() && overLimit == (old(overLimit) || Outgrown(old(nodes[container].root)))
      ensures Rooted(old(nodes), container)
      ensures var root := old(nodes[container].root); nodes == Counted(old(nodes), root, Brought(old(nodes), root, terms))
    {
      assert Rooted(nodes, container);
      ghost var root := nodes[container].root;
      ghost var before := nodes;
      assert nodes == Counted(nodes, root, 0);
      for k := 0 to |terms|
        invariant Valid() && overLimit == (old(overLimit) || Outgrown(root)) && container in nodes
        invariant forall j | 0 <= j < |terms| :: Live(before, terms[j])
        invariant nodes == Counted(before, root, Brought(before, root, terms[..k]))
      {
        assert terms[..k] + [terms[k]] == terms[..k + 1];
        NextBrought(before, root, terms[..k], terms[k]);
        CountedMore(before, root, Brought(before, root, terms[..k]), Brought(before, root, [terms[k]]));
        Adopt(container, terms[k]);
      }
      assert terms[..|terms|] == terms;
    }

    /** Allocate a node inside an existing expression: it shares that expression's root, which counts it. */
    method NewNodeUnder(op: Op, terms: seq<Value<A>>, under: nat) returns (id: nat)
      requires Valid() && under in nodes
      requires forall k | 0 <= k < |terms| :: Live(nodes, terms[k])
      modifies this
      ensures Valid() && overLimit == (old(overLimit) || Outgrown(old(nodes[under].root))) && id !in old(nodes) && nextId == id
      ensures Rooted(old(nodes), under)
      ensures var root := old(nodes[under].root);
              && Adds(old(nodes), nodes, root, 1 + Brought(old(nodes), root, terms))
              && nodes.Keys == old(nodes).Keys + {id} && Holds(nodes, id, op, terms, root)
    {
      assert Rooted(nodes, under);
      ghost var before := nodes;
      ghost var root := nodes[under].root;
      id := Insert(op, terms, nodes[under].root);
      Grow(id, 1);
      ghost var grown := nodes;
      Inserted(before, root, id, op, terms);
      AdoptAll(id, terms);
    }

    /** Enter a node under the next id. */
    method Insert(op: Op, terms: seq<Value<A>>, root: nat) returns (id: nat)
      requires Valid() && Rooted(nodes, root) && nodes[root].root == root && HeldBy(nodes, terms)
      modifies this`nodes, this`nextId
      ensures Valid() && id !in old(nodes) && nextId == id && nodes == old(nodes)[id := ExprNode(op, terms, root, 1)]
    {
      ghost var before := nodes;
      nextId := nextId + 1;
      id := nextId;
      nodes := nodes[id := ExprNode(op, terms, root, 1)];
      assert forall j :: Rooted(before, j) ==> Rooted(nodes, j);
      assert Rooted(nodes, id);
      TermsStayHeld(before, nodes, id);
    }

    /** A shallow copy with an identity of its own, in the same expression. */
    method DupNode(node: nat) returns (id: nat)
      requires Valid() && node in nodes && forall k | 0 <= k < |nodes[node].terms| :: Live(nodes, nodes[node].terms[k])
      modifies this
      ensures Valid() && overLimit == (old(overLimit) || Outgrown(old(nodes[node].root))) && id !in old(nodes)
      ensures Rooted(old(nodes), node)
      ensures var root := old(nodes[node].root);
              && Adds(old(nodes), nodes, root, 1 + Brought(old(nodes), root, old(nodes[node].terms)))
              && nodes.Keys == old(nodes).Keys + {id} && Holds(nodes, id, old(nodes[node].op), old(nodes[node].terms), root)
    {
      id := NewNodeUnder(nodes[node].op, nodes[node].terms, node);
    }

    /** `with_node_mut`: what a node holds is written over, and its root and size left. */
    method Write(node: nat, op: Op, terms: seq<Value<A>>)
      requires Valid() && node in nodes && HeldBy(nodes, terms)
      modifies this`nodes
      ensures Valid() && nodes == old(nodes)[node := old(nodes[node]).(op := op, terms := terms)]
    {
      ghost var before := nodes;
      nodes := nodes[node := nodes[node].(op := op, terms := terms)];
      TermsStayHeld(before, nodes, node);
      assert forall id :: Rooted(before, id) ==> Rooted(nodes, id);
    }

    /** Rewrite a node in place, keeping its identity. */
    method UpdateExprNode(node: nat, op: Op, terms: seq<Value<A>>)
      requires Valid() && node in nodes && forall k | 0 <= k < |terms| :: Live(nodes, terms[k])
      modifies this`nodes, this`overLimit
      ensures Valid() && overLimit == (old(overLimit) || Outgrown(old(nodes[node].root)))
      ensures Rooted(old(nodes), node)
      ensures var root := old(nodes[node].root);
              && Rewrites(old(nodes), nodes, node) && nodes.Keys == old(nodes).Keys && Holds(nodes, node, op, terms, root)
              && nodes[root].size == old(nodes[root].size) + Brought(old(nodes), root, terms)
    {
      assert Rooted(nodes, node);
      RewrittenNode(nodes, nodes[node].root, Brought(nodes, nodes[node].root, terms), node, op, terms);
      AdoptAll(node, terms);
      Write(node, op, terms);
    }

    /** Wrap a node's whole content under a new operator. */
    method Wrap(expr: nat, op: Op, ghost l: Shape<A>, ghost root: nat) returns (ghost l': Shape<A>)
      requires Valid() && l.Cell? && l.id == expr && l.Apart() && Stored(l, nodes) && Region(l, root, nodes)
      modifies this
      ensures Valid() && overLimit == (old(overLimit) || Outgrown(root))
      ensures l'.Cell? && l'.id == expr && l'.Apart() && Stored(l', nodes) && Region(l', root, nodes)
      ensures l'.Erase() == Node(op, [l.Erase()]) && Grown(old(nodes), nodes, l, l', root, 1)
    {
      ghost var before := nodes;
      TermsLive(l, root, nodes);
      StoredIds(l, nodes);
      LeavesOver(op, l.Erase());
      var copy := DupNode(expr);
      var terms: seq<Value<A>> := [Ref(copy)];
      assert Rooted(nodes, copy) && Rooted(nodes, expr);
      OwnBringNothing(nodes, root, terms);
      ghost var mid := nodes;
      UpdateExprNode(expr, op, terms);
      AddThenRewrite(before, mid, nodes, root, 1 + Brought(before, root, l.Tops()), expr);
      l' := WrapStored(l, root, before, nodes, copy, op);
      if LeavesOnly(l.Erase()) {
        LeavesBringNothing(l, root, before);
      }
    }

    /** `set_term` at the operator's last slot, which extends a node that misses only that one. */
    method SetLast(node: nat, value: Value<A>)
      requires Valid() && node in nodes && Live(nodes, value)
      requires |nodes[node].terms| == nodes[node].op.Terms() - 1 || |nodes[node].terms| == nodes[node].op.Terms()
      modifies this`nodes, this`overLimit
      ensures Valid() && overLimit == (old(overLimit) || Outgrown(old(nodes[node].root)))
      ensures Rooted(old(nodes), node)
      ensures var n := old(nodes[node]);
              && Rewrites(old(nodes), nodes, node) && nodes.Keys == old(nodes).Keys
              && Holds(nodes, node, n.op, n.terms[..n.op.Terms() - 1] + [value], n.root)
              && nodes[n.root].size == old(nodes[n.root].size) + Brought(old(nodes), n.root, [value])
    {
      var n := nodes[node];
      assert Rooted(nodes, node) && n.op.Terms() - 1 <= |n.terms|;
      assert HeldBy(nodes, n.terms);
      HeldSnoc(nodes, n.terms, n.op.Terms() - 1, value);
      var terms := n.terms[..n.op.Terms() - 1] + [value];
      RewrittenNode(nodes, n.root, Brought(nodes, n.root, [value]), node, n.op, terms);
      Adopt(node, value);
      Write(node, n.op, terms);
    }

    /** A new node over the last term of another, which is still to take it. */
    method NewNodeOverLast(expr: nat, op: Op, ghost l: Shape<A>, ghost root: nat) returns (out: nat)
      requires Valid() && l.Cell? && l.id == expr && l.Apart() && Stored(l, nodes) && Region(l, root, nodes)
      requires l.kids != [] && |l.kids| == l.op.Terms()
      modifies this
      ensures Valid() && overLimit == (old(overLimit) || Outgrown(root)) && out !in old(nodes)
      ensures Live(old(nodes), l.Last().Top())
      ensures LeavesOnly(l.Erase()) ==> Brought(old(nodes), root, [l.Last().Top()]) == 0
      ensures Adds(old(nodes), nodes, root, 1 + Brought(old(nodes), root, [l.Last().Top()]))
      ensures Holds(nodes, out, op, [l.Last().Top()], root) && Brought(nodes, root, [Ref(out)]) == 0
    {
      LastHeld(l, root, nodes);
      var last := nodes[expr].terms[nodes[expr].op.Terms() - 1];
      LastBrings(l, root, nodes);
      out := NewNodeUnder(op, [last], expr);
      OwnBringNothing(nodes, root, [Ref(out)]);
    }

    /** Put the last term under a new operator. */
    method WrapLast(expr: nat, op: Op, ghost l: Shape<A>, ghost root: nat) returns (out: nat, ghost l': Shape<A>)
      requires Valid() && l.Cell? && l.id == expr && l.Apart() && Stored(l, nodes) && Region(l, root, nodes) && !op.Closed()
      requires l.kids != [] && |l.kids| == l.op.Terms() && !l.op.Closed()
      modifies this
      ensures Valid() && overLimit == (old(overLimit) || Outgrown(root))
      ensures l' == l.WithLast(Cell(out, op, [l.Last()])) && l'.Apart() && Stored(l', nodes) && Region(l', root, nodes)
      ensures l'.Erase() == l.Erase().WithLast(Node(op, [l.Erase().Last()])) && Grown(old(nodes), nodes, l, l', root, 1)
      ensures out in nodes && nodes[out].root == root
    {
      ghost var before := nodes;
      out := NewNodeOverLast(expr, op, l, root);
      ghost var mid := nodes;
      SetLast(expr, Ref(out));
      l' := WrapLastStored(l, root, before, mid, nodes, out, op);
    }

    /** Put a node without terms in the next slot. */
    method FillNext(expr: nat, op: Op, ghost l: Shape<A>, ghost root: nat) returns (out: nat, ghost l': Shape<A>)
      requires Valid() && l.Cell? && l.id == expr && l.Apart() && Stored(l, nodes) && Region(l, root, nodes) && !op.Closed()
      requires |l.kids| == l.op.Terms() - 1
      modifies this
      ensures Valid() && overLimit == (old(overLimit) || Outgrown(root))
      ensures l' == l.With(Cell(out, op, [])) && l'.Apart() && Stored(l', nodes) && Region(l', root, nodes)
      ensures l'.Erase() == Node(l.op, l.Erase().terms + [Node(op, [])]) && Grown(old(nodes), nodes, l, l', root, 1)
      ensures l'.Reaches(1) && l'.At(1).Top() == Ref(out) && out in nodes && nodes[out].root == root
    {
      ghost var before := nodes;
      StoredIds(l, nodes);
      out := NewNodeUnder(op, [], expr);
      ghost var mid := nodes;
      OwnBringNothing(nodes, root, [Ref(out)]);
      assert nodes[expr].terms[..l.op.Terms() - 1] == l.Tops();
      SetLast(expr, Ref(out));
      NextFilled(before, mid, nodes, l, root, out, op);
      l' := l.With(Cell(out, op, []));
      AtWith(l, Cell(out, op, []));
    }

    /** Embed a new operator, in place: the node keeps its identity, and what is returned heads the operator's next term. */
    method Prattify(expr: nat, op: Op, ghost l: Shape<A>, ghost root: nat) returns (out: nat, ghost l': Shape<A>)
      requires Valid() && l.Cell? && l.id == expr && l.Apart() && Stored(l, nodes) && Region(l, root, nodes)
      requires P.Applicable(l.Erase(), op)
      modifies this
      ensures Valid() && overLimit == (old(overLimit) || Outgrown(root))
      ensures l'.Cell? && l'.id == expr && l'.Apart() && Stored(l', nodes) && Region(l', root, nodes)
      ensures l'.Erase() == P.Prattify(l.Erase(), op).0 && Grown(old(nodes), nodes, l, l', root, 1)
      ensures l'.Reaches(P.Prattify(l.Erase(), op).1) && l'.At(P.Prattify(l.Erase(), op).1).Top() == Ref(out)
      ensures out in nodes && nodes[out].root == root
      decreases l, 1
    {
      EraseShape(l);
      out := expr;
      if op.kind.Infix? {
        out, l' := PrattifyInfix(expr, op, l, root);
      } else if op.kind.Prefix? {
        out, l' := FillNext(expr, op, l, root);
      } else {
        l' := PrattifySuffix(expr, op, l, root);
      }
    }

    method PrattifyInfix(expr: nat, op: Op, ghost l: Shape<A>, ghost root: nat) returns (out: nat, ghost l': Shape<A>)
      requires Valid() && l.Cell? && l.id == expr && l.Apart() && Stored(l, nodes) && Region(l, root, nodes)
      requires P.Applicable(l.Erase(), op) && op.kind.Infix?
      modifies this
      ensures Valid() && overLimit == (old(overLimit) || Outgrown(root))
      ensures l'.Cell? && l'.id == expr && l'.Apart() && Stored(l', nodes) && Region(l', root, nodes)
      ensures l'.Erase() == P.Prattify(l.Erase(), op).0 && Grown(old(nodes), nodes, l, l', root, 1)
      ensures l'.Reaches(P.Prattify(l.Erase(), op).1) && l'.At(P.Prattify(l.Erase(), op).1).Top() == Ref(out)
      ensures out in nodes && nodes[out].root == root
      decreases l, 0, 1
    {
      EraseShape(l);
      var n := nodes[expr];
      if n.op.kind.Suffix? || op.left <= n.op.right {
        out := expr;
        l' := Wrap(expr, op, l, root);
      } else {
        var last := n.terms[n.op.Terms() - 1];
        LastHeld(l, root, nodes);
        assert l.Last().Erase().Whole();
        if last.Ref? && nodes[last.id].op.right < op.left {
          out, l' := DrillInfix(last.id, op, l, root);
        } else {
          out, l' := WrapLast(expr, op, l, root);
          WrappedAt(l, Cell(out, op, [l.Last()]), op);
        }
      }
    }

    /** Embed an infix operator below one it binds tighter than, in a last term it binds tighter than too. */
    method DrillInfix(last: nat, op: Op, ghost l: Shape<A>, ghost root: nat) returns (out: nat, ghost l': Shape<A>)
      requires Valid() && l.Cell? && l.Apart() && Stored(l, nodes) && Region(l, root, nodes)
      requires P.Applicable(l.Erase(), op) && op.kind.Infix? && l.op.Spine() && l.op.right < op.left && l.kids != []
      requires l.Last().Top() == Ref(last) && l.Last().op.right < op.left
      modifies this
      ensures Valid() && overLimit == (old(overLimit) || Outgrown(root))
      ensures l'.Cell? && l'.id == l.id && l'.Apart() && Stored(l', nodes) && Region(l', root, nodes)
      ensures l'.Erase() == P.Prattify(l.Erase(), op).0 && Grown(old(nodes), nodes, l, l', root, 1)
      ensures l'.Reaches(P.Prattify(l.Erase(), op).1) && l'.At(P.Prattify(l.Erase(), op).1).Top() == Ref(out)
      ensures out in nodes && nodes[out].root == root
      decreases l, 0, 1, 0
    {
      DrilledAt(l, l.Last(), op);
      ghost var inner;
      out, l', inner := PrattifyLast(last, op, l, root);
      DrilledAt(l, inner, op);
    }

    method PrattifySuffix(expr: nat, op: Op, ghost l: Shape<A>, ghost root: nat) returns (ghost l': Shape<A>)
      requires Valid() && l.Cell? && l.id == expr && l.Apart() && Stored(l, nodes) && Region(l, root, nodes)
      requires P.Applicable(l.Erase(), op) && op.kind.Suffix?
      modifies this
      ensures Valid() && overLimit == (old(overLimit) || Outgrown(root))
      ensures l'.Cell? && l'.id == expr && l'.Apart() && Stored(l', nodes) && Region(l', root, nodes)
      ensures l'.Erase() == P.Prattify(l.Erase(), op).0 && Grown(old(nodes), nodes, l, l', root, 1)
      decreases l, 0, 1
    {
      EraseShape(l);
      var n := nodes[expr];
      if !n.op.kind.Suffix? && n.op.right <= op.left {
        var last := n.terms[n.op.Terms() - 1];
        LastHeld(l, root, nodes);
        if last.Ref? && nodes[last.id].op.kind.Prefix? && nodes[last.id].op.right < op.left {
          assert P.Prattify(l.Erase(), op).0 == l.Erase().WithLast(P.Prattify(l.Last().Erase(), op).0);
          var _, drilled, _ := PrattifyLast(last.id, op, l, root);
          l' := drilled;
        } else {
          assert P.Prattify(l.Erase(), op).0 == l.Erase().WithLast(Node(op, [l.Erase().Last()]));
          var _, wrapped := WrapLast(expr, op, l, root);
          l' := wrapped;
        }
      } else {
        assert P.Prattify(l.Erase(), op).0 == Node(op, [l.Erase()]);
        l' := Wrap(expr, op, l, root);
      }
    }

    /** Embed the operator in the last term, a node of the same expression. */
    method PrattifyLast(last: nat, op: Op, ghost l: Shape<A>, ghost root: nat)
      returns (out: nat, ghost l': Shape<A>, ghost inner: Shape<A>)
      requires Valid() && l.Cell? && l.kids != [] && l.Apart() && Stored(l, nodes) && Region(l, root, nodes)
      requires !l.op.Closed() && l.Last().Cell? && l.Last().id == last && !l.Last().op.Closed() && P.Applicable(l.Last().Erase(), op)
      modifies this
      ensures Valid() && overLimit == (old(overLimit) || Outgrown(root))
      ensures l'.Cell? && l'.id == l.id && l'.Apart() && Stored(l', nodes) && Region(l', root, nodes)
      ensures |l.Erase().terms| == |l.kids| && l'.Erase() == l.Erase().WithLast(P.Prattify(l.Last().Erase(), op).0)
      ensures Grown(old(nodes), nodes, l, l', root, 1)
      ensures l' == l.WithLast(inner)
      ensures inner.Reaches(P.Prattify(l.Last().Erase(), op).1)
      ensures inner.At(P.Prattify(l.Last().Erase(), op).1).Top() == Ref(out)
      ensures out in nodes && nodes[out].root == root
      decreases l, 0, 0
    {
      EraseShape(l);
      ghost var before := nodes;
      LastHeld(l, root, nodes);
      out, inner := Prattify(last, op, l.Last(), root);
      l' := l.WithLast(inner);
      DrilledStored(l, root, before, nodes, inner, 1);
    }

    /** Embed an operator at a node on the spine of an expression; wherever it lands, its root id leads to the whole. */
    method PrattifyAt(node: nat, op: Op, ghost l: Shape<A>, ghost depth: nat, ghost above: nat) returns (out: nat, ghost l': Shape<A>)
      requires Valid() && Tracks(l, nodes) && l.Erase().OnSpine(depth) && l.Reaches(depth) && l.At(depth).Top() == Ref(node)
      requires P.Applicable(l.Erase().At(depth), op) && (l.Erase().At(depth).op.Closed() ==> depth == 0) && above <= depth
      modifies this
      ensures Valid() && overLimit == (old(overLimit) || Outgrown(l.id))
      ensures Tracks(l', nodes) && l'.id == l.id && l'.Erase() == l.Erase().Put(depth, P.Prattify(l.Erase().At(depth), op).0)
      ensures l'.Reaches(depth) && var more := P.Prattify(l.Erase().At(depth), op).1;
              l'.At(depth).Reaches(more) && l'.At(depth).At(more).Top() == Ref(out)
      ensures out in nodes && nodes[out].root == l.id && l.Reaches(above) && l'.Reaches(above) && l'.At(above).Top() == l.At(above).Top()
      ensures l.Ids() <= l'.Ids() && (l'.Ids() - l.Ids()) !! old(nodes).Keys
      ensures Spares(old(nodes), nodes, l.Ids()) && old(nodes[l.id].size) <= nodes[l.id].size
    {
      ghost var before := nodes;
      SpineRegion(l, depth, l.id, nodes);
      ghost var m;
      out, m := Prattify(node, op, l.At(depth), l.id);
      RewroteAt(l, depth, l.id, before, nodes, m, 1);
      EraseAt(l, depth);
      l' := l.Put(depth, m);
      PutAt(l, depth, m);
      PutTop(l, depth, above, m);
      PrattifySize(l.Erase().At(depth), op);
      SizePut(l.Erase(), depth, m.Erase());
      StepSpares(before, nodes, l.Ids(), l.id);
    }

    /** Enter a node under the next id, a root of its own. */
    method InsertRoot(op: Op, terms: seq<Value<A>>) returns (id: nat)
      requires Valid() && HeldBy(nodes, terms)
      modifies this`nodes, this`nextId
      ensures Valid() && id !in old(nodes) && nodes == old(nodes)[id := ExprNode(op, terms, id, 1)]
    {
      ghost var before := nodes;
      nextId := nextId + 1;
      id := nextId;
      nodes := nodes[id := ExprNode(op, terms, id, 1)];
      TermsStayHeld(before, nodes, id);
      assert forall j :: Rooted(before, j) ==> Rooted(nodes, j);
    }

    /**
     `new_node`: a fresh root over finished terms, which brings the size of
     each that is an expression. A group takes in any expression, so that an
     operation in parentheses keeps the root it was built under.
     */
    method NewNode(op: Op, terms: seq<Value<A>>, ghost xs: seq<Shape<A>>) returns (id: nat, ghost l: Shape<A>)
      requires Valid() && |terms| == |xs| && forall k | 0 <= k < |xs| :: xs[k].Top() == terms[k]
      requires Finished(xs, nodes, op.Closed())
      modifies this
      ensures Valid() && overLimit == (old(overLimit) || Outgrown(id)) && id !in old(nodes)
      ensures l == Cell(id, op, xs) && Tracks(l, nodes)
      ensures Spares(old(nodes), nodes, {})
    {
      ghost var before := nodes;
      FinishedLive(xs, nodes, op.Closed());
      assert forall k | 0 <= k < |terms| :: terms[k] == xs[k].Top() && Live(before, xs[k].Top());
      id := InsertRoot(op, terms);
      assert Rooted(nodes, id);
      assert forall j :: Rooted(before, j) ==> Rooted(nodes, j);
      AdoptAll(id, terms);
      NewRoot(before, nodes, id, op, terms);
      l := NewNodeTracks(before, nodes, id, op, terms, xs);
      StepSparesAll(before, nodes, id);
    }

    /**
     `prior_expr`: an expression already there is wrapped, under its own
     identity; otherwise a fresh root takes the value as its first term, and
     a prefix operator takes none.
     */
    method PriorExpr(op: Op, first: Given<A>, ghost x: Shape<A>) returns (id: nat, ghost l: Shape<A>)
      requires Valid() && !op.Closed() && (op.kind.Prefix? || first.Given?)
      requires first.Given? ==> x.Top() == first.value && (x.Cell? ==> Tracks(x, nodes))
      modifies this
      ensures Valid() && overLimit == (old(overLimit) || Outgrown(id)) && l.Cell? && l.id == id && Tracks(l, nodes)
      ensures l.Erase() == Node(op, if op.kind.Prefix? then [] else [x.Erase()])
      ensures if first.Given? && first.value.Ref? && !op.kind.Prefix? then
                id == first.value.id && x.Ids() <= l.Ids() && (l.Ids() - x.Ids()) !! old(nodes).Keys && Spares(old(nodes), nodes, x.Ids())
              else
                l.Ids() == {id} && id !in old(nodes) && Spares(old(nodes), nodes, {})
    {
      if first.Given? && first.value.Ref? && !op.kind.Prefix? {
        id := first.value.id;
        l := WrapRoot(id, op, x);
      } else {
        ghost var xs := if op.kind.Prefix? then [] else [x];
        id, l := NewNode(op, if op.kind.Prefix? then [] else [first.value], xs);
        SpotsOnly(l);
      }
    }

    /** Wrap a whole expression under a new operator, a ternary's included: its root keeps its identity. */
    method WrapRoot(root: nat, op: Op, ghost l: Shape<A>) returns (ghost l': Shape<A>)
      requires Valid() && Tracks(l, nodes) && l.id == root
      modifies this
      ensures Valid() && overLimit == (old(overLimit) || Outgrown(root))
      ensures Tracks(l', nodes) && l'.id == root && l'.Erase() == Node(op, [l.Erase()])
      ensures l.Ids() <= l'.Ids() && (l'.Ids() - l.Ids()) !! old(nodes).Keys
      ensures Spares(old(nodes), nodes, l.Ids())
    {
      ghost var before := nodes;
      l' := Wrap(root, op, l, root);
      SizeWith(Node(op, []), l.Erase());
      assert [] + [l.Erase()] == [l.Erase()];
      StepSpares(before, nodes, l.Ids(), root);
    }

    /** `close_paren`: the group, over the value it follows, if any, and what it holds, if anything. */
    method CloseParen(op: Op, preval: Given<A>, inner: Given<A>, ghost xs: seq<Shape<A>>) returns (id: nat, ghost l: Shape<A>)
      requires Valid() && op.kind.Paren? && |xs| == |Terms(preval, inner)| && Finished(xs, nodes, true)
      requires forall k | 0 <= k < |xs| :: xs[k].Top() == Terms(preval, inner)[k]
      modifies this
      ensures Valid() && overLimit == (old(overLimit) || Outgrown(id)) && id !in old(nodes)
      ensures l == Cell(id, op, xs) && Tracks(l, nodes) && FinishedIn(l, nodes, false)
      ensures Spares(old(nodes), nodes, {})
    {
      var terms := [];
      if preval.Given? {
        terms := terms + [preval.value];
      }
      if inner.Given? {
        terms := terms + [inner.value];
      }
      id, l := NewNode(op, terms, xs);
    }

    /** A ternary opens: over the whole expression before it, in place, or over a value. */
    method OpenTernary(op: Op, first: Value<A>, ghost x: Shape<A>) returns (id: nat, ghost l: Shape<A>)
      requires Valid() && op.kind.Ternary? && x.Top() == first && (x.Cell? ==> Tracks(x, nodes))
      modifies this
      ensures Valid() && overLimit == (old(overLimit) || Outgrown(id))
      ensures l.Cell? && l.id == id && Tracks(l, nodes) && l.Erase() == Node(op, [x.Erase()])
      ensures first.Ref? ==> id == first.id
      ensures Spares(old(nodes), nodes, x.Ids())
    {
      if first.Ref? {
        id := first.id;
        l := WrapRoot(id, op, x);
      } else {
        id, l := NewNode(op, [first], [x]);
        SpotsOnly(l);
      }
    }

    /** A branch of a ternary ends: any expression is taken in, with its own root. */
    method PushBranch(node: nat, value: Value<A>, ghost l: Shape<A>, ghost x: Shape<A>) returns (ghost l': Shape<A>)
      requires Valid() && Tracks(l, nodes) && l.id == node && l.op.Closed()
      requires x.Top() == value && FinishedIn(x, nodes, true) && x.Ids() !! l.Ids()
      modifies this
      ensures Valid() && overLimit == (old(overLimit) || Outgrown(node))
      ensures l' == l.With(x) && Tracks(l', nodes) && l'.Ids() == l.Ids() + x.Ids()
      ensures l'.Erase() == Node(l.op, l.Erase().terms + [x.Erase()])
      ensures Spares(old(nodes), nodes, l.Ids())
    {
      ghost var before := nodes;
      EraseShape(l);
      PushTerm(node, value);
      GuestPushed(x, node, before, nodes, node, true);
      PushedStored(l, node, before, nodes, x);
      l' := l.With(x);
      SizeWith(l.Erase(), x.Erase());
      BroughtOne(before, node, x, true);
      StepSpares(before, nodes, l.Ids(), node);
    }

    /** While the flag is clear no expression nests deeper than the limit. */
    lemma DepthBounded(l: Shape<A>)
      requires Valid() && Tracks(l, nodes) && !overLimit
      ensures Depth(l.Erase()) <= Size(l.Erase()) <= NODE_LIMIT
    {
      DepthWithinSize(l.Erase());
    }

    /** `expr.push(value)`. */
    method PushTerm(node: nat, value: Value<A>)
      requires Valid() && node in nodes && Live(nodes, value)
      modifies this`nodes, this`overLimit
      ensures Valid() && overLimit == (old(overLimit) || Outgrown(old(nodes[node].root)))
      ensures Rooted(old(nodes), node)
      ensures var n := old(nodes[node]);
              && Rewrites(old(nodes), nodes, node) && nodes.Keys == old(nodes).Keys
              && Holds(nodes, node, n.op, n.terms + [value], n.root)
              && nodes[n.root].size == old(nodes[n.root].size) + Brought(old(nodes), n.root, [value])
    {
      var n := nodes[node];
      assert Rooted(nodes, node);
      RewrittenNode(nodes, n.root, Brought(nodes, n.root, [value]), node, n.op, n.terms + [value]);
      Adopt(node, value);
      Write(node, n.op, n.terms + [value]);
    }

    /** Push a finished operand on the open node of an expression, which takes in the whole operand. */
    method PushAt(node: nat, value: Value<A>, ghost l: Shape<A>, ghost depth: nat, ghost above: nat, ghost x: Shape<A>)
      returns (ghost l': Shape<A>)
      requires Valid() && Tracks(l, nodes) && l.Erase().OnSpine(depth) && l.Reaches(depth) && l.At(depth).Top() == Ref(node) && above <= depth
      requires P.Slot(l.Erase().At(depth)) && x.Top() == value && FinishedIn(x, nodes, false) && x.Ids() !! l.Ids()
      modifies this
      ensures Valid() && overLimit == (old(overLimit) || Outgrown(l.id))
      ensures Tracks(l', nodes) && l'.id == l.id && l'.Ids() == l.Ids() + x.Ids()
      ensures var slot := l.Erase().At(depth);
              slot.Node? && l'.Erase() == l.Erase().Put(depth, Node(slot.op, slot.terms + [x.Erase()]))
      ensures l.Reaches(above) && l'.Reaches(above) && l'.At(above).Top() == l.At(above).Top()
      ensures Spares(old(nodes), nodes, l.Ids()) && old(nodes[l.id].size) <= nodes[l.id].size
    {
      ghost var before := nodes;
      SpineRegion(l, depth, l.id, nodes);
      AtIds(l, depth);
      EraseAt(l, depth);
      EraseShape(l.At(depth));
      PushTerm(node, value);
      GuestPushed(x, l.id, before, nodes, node, false);
      l' := PushedAt(l, depth, before, nodes, x);
      PutTop(l, depth, above, l.At(depth).With(x));
      BroughtOne(before, l.id, x, false);
      StepSpares(before, nodes, l.Ids(), l.id);
    }
  }

  /** A value a rule holds, or none. */
  datatype Given<A> = Missing | Given(value: Value<A>)

  function Terms<A>(preval: Given<A>, inner: Given<A>): seq<Value<A>> {
    (if preval.Given? then [preval.value] else []) + if inner.Given? then [inner.value] else []
  }

  /** Finished terms that share no node. */
  ghost predicate Finished<A>(xs: seq<Shape<A>>, nodes: Nodes<A>, any: bool) {
    && (forall k | 0 <= k < |xs| :: FinishedIn(xs[k], nodes, any))
    && (forall j, k | 0 <= j < k < |xs| :: xs[j].Ids() !! xs[k].Ids())
  }

  lemma FinishedLive<A>(xs: seq<Shape<A>>, nodes: Nodes<A>, any: bool)
    requires Finished(xs, nodes, any)
    ensures forall k | 0 <= k < |xs| :: Live(nodes, xs[k].Top()) && xs[k].Ids() <= nodes.Keys && xs[k].Apart()
  {
    forall k | 0 <= k < |xs|
      ensures Live(nodes, xs[k].Top()) && xs[k].Ids() <= nodes.Keys && xs[k].Apart()
    {
      assert FinishedIn(xs[k], nodes, any);
      StoredIds(xs[k], nodes);
    }
  }

  ghost function Over<A>(id: nat, op: Op, xs: seq<Shape<A>>): Shape<A> {
    Cell(id, op, xs)
  }

  /** What the terms bring covers their nodes; leaves bring nothing. */
  lemma {:induction false} BroughtCovers<A>(nodes: Nodes<A>, root: nat, op: Op, xs: seq<Shape<A>>, terms: seq<Value<A>>, any: bool)
    requires Finished(xs, nodes, any) && |terms| == |xs| && forall k | 0 <= k < |xs| :: terms[k] == xs[k].Top()
    requires forall k | 0 <= k < |terms| :: Live(nodes, terms[k])
    requires forall k | 0 <= k < |xs| :: root !in xs[k].Ids()
    ensures Size(Over(root, op, xs).Erase()) <= 1 + Brought(nodes, root, terms)
    ensures (forall k | 0 <= k < |xs| :: xs[k].Spot?) ==> Size(Over(root, op, xs).Erase()) == 1 && Brought(nodes, root, terms) == 0
  {
    if xs == [] {
      assert Over(root, op, xs).Erased() == [];
    } else {
      var n := |xs| - 1;
      var lead, x := xs[..n], xs[n];
      BroughtCovers(nodes, root, op, lead, terms[..n], any);
      OverSize(root, op, lead, x);
      assert xs == lead + [x];
      assert terms[n] == x.Top();
      BroughtByLast(nodes, root, x, any);
    }
  }

  lemma OverSize<A>(root: nat, op: Op, lead: seq<Shape<A>>, x: Shape<A>)
    ensures Size(Over(root, op, lead + [x]).Erase()) == Size(Over(root, op, lead).Erase()) + Size(x.Erase())
  {
    EraseShape(Over(root, op, lead));
    assert Over(root, op, lead).With(x) == Over(root, op, lead + [x]);
    SizeWith(Over(root, op, lead).Erase(), x.Erase());
  }

  /** A finished term brings at least its own nodes, and a leaf has none. */
  lemma BroughtByLast<A>(nodes: Nodes<A>, root: nat, x: Shape<A>, any: bool)
    requires FinishedIn(x, nodes, any) && root !in x.Ids() && Live(nodes, x.Top())
    ensures x.Spot? ==> Size(x.Erase()) == 0
    ensures x.Cell? ==> nodes[x.id].root == x.id != root && Size(x.Erase()) <= nodes[x.id].size
  {
  }

  /** Entering a fresh root, then counting what its terms bring. */
  lemma NewRoot<A>(before: Nodes<A>, after: Nodes<A>, id: nat, op: Op, terms: seq<Value<A>>)
    requires id !in before && forall k | 0 <= k < |terms| :: Live(before, terms[k])
    requires var made := before[id := ExprNode(op, terms, id, 1)];
             && (forall k | 0 <= k < |terms| :: Live(made, terms[k]))
             && after == Counted(made, id, Brought(made, id, terms))
    ensures SameRoots(before, after) && CountsOnly(before, after, id) && Kept(before, after, before.Keys)
    ensures Holds(after, id, op, terms, id) && after[id].size == 1 + Brought(before, id, terms)
  {
    var made := before[id := ExprNode(op, terms, id, 1)];
    assert forall j :: Rooted(before, j) ==> Rooted(made, j);
    BroughtSame(before, made, id, terms);
    assert forall j :: Rooted(before, j) ==> Rooted(after, j);
  }

  lemma OverApart<A>(id: nat, op: Op, xs: seq<Shape<A>>)
    requires forall k | 0 <= k < |xs| :: xs[k].Apart() && id !in xs[k].Ids()
    requires forall j, k | 0 <= j < k < |xs| :: xs[j].Ids() !! xs[k].Ids()
    ensures Over(id, op, xs).Apart()
  {
  }

  /** A finished term is taken in as it is. */
  lemma TakenIn<A>(x: Shape<A>, before: Nodes<A>, after: Nodes<A>, id: nat, any: bool)
    requires FinishedIn(x, before, any) && id !in before && id !in x.Ids()
    requires SameRoots(before, after) && CountsOnly(before, after, id) && Kept(before, after, before.Keys)
    ensures Stored(x, after) && (Region(x, id, after) || Guest(x, id, after, any))
  {
    if x.Cell? {
      OthersTracked(x, before, after, {id}, id);
    }
  }

  /** A fresh root over finished terms tracks them. */
  lemma NewNodeTracks<A>(before: Nodes<A>, after: Nodes<A>, id: nat, op: Op, terms: seq<Value<A>>, xs: seq<Shape<A>>) returns (l: Shape<A>)
    requires Finished(xs, before, op.Closed()) && |terms| == |xs| && forall k | 0 <= k < |xs| :: terms[k] == xs[k].Top()
    requires id !in before && forall k | 0 <= k < |terms| :: Live(before, terms[k])
    requires SameRoots(before, after) && CountsOnly(before, after, id) && Kept(before, after, before.Keys)
    requires Holds(after, id, op, terms, id) && after[id].size == 1 + Brought(before, id, terms)
    ensures l == Cell(id, op, xs) && Tracks(l, after)
  {
    l := Over(id, op, xs);
    FinishedLive(xs, before, op.Closed());
    OverApart(id, op, xs);
    BroughtCovers(before, id, op, xs, terms, op.Closed());
    NewLeaves(l, before);
    forall k | 0 <= k < |xs|
      ensures Stored(xs[k], after) && (Region(xs[k], id, after) || Guest(xs[k], id, after, op.Closed()))
    {
      TakenIn(xs[k], before, after, id, op.Closed());
    }
    assert l.Tops() == terms;
  }

  lemma NewLeaves<A>(l: Shape<A>, nodes: Nodes<A>)
    requires l.Cell? && Finished(l.kids, nodes, l.op.Closed())
    ensures LeavesOnly(l.Erase()) ==> forall k | 0 <= k < |l.kids| :: l.kids[k].Spot?
  {
    EraseShape(l);
    if LeavesOnly(l.Erase()) {
      forall k | 0 <= k < |l.kids|
        ensures l.kids[k].Spot?
      {
        assert LeavesOnly(l.Erase().terms[k]) && l.Erase().terms[k] == l.kids[k].Erase();
        assert FinishedIn(l.kids[k], nodes, l.op.Closed());
      }
    }
  }

  lemma SpotsOnly<A>(l: Shape<A>)
    requires l.Cell? && forall k | 0 <= k < |l.kids| :: l.kids[k].Spot?
    ensures l.Ids() == {l.id} && l.Erase() == Node(l.op, seq(|l.kids|, k requires 0 <= k < |l.kids| => l.kids[k].Erase()))
  {
    assert l.KidIds() == {};
  }

  lemma PushedAt<A>(l: Shape<A>, depth: nat, before: Nodes<A>, after: Nodes<A>, x: Shape<A>) returns (l': Shape<A>)
    requires Tracks(l, before) && l.Erase().OnSpine(depth) && l.Reaches(depth) && P.Slot(l.Erase().At(depth))
    requires x.Apart() && x.Ids() !! l.Ids() && Stored(x, after) && (Region(x, l.id, after) || Guest(x, l.id, after, false))
    requires l.At(depth).Cell? && Rewrites(before, after, l.At(depth).id)
    requires Holds(after, l.At(depth).id, l.At(depth).op, l.At(depth).Tops() + [x.Top()], l.id)
    ensures l' == l.Put(depth, l.At(depth).With(x)) && l'.Apart() && Stored(l', after) && Region(l', l.id, after)
    ensures l'.Cell? && l'.id == l.id && l'.Ids() == l.Ids() + x.Ids()
    ensures var slot := l.Erase().At(depth); l'.Erase() == l.Erase().Put(depth, Node(slot.op, slot.terms + [x.Erase()]))
    ensures Size(l'.Erase()) == Size(l.Erase()) + Size(x.Erase())
    ensures LeavesOnly(l'.Erase()) ==> LeavesOnly(l.Erase()) && LeavesOnly(x.Erase())
  {
    var u := l.At(depth);
    SpineRegion(l, depth, l.id, before);
    AtIds(l, depth);
    EraseAt(l, depth);
    PushedStored(u, l.id, before, after, x);
    var m := u.With(x);
    RewroteOne(l, depth, l.id, before, after, m);
    PutIds(l, depth, m);
    l' := l.Put(depth, m);
    EraseShape(u);
    PushedSize(l.Erase(), depth, x.Erase());
  }

  lemma PushedSize<A>(t: Tree<A>, depth: nat, x: Tree<A>)
    requires t.OnSpine(depth) && P.Slot(t.At(depth))
    ensures var slot := t.At(depth); var u := t.Put(depth, Node(slot.op, slot.terms + [x]));
            Size(u) == Size(t) + Size(x) && (LeavesOnly(u) ==> LeavesOnly(t) && LeavesOnly(x))
  {
    var slot := t.At(depth);
    SizeWith(slot, x);
    SizePut(t, depth, Node(slot.op, slot.terms + [x]));
    PushedLeaves(t, depth, x);
  }

  /** A finished operand stays what it was when it is pushed elsewhere. */
  lemma GuestPushed<A>(x: Shape<A>, root: nat, before: Nodes<A>, after: Nodes<A>, node: nat, any: bool)
    requires FinishedIn(x, before, any) && Rewrites(before, after, node) && node !in x.Ids() && root !in x.Ids()
    ensures Stored(x, after) && (Region(x, root, after) || Guest(x, root, after, any))
  {
    if x.Cell? {
      Untouched(x, x.id, before, after, node);
    }
  }

  lemma BroughtOne<A>(nodes: Nodes<A>, root: nat, x: Shape<A>, any: bool)
    requires FinishedIn(x, nodes, any) && root !in x.Ids() && Live(nodes, x.Top())
    ensures Size(x.Erase()) <= Brought(nodes, root, [x.Top()])
    ensures x.Spot? ==> Brought(nodes, root, [x.Top()]) == 0
  {
    assert [x.Top()][..0] == [];
  }

  lemma {:induction false} PushedLeaves<A>(t: Tree<A>, depth: nat, x: Tree<A>)
    requires t.OnSpine(depth) && t.At(depth).Node?
    ensures LeavesOnly(t.Put(depth, Node(t.At(depth).op, t.At(depth).terms + [x]))) ==> LeavesOnly(t) && LeavesOnly(x)
  {
    if depth == 0 {
      LeavesWith(t, x);
    } else {
      PushedLeaves(t.Last(), depth - 1, x);
      LeavesWithLast(t, t.Last().Put(depth - 1, Node(t.At(depth).op, t.At(depth).terms + [x])));
    }
  }

  lemma {:induction false} PutAt<I, A>(l: Layout<I, A>, depth: nat, m: Layout<I, A>)
    requires l.Reaches(depth)
    ensures l.Put(depth, m).Reaches(depth) && l.Put(depth, m).At(depth) == m
  {
    if depth > 0 {
      PutAt(l.Last(), depth - 1, m);
      assert l.Put(depth, m).Last() == l.Last().Put(depth - 1, m);
    }
  }

  /** The last term as the node holds it; outside a group it belongs to the same expression. */
  lemma LastHeld<A>(l: Shape<A>, root: nat, nodes: Nodes<A>)
    requires l.Cell? && l.kids != [] && l.Apart() && Stored(l, nodes) && Region(l, root, nodes)
    ensures nodes[l.id].terms[|l.kids| - 1] == l.Last().Top() && Stored(l.Last(), nodes) && l.Last().Apart()
    ensures !l.op.Closed() && l.Last().Cell? && !l.Last().op.Closed() ==> Region(l.Last(), root, nodes)
    ensures l.Last().Erase().Node? <==> l.Last().Cell?
  {
    assert Region(l.Last(), root, nodes) || Guest(l.Last(), root, nodes, l.op.Closed());
  }

  lemma {:induction false} BroughtSame<A>(before: Nodes<A>, after: Nodes<A>, root: nat, terms: seq<Value<A>>)
    requires forall k | 0 <= k < |terms| :: Live(before, terms[k]) && Live(after, terms[k])
    requires forall id | id in before :: id in after && after[id].root == before[id].root && (id == root || after[id].size == before[id].size)
    ensures Brought(before, root, terms) == Brought(after, root, terms)
  {
    if terms != [] {
      assert Live(before, terms[|terms| - 1]) && Live(after, terms[|terms| - 1]);
      BroughtSame(before, after, root, terms[..|terms| - 1]);
    }
  }
}
