/** Operators, partly built S-expressions, and the token sequence each one reads as. */
module Operators {

  datatype Kind = Prefix | Infix | Suffix | Ternary | Paren

  /** What an unset binding power falls back to. */
  const MIN_POWER: int := -9007199254740991
  const MAX_POWER: int := 9007199254740991

  datatype Op = Op(src: string, kind: Kind, left: int, right: int) {

    function Terms(): nat {
      match kind
      case Ternary => 3
      case Infix => 2
      case _ => 1
    }

    /** The last term of such an operator is followed by later operators, so they may be built into it. */
    predicate Spine() {
      kind.Prefix? || kind.Infix?
    }

    /** A paren or a ternary: a finished group that nothing is built into. */
    predicate Closed() {
      kind.Paren? || kind.Ternary?
    }

    /** The two facts about powers the algorithm relies on to leave groups alone. */
    predicate WellPowered() {
      if Closed() then right == MAX_POWER else left < MAX_POWER
    }
  }

  /** An expression: a value, or an operator and the terms filled in so far. */
  datatype Tree<A> = Leaf(atom: A) | Node(op: Op, terms: seq<Tree>) {

    /** Every slot is filled. The inside of a group is not looked at. */
    ghost predicate Whole() {
      Node? ==>
        && op.WellPowered()
        && (!op.Closed() ==> |terms| == op.Terms() && forall k | 0 <= k < |terms| :: terms[k].Whole())
    }

    /** Exactly the last slot in reading order is missing. */
    ghost predicate Open() {
      && Node? && op.Spine() && op.WellPowered()
      && (forall k | 0 <= k < |terms| && k < op.Terms() - 1 :: terms[k].Whole())
      && (|terms| == op.Terms() - 1 || (|terms| == op.Terms() && Last().Open()))
    }

    function Last(): Tree<A>
      requires Node? && terms != []
    {
      terms[|terms| - 1]
    }

    function WithLast(last: Tree<A>): Tree<A>
      requires Node? && terms != []
    {
      Node(op, terms[|terms| - 1 := last])
    }

    /** A finished operand: a value or a group. */
    predicate Finished() {
      Leaf? || op.Closed()
    }

    /** Whether a walk down last terms reaches `depth` without entering a group or a suffix. */
    ghost predicate OnSpine(depth: nat) {
      depth == 0 || (Node? && op.Spine() && |terms| == op.Terms() && Last().OnSpine(depth - 1))
    }

    ghost function At(depth: nat): Tree<A>
      requires OnSpine(depth)
    {
      if depth == 0 then this else Last().At(depth - 1)
    }

    ghost function Put(depth: nat, inner: Tree<A>): Tree<A>
      requires OnSpine(depth)
    {
      if depth == 0 then inner else WithLast(Last().Put(depth - 1, inner))
    }
  }

  datatype Token<A> = Operand(tree: Tree<A>) | Operator(op: Op)

  /** The tokens of an expression from left to right, a group standing as one operand. */
  ghost function Reading<A>(t: Tree<A>): seq<Token<A>> {
    if t.Finished() then
      [Operand(t)]
    else if t.op.kind.Prefix? then
      [Operator(t.op)] + ReadingFrom(t, 0)
    else
      (if t.terms == [] then [] else Reading(t.terms[0])) + [Operator(t.op)] + ReadingFrom(t, 1)
  }

  /** The tokens of the terms from the given one on. */
  ghost function ReadingFrom<A>(t: Tree<A>, k: nat): seq<Token<A>>
    requires t.Node?
    decreases t, 0, if k <= |t.terms| then |t.terms| - k else 0
  {
    if k >= |t.terms| then [] else Reading(t.terms[k]) + ReadingFrom(t, k + 1)
  }

  /** A node that still misses its last term reads as everything before the slot. */
  lemma ReadingWithTerm<A>(t: Tree<A>, x: Tree<A>)
    requires t.Node? && t.op.Spine() && |t.terms| == t.op.Terms() - 1
    ensures Reading(Node(t.op, t.terms + [x])) == Reading(t) + Reading(x)
  {
    var u := Node(t.op, t.terms + [x]);
    if t.op.kind.Prefix? {
      assert u.terms == [x];
      ReadingOne(u);
      assert Reading(t) == [Operator(t.op)] + [];
    } else {
      assert u.terms == [t.terms[0], x];
      ReadingTwo(u);
      assert Reading(t) == Reading(t.terms[0]) + [Operator(t.op)] + [];
    }
  }

  lemma ReadingOne<A>(t: Tree<A>)
    requires t.Node? && t.op.kind.Prefix? && |t.terms| == 1
    ensures Reading(t) == [Operator(t.op)] + Reading(t.terms[0])
  {
    assert ReadingFrom(t, 1) == [];
    assert ReadingFrom(t, 0) == Reading(t.terms[0]) + [];
  }

  lemma ReadingTwo<A>(t: Tree<A>)
    requires t.Node? && t.op.kind.Infix? && |t.terms| == 2
    ensures Reading(t) == Reading(t.terms[0]) + [Operator(t.op)] + Reading(t.terms[1])
  {
    assert ReadingFrom(t, 2) == [];
    assert ReadingFrom(t, 1) == Reading(t.terms[1]) + [];
  }

  /** The part of a reading that comes before the last term. */
  ghost function Lead<A>(t: Tree<A>): Tree<A>
    requires t.Node? && t.terms != []
  {
    Node(t.op, t.terms[..|t.terms| - 1])
  }

  lemma ReadingSplit<A>(t: Tree<A>)
    requires t.Node? && t.op.Spine() && |t.terms| == t.op.Terms()
    ensures Reading(t) == Reading(Lead(t)) + Reading(t.Last())
  {
    ReadingWithTerm(Lead(t), t.Last());
    assert Lead(t).terms + [t.Last()] == t.terms;
  }

  /** Rewriting a node on the spine changes the reading from that node's first token on. */
  lemma {:induction false} ReadingPut<A>(t: Tree<A>, depth: nat, u: Tree<A>) returns (before: seq<Token<A>>)
    requires t.OnSpine(depth)
    ensures Reading(t) == before + Reading(t.At(depth))
    ensures Reading(t.Put(depth, u)) == before + Reading(u)
  {
    if depth == 0 {
      before := [];
    } else {
      var inner := ReadingPut(t.Last(), depth - 1, u);
      before := Reading(Lead(t)) + inner;
      var t' := t.Put(depth, u);
      assert Lead(t') == Lead(t) && t'.Last() == t.Last().Put(depth - 1, u);
      ReadingSplit(t);
      ReadingSplit(t');
      Associative(Reading(Lead(t)), inner, Reading(u));
      Associative(Reading(Lead(t)), inner, Reading(t.At(depth)));
    }
  }

  lemma Associative<T>(a: seq<T>, b: seq<T>, c: seq<T>)
    ensures a + (b + c) == a + b + c
  {
  }

  // ----- the spine of a whole or open expression -----

  lemma {:induction false} WholeAt<A>(t: Tree<A>, depth: nat)
    requires t.Whole() && t.OnSpine(depth)
    ensures t.At(depth).Whole()
  {
    if depth > 0 {
      WholeAt(t.Last(), depth - 1);
    }
  }

  lemma {:induction false} OpenAt<A>(t: Tree<A>, depth: nat)
    requires t.Open() && t.OnSpine(depth)
    ensures t.At(depth).Open()
  {
    if depth > 0 {
      OpenAt(t.Last(), depth - 1);
    }
  }

  /** What a rewrite at some depth of the spine leaves behind. */
  lemma {:induction false} PutShape<A>(t: Tree<A>, depth: nat, u: Tree<A>)
    requires t.OnSpine(depth) && (t.Whole() || t.Open())
    ensures t.Put(depth, u).OnSpine(depth) && t.Put(depth, u).At(depth) == u
    ensures u.Whole() ==> t.Put(depth, u).Whole()
    ensures u.Open() ==> t.Put(depth, u).Open()
    ensures u.Node? ==> t.Put(depth, u).Node?
  {
    if depth > 0 {
      PutShape(t.Last(), depth - 1, u);
    }
  }

  lemma {:induction false} SpineSum<A>(t: Tree<A>, depth: nat, more: nat)
    requires t.OnSpine(depth)
    ensures t.At(depth).OnSpine(more) <==> t.OnSpine(depth + more)
    ensures t.OnSpine(depth + more) ==> t.At(depth).At(more) == t.At(depth + more)
  {
    if depth > 0 {
      SpineSum(t.Last(), depth - 1, more);
    }
  }

  /** A rewrite leaves the nodes above it where they were. */
  lemma {:induction false} PutAbove<A>(t: Tree<A>, above: nat, depth: nat, u: Tree<A>)
    requires above <= depth && t.OnSpine(depth)
    ensures t.OnSpine(above) && t.At(above).OnSpine(depth - above)
    ensures t.Put(depth, u).OnSpine(above)
    ensures t.Put(depth, u).At(above) == t.At(above).Put(depth - above, u)
  {
    if above > 0 {
      PutAbove(t.Last(), above - 1, depth - 1, u);
    }
  }
}
