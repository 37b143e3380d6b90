/**
 The Rust rule actions over the arena, and a whole expression read by them:
 the handles the rules hold, the run they perform, and the size and depth
 of what they build.
 */
module ParseInArena {
  import opened Operators
  import opened Located
  import opened Arena
  import opened Inputs
  import P = Pratt
  import C = Canonical
  import R = Reference

  /** The layout makes up the run state, and the handles held are the spine nodes its depths say. */
  ghost predicate Linked<A>(l: Shape<A>, topDepth: nat, atDepth: nat, value: Value<A>, top: nat, at: nat) {
    && l.Top() == value
    && P.Valid(P.Run(l.Erase(), topDepth, atDepth)) && P.TopOpen(P.Run(l.Erase(), topDepth, atDepth))
    && (l.Cell? ==> l.Reaches(topDepth) && l.At(topDepth).Top() == Ref(top))
    && (l.Erase().Open() ==> l.Reaches(atDepth) && l.At(atDepth).Top() == Ref(at))
  }

  lemma LinkedPrefix<A>(l: Shape<A>, topDepth: nat, atDepth: nat, value: Value<A>, top: nat, at: nat, op: Op, l': Shape<A>, at': nat)
    requires Linked(l, topDepth, atDepth, value, top, at) && l.Cell?
    requires op.kind.Prefix? && P.Accepts(P.Run(l.Erase(), topDepth, atDepth), Operator(op))
    requires l'.Top() == l.Top() && l'.Erase() == l.Erase().Put(atDepth, P.Prattify(l.Erase().At(atDepth), op).0)
    requires l'.Reaches(atDepth) && l'.At(atDepth).Reaches(1) && l'.At(atDepth).At(1).Top() == Ref(at')
    requires l'.Reaches(topDepth) && l'.At(topDepth).Top() == l.At(topDepth).Top()
    ensures Linked(l', topDepth, atDepth + 1, value, top, at')
    ensures P.Run(l'.Erase(), topDepth, atDepth + 1) == P.Step(P.Run(l.Erase(), topDepth, atDepth), Operator(op))
  {
    P.StepValid(P.Run(l.Erase(), topDepth, atDepth), Operator(op));
    P.StepTopOpen(P.Run(l.Erase(), topDepth, atDepth), Operator(op));
    ReachesSum(l', atDepth, 1);
  }

  lemma LinkedInfix<A>(l: Shape<A>, topDepth: nat, atDepth: nat, value: Value<A>, top: nat, at: nat, op: Op, l': Shape<A>, out: nat)
    requires Linked(l, topDepth, atDepth, value, top, at) && l.Cell?
    requires op.kind.Infix? && P.Accepts(P.Run(l.Erase(), topDepth, atDepth), Operator(op))
    requires l'.Top() == l.Top() && l'.Erase() == P.Prattify(l.Erase(), op).0
    requires l'.Reaches(P.Prattify(l.Erase(), op).1) && l'.At(P.Prattify(l.Erase(), op).1).Top() == Ref(out)
    ensures var depth := P.Prattify(l.Erase(), op).1;
            && Linked(l', depth, depth, value, out, out)
            && P.Run(l'.Erase(), depth, depth) == P.Step(P.Run(l.Erase(), topDepth, atDepth), Operator(op))
  {
    P.StepValid(P.Run(l.Erase(), topDepth, atDepth), Operator(op));
    P.StepTopOpen(P.Run(l.Erase(), topDepth, atDepth), Operator(op));
  }

  /** What a step adds to an expression: ids that were not in the arena. */
  ghost predicate Gains<A>(before: Nodes<A>, old_: set<nat>, new_: set<nat>) {
    old_ <= new_ && (new_ - old_) !! before.Keys
  }

  /** Open a prefix at the attachment point. */
  method PrefixAt<A(!new)>(arena: Arena<A>, at: nat, op: Op, ghost l: Shape<A>, ghost topDepth: nat, ghost atDepth: nat,
                           ghost value: Value<A>, ghost top: nat)
    returns (attach: nat, ghost l': Shape<A>)
    requires arena.Valid() && Linked(l, topDepth, atDepth, value, top, at) && l.Cell? && Tracks(l, arena.nodes)
    requires op.kind.Prefix? && P.Accepts(P.Run(l.Erase(), topDepth, atDepth), Operator(op))
    modifies arena
    ensures arena.Valid() && Linked(l', topDepth, atDepth + 1, value, top, attach) && l'.Cell? && Tracks(l', arena.nodes)
    ensures Gains(old(arena.nodes), l.Ids(), l'.Ids()) && Spares(old(arena.nodes), arena.nodes, l.Ids())
    ensures P.Run(l'.Erase(), topDepth, atDepth + 1) == P.Step(P.Run(l.Erase(), topDepth, atDepth), Operator(op))
    ensures arena.overLimit == (old(arena.overLimit) || arena.Outgrown(l'.id))
    ensures l'.id == l.id && (old(arena.Outgrown(l.id)) ==> arena.Outgrown(l.id))
  {
    attach, l' := arena.PrattifyAt(at, op, l, atDepth, topDepth);
    LinkedPrefix(l, topDepth, atDepth, value, top, at, op, l', attach);
  }

  /** One arena's expression while the rules read it. */
  class ExprRules<A(0, !new)> {
    const arena: Arena<A>
    var root: Given<A>
    var top: nat
    var at: nat
    ghost var layout: Shape<A>
    ghost var topDepth: nat
    ghost var atDepth: nat

    ghost function State(): P.State<A>
      reads this
    {
      if root.Missing? then P.Start else P.Run(layout.Erase(), topDepth, atDepth)
    }

    /** The ids reachable from the root. */
    ghost function Footprint(): set<nat>
      reads this
    {
      if root.Missing? then {} else layout.Ids()
    }

    /** The expression read so far is over the limit. */
    ghost predicate Outgrown()
      reads this, arena
    {
      root.Given? && layout.Cell? && arena.Outgrown(layout.id)
    }

    /** The flag is up where it was up before or the expression is over the limit, which it stays. */
    ghost predicate FlaggedSince(flagged: bool, outgrown: bool)
      reads this, arena
    {
      arena.overLimit == (flagged || Outgrown()) && (outgrown ==> Outgrown())
    }

    ghost predicate Valid()
      reads this, arena
    {
      && arena.Valid()
      && (root.Given? ==>
            && Linked(layout, topDepth, atDepth, root.value, top, at)
            && (layout.Cell? ==> Tracks(layout, arena.nodes)))
    }

    constructor (arena: Arena<A>)
      requires arena.Valid()
      ensures this.arena == arena && Valid() && State() == P.Start && Footprint() == {}
    {
      this.arena := arena;
      root, top, at := Missing, 0, 0;
      topDepth, atDepth := 0, 0;
      layout := *;
    }

    /** Between any two tokens, the handles the rules hold lead to the whole expression. */
    lemma HandlesLeadToRoot()
      requires Valid() && root.Given? && layout.Cell?
      ensures top in arena.nodes && arena.nodes[top].root == layout.id
      ensures layout.Erase().Open() ==> at in arena.nodes && arena.nodes[at].root == layout.id
    {
      SpineRegion(layout, topDepth, layout.id, arena.nodes);
      if layout.Erase().Open() {
        SpineRegion(layout, atDepth, layout.id, arena.nodes);
      }
    }

    /** The first operator, over the value read so far if there is one. */
    method Prior(op: Op)
      requires Valid() && P.Accepts(State(), Operator(op)) && (root.Missing? || root.value.Atom?)
      modifies this, arena
      ensures Valid() && State() == P.Step(old(State()), Operator(op))
      ensures Gains(old(arena.nodes), old(Footprint()), Footprint()) && Spares(old(arena.nodes), arena.nodes, {})
      ensures FlaggedSince(old(arena.overLimit), old(Outgrown()))
    {
      P.StepValid(State(), Operator(op));
      P.StepTopOpen(State(), Operator(op));
      var id, l := arena.PriorExpr(op, root, layout);
      layout := l;
      root, top, at := Given(Ref(id)), id, id;
      topDepth, atDepth := 0, 0;
    }

    method Infix(op: Op)
      requires Valid() && op.kind.Infix? && P.Accepts(State(), Operator(op))
      modifies this, arena
      ensures Valid() && State() == P.Step(old(State()), Operator(op))
      ensures Gains(old(arena.nodes), old(Footprint()), Footprint()) && Spares(old(arena.nodes), arena.nodes, old(Footprint()))
      ensures FlaggedSince(old(arena.overLimit), old(Outgrown()))
    {
      if root.value.Atom? {
        Prior(op);
      } else {
        MoreInfix(op);
      }
    }

    /** The second and further infix operators go to the core at the root. */
    method MoreInfix(op: Op)
      requires Valid() && op.kind.Infix? && P.Accepts(State(), Operator(op)) && root.value.Ref?
      modifies this, arena
      ensures Valid() && root == old(root) && State() == P.Step(old(State()), Operator(op))
      ensures Gains(old(arena.nodes), old(layout.Ids()), layout.Ids()) && Spares(old(arena.nodes), arena.nodes, old(layout.Ids()))
      ensures FlaggedSince(old(arena.overLimit), old(Outgrown()))
    {
      ghost var depth := P.Prattify(layout.Erase(), op).1;
      var attach, l := arena.PrattifyAt(root.value.id, op, layout, 0, 0);
      LinkedInfix(layout, topDepth, atDepth, root.value, top, at, op, l, attach);
      layout, topDepth, atDepth := l, depth, depth;
      top, at := attach, attach;
    }

    method Prefix(op: Op)
      requires Valid() && op.kind.Prefix? && P.Accepts(State(), Operator(op))
      modifies this, arena
      ensures Valid() && State() == P.Step(old(State()), Operator(op))
      ensures Gains(old(arena.nodes), old(Footprint()), Footprint()) && Spares(old(arena.nodes), arena.nodes, old(Footprint()))
      ensures FlaggedSince(old(arena.overLimit), old(Outgrown()))
    {
      if root.Missing? {
        Prior(op);
      } else {
        OpenPrefix(op);
      }
    }

    /** A prefix opens where the next term goes. */
    method OpenPrefix(op: Op)
      requires Valid() && op.kind.Prefix? && P.Accepts(State(), Operator(op)) && root.Given?
      modifies this, arena
      ensures Valid() && root == old(root) && State() == P.Step(old(State()), Operator(op))
      ensures Gains(old(arena.nodes), old(layout.Ids()), layout.Ids()) && Spares(old(arena.nodes), arena.nodes, old(layout.Ids()))
      ensures FlaggedSince(old(arena.overLimit), old(Outgrown()))
    {
      var attach, l := PrefixAt(arena, at, op, layout, topDepth, atDepth, root.value, top);
      at, layout, atDepth := attach, l, atDepth + 1;
    }

    method Suffix(op: Op)
      requires Valid() && op.kind.Suffix? && P.Accepts(State(), Operator(op))
      modifies this, arena
      ensures Valid() && State() == P.Step(old(State()), Operator(op))
      ensures Gains(old(arena.nodes), old(Footprint()), Footprint()) && Spares(old(arena.nodes), arena.nodes, old(Footprint()))
      ensures FlaggedSince(old(arena.overLimit), old(Outgrown()))
    {
      if root.value.Atom? {
        Prior(op);
      } else {
        P.StepValid(State(), Operator(op));
        P.StepTopOpen(State(), Operator(op));
        WholeAt(layout.Erase(), topDepth);
        var _, l := arena.PrattifyAt(top, op, layout, topDepth, topDepth);
        layout, atDepth := l, topDepth;
        at := top;
      }
    }

    /** The operand's rule closes. */
    method Operand(value: Value<A>, ghost x: Shape<A>)
      requires Valid() && x.Top() == value && FinishedIn(x, arena.nodes, false) && x.Ids() !! Footprint()
      requires P.Accepts(State(), Operators.Operand(x.Erase()))
      modifies this, arena
      ensures Valid() && State() == P.Step(old(State()), Operators.Operand(x.Erase()))
      ensures Footprint() == old(Footprint()) + x.Ids() && Spares(old(arena.nodes), arena.nodes, old(Footprint()))
      ensures FlaggedSince(old(arena.overLimit), old(Outgrown()))
    {
      P.StepValid(State(), Operators.Operand(x.Erase()));
      P.StepTopOpen(State(), Operators.Operand(x.Erase()));
      if root.Missing? {
        root, layout := Given(value), x;
        topDepth, atDepth := 0, 0;
        if value.Ref? {
          top := value.id;
        }
      } else {
        var l := arena.PushAt(at, value, layout, atDepth, topDepth, x);
        layout := l;
      }
    }
  }

  // ----- a whole expression -----

  type Input<A> = Inputs.Input<nat, A>

  /** The operands are finished expressions of the arena that share no node; an operator has no shape. */
  ghost predicate Laid<A>(inputs: seq<Input<A>>, shapes: seq<Shape<A>>, nodes: Nodes<A>)
    requires |shapes| == |inputs|
    decreases |inputs|
  {
    inputs != [] ==>
      && FinishedIn(shapes[0], nodes, false) && shapes[0].Ids() !! AllIds(shapes[1..])
      && Fits(inputs[0], shapes[0]) && Laid(inputs[1..], shapes[1..], nodes)
  }

  lemma {:induction false} LaidIds<A>(inputs: seq<Input<A>>, shapes: seq<Shape<A>>, nodes: Nodes<A>)
    requires |shapes| == |inputs| && Laid(inputs, shapes, nodes)
    ensures AllIds(shapes) <= nodes.Keys
    decreases |inputs|
  {
    if inputs != [] {
      StoredIds(shapes[0], nodes);
      LaidIds(inputs[1..], shapes[1..], nodes);
    }
  }

  /** A step elsewhere leaves the operands still to come as they were laid out. */
  lemma {:induction false} LaidSpared<A(!new)>(inputs: seq<Input<A>>, shapes: seq<Shape<A>>, before: Nodes<A>, after: Nodes<A>, ids: set<nat>)
    requires |shapes| == |inputs| && Laid(inputs, shapes, before) && Spares(before, after, ids) && AllIds(shapes) !! ids
    ensures Laid(inputs, shapes, after)
    decreases |inputs|
  {
    if inputs != [] {
      LaidSpared(inputs[1..], shapes[1..], before, after, ids);
    }
  }

  /** One input, handed to the rule that takes it. */
  method Take<A(0, !new)>(rules: ExprRules<A>, input: Input<A>, ghost shape: Shape<A>)
    requires rules.Valid() && FinishedIn(shape, rules.arena.nodes, false) && shape.Ids() !! rules.Footprint()
    requires Fits(input, shape) && P.Accepts(rules.State(), TokenOf(input, shape))
    modifies rules, rules.arena
    ensures rules.Valid() && rules.State() == P.Step(old(rules.State()), TokenOf(input, shape))
    ensures Gains(old(rules.arena.nodes), old(rules.Footprint()) + shape.Ids(), rules.Footprint() + shape.Ids())
    ensures Spares(old(rules.arena.nodes), rules.arena.nodes, old(rules.Footprint()))
    ensures rules.FlaggedSince(old(rules.arena.overLimit), old(rules.Outgrown()))
  {
    if input.Read? {
      rules.Operand(input.term, shape);
    } else if input.op.kind.Prefix? {
      rules.Prefix(input.op);
    } else if input.op.kind.Infix? {
      rules.Infix(input.op);
    } else {
      rules.Suffix(input.op);
    }
  }

  /** The rules stand before inputs that lie in the arena as laid out, apart from what the rules hold. */
  ghost predicate Before<A(0, !new)>(rules: ExprRules<A>, inputs: seq<Input<A>>, shapes: seq<Shape<A>>)
    requires |shapes| == |inputs|
    reads rules, rules.arena
  {
    && rules.Valid() && P.Valid(rules.State())
    && rules.Footprint() !! AllIds(shapes) && Laid(inputs, shapes, rules.arena.nodes)
    && P.Phrase(Tokens(inputs, shapes), P.Wanting(rules.State()))
  }

  /** Take the first of the inputs that are left. */
  method TakeFirst<A(0, !new)>(rules: ExprRules<A>, inputs: seq<Input<A>>, ghost shapes: seq<Shape<A>>)
    requires |shapes| == |inputs| && inputs != [] && Before(rules, inputs, shapes)
    modifies rules, rules.arena
    ensures Before(rules, inputs[1..], shapes[1..])
    ensures P.RunFrom(rules.State(), Tokens(inputs[1..], shapes[1..])) == P.RunFrom(old(rules.State()), Tokens(inputs, shapes))
    ensures forall n | n in rules.Footprint() :: n in old(rules.Footprint()) || n in AllIds(shapes) || n !in old(rules.arena.nodes)
    ensures Spares(old(rules.arena.nodes), rules.arena.nodes, old(rules.Footprint()))
    ensures rules.FlaggedSince(old(rules.arena.overLimit), old(rules.Outgrown()))
  {
    ghost var before := rules.arena.nodes;
    LaidIds(inputs, shapes, before);
    TokensRest(inputs, shapes, 0);
    assert inputs[0..] == inputs && shapes[0..] == shapes;
    P.StepValid(rules.State(), Tokens(inputs, shapes)[0]);
    ghost var footprint := rules.Footprint();
    Take(rules, inputs[0], shapes[0]);
    LaidSpared(inputs[1..], shapes[1..], before, rules.arena.nodes, footprint);
  }

  /** Take every input in turn. */
  method TakeAll<A(0, !new)>(rules: ExprRules<A>, inputs: seq<Input<A>>, ghost shapes: seq<Shape<A>>)
    requires |shapes| == |inputs| && Before(rules, inputs, shapes)
    modifies rules, rules.arena
    ensures rules.Valid() && rules.State() == P.RunFrom(old(rules.State()), Tokens(inputs, shapes))
    ensures forall n | n in rules.Footprint() :: n in old(rules.Footprint()) || n in AllIds(shapes) || n !in old(rules.arena.nodes)
    ensures rules.FlaggedSince(old(rules.arena.overLimit), old(rules.Outgrown()))
  {
    assert inputs[0..] == inputs && shapes[0..] == shapes;
    ghost var known := rules.Footprint() + AllIds(shapes);
    for k := 0 to |inputs|
      invariant Before(rules, inputs[k..], shapes[k..])
      invariant AllIds(shapes[k..]) <= known && forall n | n in rules.Footprint() :: n in known || n !in old(rules.arena.nodes)
      invariant old(rules.arena.nodes).Keys <= rules.arena.nodes.Keys
      invariant rules.FlaggedSince(old(rules.arena.overLimit), old(rules.Outgrown()))
      invariant P.RunFrom(old(rules.State()), Tokens(inputs, shapes)) == P.RunFrom(rules.State(), Tokens(inputs[k..], shapes[k..]))
    {
      TokensRest(inputs, shapes, k);
      TakeFirst(rules, inputs[k..], shapes[k..]);
    }
  }

  // ----- how large an expression over values grows -----

  ghost function OperatorsIn<A>(tokens: seq<Token<A>>): nat {
    if tokens == [] then 0 else (if tokens[0].Operator? then 1 else 0) + OperatorsIn(tokens[1..])
  }

  ghost predicate ValuesOnly<A>(tokens: seq<Token<A>>) {
    forall k | 0 <= k < |tokens| && tokens[k].Operand? :: tokens[k].tree.Leaf?
  }

  lemma {:induction false} OperatorsConcat<A>(a: seq<Token<A>>, b: seq<Token<A>>)
    ensures OperatorsIn(a + b) == OperatorsIn(a) + OperatorsIn(b)
    ensures ValuesOnly(a + b) ==> ValuesOnly(a) && ValuesOnly(b)
    decreases |a|
  {
    if a == [] {
      assert a + b == b;
    } else {
      assert (a + b)[1..] == a[1..] + b;
      OperatorsConcat(a[1..], b);
      assert forall k | 0 <= k < |a + b| :: (a + b)[k] == if k < |a| then a[k] else b[k - |a|];
      if ValuesOnly(a + b) {
        assert forall k | 0 <= k < |b| :: b[k] == (a + b)[|a| + k];
      }
    }
  }

  lemma OperatorsAround<A>(before: seq<Token<A>>, op: Op, after: seq<Token<A>>)
    ensures OperatorsIn(before + [Operator(op)] + after) == OperatorsIn(before) + 1 + OperatorsIn(after)
    ensures ValuesOnly(before + [Operator(op)] + after) ==> ValuesOnly(before) && ValuesOnly(after)
  {
    OperatorsConcat(before, [Operator(op)]);
    OperatorsConcat(before + [Operator(op)], after);
  }

  /** Over values, an expression has as many nodes as operators were read. */
  lemma {:induction false} SizeIsOperators<A>(t: Tree<A>)
    requires t.Whole() && ValuesOnly(Reading(t))
    ensures LeavesOnly(t) && Size(t) == OperatorsIn(Reading(t))
    decreases t
  {
    if t.Finished() {
      assert Reading(t)[0] == Operand(t);
    } else if t.op.kind.Infix? {
      C.InfixReading(t);
      OperatorsAround(Reading(t.terms[0]), t.op, Reading(t.terms[1]));
      SizeIsOperators(t.terms[0]);
      SizeIsOperators(t.terms[1]);
      SizeWith(Node(t.op, []), t.terms[0]);
      assert [] + [t.terms[0]] == [t.terms[0]];
      SizeWith(Node(t.op, [t.terms[0]]), t.terms[1]);
      assert [t.terms[0]] + [t.terms[1]] == t.terms && t == Node(t.op, t.terms);
    } else {
      if t.op.kind.Prefix? {
        C.PrefixReading(t);
        OperatorsAround([], t.op, Reading(t.terms[0]));
        assert [] + [Operator(t.op)] + Reading(t.terms[0]) == Reading(t);
      } else {
        C.SuffixReading(t);
        OperatorsAround(Reading(t.terms[0]), t.op, []);
        assert Reading(t.terms[0]) + [Operator(t.op)] + [] == Reading(t);
      }
      SizeWith(Node(t.op, []), t.terms[0]);
      assert [] + [t.terms[0]] == t.terms && t == Node(t.op, t.terms);
      SizeIsOperators(t.terms[0]);
    }
  }

  /**
   Read a whole expression: the handles make up what the run on values
   builds, every one of them leads to its root, and while the flag is clear
   it nests no deeper than the limit. The flag goes up exactly where the
   expression outgrows the limit, which over values is where there are more
   operators than that.
   */
  method ReadExpression<A(0, !new)>(arena: Arena<A>, inputs: seq<Input<A>>, ghost shapes: seq<Shape<A>>) returns (rules: ExprRules<A>)
    requires arena.Valid() && |shapes| == |inputs| && Laid(inputs, shapes, arena.nodes) && P.Phrase(Tokens(inputs, shapes), true)
    modifies arena
    ensures fresh(rules) && rules.arena == arena && rules.Valid() && rules.root.Given?
    ensures rules.layout.Cell? ==> Tracks(rules.layout, arena.nodes)
    ensures arena.overLimit <==> old(arena.overLimit) || (rules.layout.Cell? && arena.nodes[rules.layout.id].size > 127)
    ensures ValuesOnly(Tokens(inputs, shapes)) ==>
              (arena.overLimit <==> old(arena.overLimit) || OperatorsIn(Tokens(inputs, shapes)) > 127)
    ensures rules.layout.Erase() == P.Built(Tokens(inputs, shapes))
    ensures forall T: set<Op> :: R.Table(T) && R.NonCrossing(T) && R.Over(Tokens(inputs, shapes), T) ==>
              rules.layout.Erase() == R.Meaning(Tokens(inputs, shapes))
    ensures forall n | n in rules.layout.Ids() :: n in AllIds(shapes) || n !in old(arena.nodes)
    ensures !arena.overLimit ==> Depth(rules.layout.Erase()) <= Size(rules.layout.Erase()) <= 127
  {
    rules := new ExprRules(arena);
    TakeAll(rules, inputs, shapes);
    P.RunIsWhole(P.Start, Tokens(inputs, shapes));
    MeansAsRead(Tokens(inputs, shapes));
    P.BuiltReading(Tokens(inputs, shapes));
    if ValuesOnly(Tokens(inputs, shapes)) {
      SizeIsOperators(rules.layout.Erase());
    }
    if rules.layout.Cell? {
      if !arena.overLimit {
        arena.DepthBounded(rules.layout);
      }
    }
  }
}
