/** A whole expression read by the rule actions over shared arrays, operands of nodes of their own included. */
module ParseInPlace {
  import opened Operators
  import opened Located
  import opened SharedArrays
  import opened Rules
  import opened Inputs
  import P = Pratt
  import R = Reference

  type Input<A> = Inputs.Input<ExprNode<A>, A>

  /** The operands lie in memory as their shapes say, and share no node; an operator has no shape. */
  ghost predicate Laid<A>(inputs: seq<Input<A>>, shapes: seq<Shape<A>>)
    requires |shapes| == |inputs|
    reads AllIds(shapes)
    decreases |inputs|
  {
    inputs != [] ==>
      && InPlace(shapes[0]) && shapes[0].Ids() !! AllIds(shapes[1..])
      && Fits(inputs[0], shapes[0])
      && Laid(inputs[1..], shapes[1..])
  }

  lemma {:induction false} AllExist<A>(shapes: seq<Shape<A>>)
    ensures forall n | n in AllIds(shapes) :: allocated(n)
    decreases |shapes|
  {
    if shapes != [] {
      Exist(shapes[0]);
      AllExist(shapes[1..]);
    }
  }

  /** One input, handed to the rule that takes it. */
  method Take<A(0)>(rules: ExprRules<A>, input: Input<A>, ghost shape: Shape<A>)
    requires rules.Valid() && InPlace(shape) && shape.Ids() !! rules.Footprint()
    requires Fits(input, shape)
    requires P.Accepts(rules.State(), TokenOf(input, shape))
    modifies rules, rules.Footprint()
    ensures rules.Valid()
    ensures rules.State() == P.Step(old(rules.State()), TokenOf(input, shape))
    ensures fresh(rules.Footprint() - old(rules.Footprint()) - shape.Ids())
  {
    if input.Read? {
      rules.Operand(input.term, shape);
    } else if input.op.kind.Prefix? {
      rules.Prefix(input.op);
    } else if input.op.kind.Infix? {
      rules.Infix(input.op);
    } else {
      rules.Suffix(input.op);
    }
  }

  /** The rules stand before the k-th input: what is to come is as it was laid out, apart from what they hold. */
  ghost predicate Before<A(0)>(rules: ExprRules<A>, inputs: seq<Input<A>>, shapes: seq<Shape<A>>)
    requires |shapes| == |inputs|
    reads rules, rules.Footprint(), AllIds(shapes)
  {
    && rules.Valid() && P.Valid(rules.State())
    && rules.Footprint() !! AllIds(shapes) && Laid(inputs, shapes)
    && P.Phrase(Tokens(inputs, shapes), P.Wanting(rules.State()))
  }

  /** Take the first of the inputs that are left. */
  method TakeFirst<A(0)>(rules: ExprRules<A>, inputs: seq<Input<A>>, ghost shapes: seq<Shape<A>>)
    requires |shapes| == |inputs| && inputs != [] && Before(rules, inputs, shapes)
    modifies rules, rules.Footprint()
    ensures Before(rules, inputs[1..], shapes[1..])
    ensures P.RunFrom(rules.State(), Tokens(inputs[1..], shapes[1..])) == P.RunFrom(old(rules.State()), Tokens(inputs, shapes))
    ensures forall n | n in rules.Footprint() :: n in old(rules.Footprint()) || n in AllIds(shapes) || fresh(n)
  {
    AllExist(shapes);
    TokensRest(inputs, shapes, 0);
    assert inputs[0..] == inputs && shapes[0..] == shapes;
    P.StepValid(rules.State(), Tokens(inputs, shapes)[0]);
    Take(rules, inputs[0], shapes[0]);
  }

  /** Take every input in turn. */
  method TakeAll<A(0)>(rules: ExprRules<A>, inputs: seq<Input<A>>, ghost shapes: seq<Shape<A>>)
    requires |shapes| == |inputs| && Before(rules, inputs, shapes)
    modifies rules, rules.Footprint(), AllIds(shapes)
    ensures rules.Valid()
    ensures rules.State() == P.RunFrom(old(rules.State()), Tokens(inputs, shapes))
    ensures forall n | n in rules.Footprint() :: n in old(rules.Footprint()) || n in AllIds(shapes) || fresh(n)
  {
    assert inputs[0..] == inputs && shapes[0..] == shapes;
    ghost var known := rules.Footprint() + AllIds(shapes);
    for k := 0 to |inputs|
      invariant Before(rules, inputs[k..], shapes[k..])
      invariant AllIds(shapes[k..]) <= known && forall n | n in rules.Footprint() :: n in known || fresh(n)
      invariant P.RunFrom(old(rules.State()), Tokens(inputs, shapes)) == P.RunFrom(rules.State(), Tokens(inputs[k..], shapes[k..]))
    {
      TokensRest(inputs, shapes, k);
      TakeFirst(rules, inputs[k..], shapes[k..]);
    }
  }

  /** Read a whole expression: what the nodes make up is what the run on values builds. */
  method ReadExpression<A(0)>(inputs: seq<Input<A>>, ghost shapes: seq<Shape<A>>) returns (rules: ExprRules<A>)
    requires |shapes| == |inputs| && Laid(inputs, shapes) && P.Phrase(Tokens(inputs, shapes), true)
    modifies AllIds(shapes)
    ensures fresh(rules) && rules.Valid() && rules.root.Something?
    ensures InPlace(rules.layout) && forall n | n in rules.layout.Ids() :: n in AllIds(shapes) || fresh(n)
    ensures rules.layout.Erase() == P.Built(Tokens(inputs, shapes))
    ensures forall T: set<Op> :: R.Table(T) && R.NonCrossing(T) && R.Over(Tokens(inputs, shapes), T) ==>
              rules.layout.Erase() == R.Meaning(Tokens(inputs, shapes))
  {
    AllExist(shapes);
    rules := new ExprRules();
    assert Laid(inputs, shapes);
    TakeAll(rules, inputs, shapes);
    P.RunIsWhole(P.Start, Tokens(inputs, shapes));
    MeansAsRead(Tokens(inputs, shapes));
  }
}
