/** What the grammar hands the rules while an expression is read. */
module Inputs {
  import opened Operators
  import opened Located
  import P = Pratt
  import R = Reference

  /** An operator, or an operand already read. */
  datatype Input<I, A> = Sign(op: Op) | Read(term: Term<I, A>)

  /** The token an input stands for, an operand's nodes laid out as given. */
  ghost function TokenOf<I, A>(input: Input<I, A>, shape: Layout<I, A>): Token<A> {
    if input.Sign? then Operator(input.op) else Operand(shape.Erase())
  }

  /** An operand's layout is headed by its term; an operator has none. */
  predicate Fits<I(==), A(==)>(input: Input<I, A>, shape: Layout<I, A>) {
    if input.Sign? then shape.Spot? else shape.Top() == input.term
  }

  ghost function Tokens<I, A>(inputs: seq<Input<I, A>>, shapes: seq<Layout<I, A>>): (r: seq<Token<A>>)
    requires |shapes| == |inputs|
    ensures |r| == |inputs|
  {
    seq(|inputs|, k requires 0 <= k < |inputs| => TokenOf(inputs[k], shapes[k]))
  }

  ghost function AllIds<I, A>(shapes: seq<Layout<I, A>>): set<I> {
    if shapes == [] then {} else shapes[0].Ids() + AllIds(shapes[1..])
  }

  lemma TokensRest<I, A>(inputs: seq<Input<I, A>>, shapes: seq<Layout<I, A>>, k: nat)
    requires |shapes| == |inputs| && k < |inputs|
    ensures inputs[k..][1..] == inputs[k + 1..] && shapes[k..][1..] == shapes[k + 1..]
    ensures Tokens(inputs[k..], shapes[k..])[1..] == Tokens(inputs[k + 1..], shapes[k + 1..])
    ensures Tokens(inputs[k..], shapes[k..])[0] == TokenOf(inputs[k], shapes[k])
  {
  }

  /** What a run builds means the same to the recursive parser, over any non-crossing table. */
  lemma MeansAsRead<A>(tokens: seq<Token<A>>)
    requires P.Phrase(tokens, true)
    ensures forall T: set<Op> :: R.Table(T) && R.NonCrossing(T) && R.Over(tokens, T) ==> P.Built(tokens) == R.Meaning(tokens)
  {
    forall T: set<Op> | R.Table(T) && R.NonCrossing(T) && R.Over(tokens, T)
      ensures P.Built(tokens) == R.Meaning(tokens)
    {
      R.BuiltIsMeaning(tokens, T);
    }
  }
}
