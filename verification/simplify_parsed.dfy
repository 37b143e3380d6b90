/** From tokens to the S-expression: what simplifying gives of an expression the rules have read into the arena. */
module SimplifyParsed {
  import opened Operators
  import opened Located
  import A = Arena
  import F = ParsedForms
  import I = Inputs
  import P = Pratt
  import R = Reference
  import Rules = ParseInArena
  import Z = Realize

  type Nodes = A.Nodes<Z.Value>

  /** What an operator's description holds after its source. */
  type Details = Op -> seq<Z.Field>

  // ----- the arena as the walks see it -----

  function AsValue(term: A.Value<Z.Value>): Z.Value {
    match term
    case Atom(x) => x
    case Ref(id) => Z.Handle(id)
  }

  function AsValues(terms: seq<A.Value<Z.Value>>): seq<Z.Value> {
    seq(|terms|, k requires 0 <= k < |terms| => AsValue(terms[k]))
  }

  function AsOperator(op: Op, details: Details): Z.Operator {
    Z.Operator(op.src, details(op))
  }

  function AsArena(nodes: Nodes, details: Details): Z.Arena {
    map id | id in nodes :: Z.Node(Z.Some(AsOperator(nodes[id].op, details)), AsValues(nodes[id].terms))
  }

  // ----- the S-expression of a tree -----

  /** A value that was read, and holds nothing. */
  ghost predicate Values(t: Tree<Z.Value>) {
    match t
    case Leaf(x) => F.IsPlain(x) && !x.Undefined?
    case Node(_, terms) => forall k | 0 <= k < |terms| :: Values(terms[k])
  }

  /** The operator's source, then its terms in order. */
  function SExpr(t: Tree<Z.Value>): Z.Value {
    match t
    case Leaf(Text(s)) => Z.Str(s)
    case Leaf(x) => x
    case Node(op, terms) => Z.Array([Z.Str(op.src)] + seq(|terms|, k requires 0 <= k < |terms| => SExpr(terms[k])))
  }

  function Document(t: Tree<Z.Value>, details: Details): F.Parsed {
    match t
    case Leaf(x) => F.Plain(x)
    case Node(op, terms) =>
      F.Operation(Z.Some(AsOperator(op, details)), seq(|terms|, k requires 0 <= k < |terms| => Document(terms[k], details)))
  }

  lemma {:induction false} FormOfTree(t: Tree<Z.Value>, details: Details)
    requires Values(t)
    ensures F.SForm(Document(t, details)) == SExpr(t) && !SExpr(t).Undefined?
    decreases t
  {
    if t.Node? {
      var terms := seq(|t.terms|, k requires 0 <= k < |t.terms| => Document(t.terms[k], details));
      forall k | 0 <= k < |t.terms|
        ensures F.SForms(terms)[k] == SExpr(t.terms[k]) && !SExpr(t.terms[k]).Undefined?
      {
        FormOfTree(t.terms[k], details);
      }
      F.FilledAll(F.SForms(terms));
      assert F.SForms(terms) == seq(|t.terms|, k requires 0 <= k < |t.terms| => SExpr(t.terms[k]));
    }
  }

  /** An expression whose nodes are apart, and none of them open, stands for its tree. */
  lemma {:induction false} StoredDocument(l: A.Shape<Z.Value>, nodes: Nodes, details: Details, open: seq<nat>)
    requires A.Stored(l, nodes) && Values(l.Erase()) && l.Apart() && forall id | id in l.Ids() :: id !in open
    ensures F.Stores(AsArena(nodes, details), AsValue(l.Top()), open, Document(l.Erase(), details))
    decreases l
  {
    if l.Cell? {
      EraseShape(l);
      assert l.id in l.Ids();
      forall k | 0 <= k < |l.kids|
        ensures F.Stores(AsArena(nodes, details), AsValue(l.kids[k].Top()), open + [l.id], Document(l.kids[k].Erase(), details))
      {
        assert l.Erase().terms[k] == l.kids[k].Erase();
        assert forall id | id in l.kids[k].Ids() :: id in l.KidIds();
        StoredDocument(l.kids[k], nodes, details, open + [l.id]);
      }
      assert nodes[l.id].terms == l.Tops();
    }
  }

  /** Simplifying an expression in the arena gives the S-expression of its tree. */
  lemma SimplifiedIsSExpr(l: A.Shape<Z.Value>, nodes: Nodes, details: Details)
    requires A.Stored(l, nodes) && Values(l.Erase()) && l.Apart() && Z.Live(AsArena(nodes, details), Z.Handles(AsValue(l.Top())))
    ensures Z.Simplified(AsArena(nodes, details), AsValue(l.Top()), []) == SExpr(l.Erase())
  {
    StoredDocument(l, nodes, details, []);
    F.EveryForm(AsArena(nodes, details), AsValue(l.Top()), Document(l.Erase(), details));
    FormOfTree(l.Erase(), details);
  }

  // ----- after a whole expression is read -----

  /** Every value in the arena was read as one, and holds nothing. */
  ghost predicate PlainAtoms(nodes: Nodes) {
    forall id, k | id in nodes && 0 <= k < |nodes[id].terms| && nodes[id].terms[k].Atom? :: F.IsPlain(nodes[id].terms[k].atom)
  }

  lemma {:induction false} HandlesHeld(nodes: Nodes, terms: seq<A.Value<Z.Value>>)
    requires A.HeldBy(nodes, terms) && forall k | 0 <= k < |terms| && terms[k].Atom? :: F.IsPlain(terms[k].atom)
    ensures Z.HandlesIn(AsValues(terms)) <= nodes.Keys
    decreases |terms|
  {
    if terms != [] {
      assert AsValues(terms)[1..] == AsValues(terms[1..]);
      HandlesHeld(nodes, terms[1..]);
    }
  }

  lemma ArenaIsLive(nodes: Nodes, details: Details, handles: set<nat>)
    requires A.TermsHeld(nodes) && PlainAtoms(nodes) && handles <= nodes.Keys
    ensures Z.Live(AsArena(nodes, details), handles)
  {
    forall id | id in nodes
      ensures Z.HandlesIn(AsArena(nodes, details)[id].terms) <= nodes.Keys
    {
      assert A.HeldBy(nodes, nodes[id].terms);
      HandlesHeld(nodes, nodes[id].terms);
    }
  }

  /**
   What the rules have read simplifies to the S-expression of the tree the
   run builds, and so of the one the recursive parser builds, for every
   table that is non-crossing.
   */
  lemma ParsedSimplifies(rules: Rules.ExprRules<Z.Value>, details: Details, tokens: seq<Token<Z.Value>>)
    requires rules.Valid() && rules.root.Given? && rules.layout.Cell? && PlainAtoms(rules.arena.nodes)
    requires P.Phrase(tokens, true) && rules.layout.Erase() == P.Built(tokens) && Values(P.Built(tokens))
    ensures var arena := AsArena(rules.arena.nodes, details);
            && Z.Live(arena, Z.Handles(AsValue(rules.root.value)))
            && Z.Simplified(arena, AsValue(rules.root.value), []) == SExpr(P.Built(tokens))
    ensures forall T: set<Op> :: R.Table(T) && R.NonCrossing(T) && R.Over(tokens, T) ==> P.Built(tokens) == R.Meaning(tokens)
  {
    ArenaIsLive(rules.arena.nodes, details, {rules.layout.id});
    SimplifiedIsSExpr(rules.layout, rules.arena.nodes, details);
    I.MeansAsRead(tokens);
  }
}
