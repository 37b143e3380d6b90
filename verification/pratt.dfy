/**
 The Pratt core on values: inserting one operator into a partly built
 expression, and a whole run of operators and operands driven the way the
 `expr` rule actions drive it.
 */
module Pratt {
  import opened Operators

  /** What the algorithm expects of the node it is applied to. */
  ghost predicate Applicable<A>(t: Tree<A>, op: Op) {
    && t.Node? && op.WellPowered()
    && match op.kind
       case Prefix => t.op.Spine() && t.op.WellPowered() && |t.terms| == t.op.Terms() - 1
                      && forall k | 0 <= k < |t.terms| :: t.terms[k].Whole()
       case Infix => t.Whole()
       case Suffix => t.Whole()
       case _ => false
  }

  /** The rewritten expression, and how far down its spine the returned attachment point is. */
  ghost function Prattify<A>(t: Tree<A>, op: Op): (r: (Tree<A>, nat))
    requires Applicable(t, op)
    ensures op.Spine() ==> r.0.Open() && r.0.OnSpine(r.1) && r.0.At(r.1).Node?
                           && r.0.At(r.1).op == op && |r.0.At(r.1).terms| == op.Terms() - 1
    ensures op.kind.Suffix? ==> r.0.Whole() && r.0.Node? && r.1 == 0
    decreases t
  {
    if op.kind.Infix? then
      if t.op.kind.Suffix? || op.left <= t.op.right then
        (Node(op, [t]), 0)
      else if t.Last().Node? && t.Last().op.right < op.left then
        var (inner, depth) := Prattify(t.Last(), op);
        (t.WithLast(inner), depth + 1)
      else
        (t.WithLast(Node(op, [t.Last()])), 1)
    else if op.kind.Prefix? then
      (Node(t.op, t.terms + [Node(op, [])]), 1)
    else if !t.op.kind.Suffix? && t.op.right <= op.left then
      if t.Last().Node? && t.Last().op.kind.Prefix? && t.Last().op.right < op.left then
        (t.WithLast(Prattify(t.Last(), op).0), 0)
      else
        (t.WithLast(Node(op, [t.Last()])), 0)
    else
      (Node(op, [t]), 0)
  }

  /** An infix operator goes into a last term it binds tighter than on both levels. */
  lemma PrattifyDrills<A>(t: Tree<A>, op: Op)
    requires Applicable(t, op) && op.kind.Infix? && !t.op.kind.Suffix? && t.op.right < op.left
    requires t.terms != [] && t.Last().Node? && t.Last().op.right < op.left
    ensures Applicable(t.Last(), op)
    ensures Prattify(t, op) == (t.WithLast(Prattify(t.Last(), op).0), Prattify(t.Last(), op).1 + 1)
  {
  }

  /** One insertion appends exactly the operator to the reading: nothing is lost or reordered. */
  lemma {:induction false} PrattifyReading<A>(t: Tree<A>, op: Op)
    requires Applicable(t, op)
    ensures Reading(Prattify(t, op).0) == Reading(t) + [Operator(op)]
    decreases t
  {
    var r := Prattify(t, op).0;
    if op.kind.Prefix? {
      ReadingWithTerm(t, Node(op, []));
    } else if r == Node(op, [t]) {
      WrapReading(t, op);
    } else {
      var inner := r.Last();
      if inner == Node(op, [t.Last()]) {
        WrapReading(t.Last(), op);
      } else {
        PrattifyReading(t.Last(), op);
      }
      LastReading(t, inner, op);
    }
  }

  lemma WrapReading<A>(t: Tree<A>, op: Op)
    requires op.kind.Infix? || op.kind.Suffix?
    ensures Reading(Node(op, [t])) == Reading(t) + [Operator(op)]
  {
    assert ReadingFrom(Node(op, [t]), 1) == [];
  }

  lemma LastReading<A>(t: Tree<A>, inner: Tree<A>, op: Op)
    requires t.Node? && t.op.Spine() && |t.terms| == t.op.Terms() && Reading(inner) == Reading(t.Last()) + [Operator(op)]
    ensures Reading(t.WithLast(inner)) == Reading(t) + [Operator(op)]
  {
    var r := t.WithLast(inner);
    ReadingSplit(t);
    ReadingSplit(r);
    assert Lead(r) == Lead(t);
  }

  // ----- a run -----

  /**
   What the rules hold between two tokens: nothing yet, or the root
   expression with the depth of the node the last infix operator (or the
   first term) left its rule holding, where a suffix is applied, and the
   depth of the attachment point, where the next prefix or operand goes.
   */
  datatype State<A> = Start | Run(root: Tree<A>, top: nat, at: nat)

  ghost predicate Valid<A>(s: State<A>) {
    s.Run? ==>
      && (s.root.Whole() || s.root.Open())
      && s.root.OnSpine(s.top)
      && (s.root.Node? ==> s.root.At(s.top).Node?)
      && (s.root.Open() ==> s.top <= s.at && s.root.OnSpine(s.at) && Slot(s.root.At(s.at)))
  }

  /** A node whose next filled slot is its last. */
  ghost predicate Slot<A>(t: Tree<A>) {
    && t.Node? && t.op.Spine() && t.op.WellPowered() && |t.terms| == t.op.Terms() - 1
    && forall k | 0 <= k < |t.terms| :: t.terms[k].Whole()
  }

  /** The tokens the grammar lets through in a state. */
  ghost predicate Accepts<A>(s: State<A>, token: Token<A>) {
    match token
    case Operand(x) => x.Finished() && x.Whole() && (s.Start? || s.root.Open())
    case Operator(op) =>
      && op.WellPowered()
      && if op.kind.Prefix? then s.Start? || s.root.Open()
         else (op.kind.Infix? || op.kind.Suffix?) && s.Run? && s.root.Whole()
  }

  /** One rule action: a first term is wrapped by `prior`, anything later goes through `prattify` or a push. */
  ghost function Step<A>(s: State<A>, token: Token<A>): (r: State<A>)
    requires Valid(s) && Accepts(s, token)
  {
    match token
    case Operand(x) =>
      if s.Start? then
        Run(x, 0, 0)
      else
        var slot := s.root.At(s.at);
        Run(s.root.Put(s.at, Node(slot.op, slot.terms + [x])), s.top, s.at)
    case Operator(op) =>
      if s.Start? then
        Run(Node(op, []), 0, 0)
      else if s.root.Leaf? then
        Run(Node(op, [s.root]), 0, 0)
      else if op.kind.Prefix? then
        var (inner, depth) := Prattify(s.root.At(s.at), op);
        Run(s.root.Put(s.at, inner), s.top, s.at + depth)
      else if op.kind.Infix? then
        var (inner, depth) := Prattify(s.root, op);
        Run(inner, depth, depth)
      else
        WholeAt(s.root, s.top);
        Run(s.root.Put(s.top, Prattify(s.root.At(s.top), op).0), s.top, s.top)
  }

  lemma SlotIsOpen<A>(t: Tree<A>)
    requires Slot(t)
    ensures t.Open() && !t.Whole()
    ensures forall x: Tree<A> | x.Whole() :: Node(t.op, t.terms + [x]).Whole()
  {
    forall x: Tree<A> | x.Whole()
      ensures Node(t.op, t.terms + [x]).Whole()
    {
      var u := Node(t.op, t.terms + [x]);
      assert forall k | 0 <= k < |u.terms| :: u.terms[k] == if k < |t.terms| then t.terms[k] else x;
    }
  }

  lemma {:induction false} WholeIsNotOpen<A>(t: Tree<A>)
    requires t.Whole()
    ensures !t.Open()
  {
    if t.Node? && t.op.Spine() {
      WholeIsNotOpen(t.Last());
    }
  }

  /** Every step keeps the state valid, and leaves a slot open exactly after a prefix or an infix operator. */
  lemma StepValid<A>(s: State<A>, token: Token<A>)
    requires Valid(s) && Accepts(s, token)
    ensures Valid(Step(s, token)) && Step(s, token).Run?
    ensures Step(s, token).root.Open() <==> token.Operator? && token.op.Spine()
    ensures Step(s, token).root.Whole() <==> token.Operand? || token.op.kind.Suffix?
  {
    var s' := Step(s, token);
    match token
    case Operand(x) =>
      if s.Start? {
      } else {
        var slot := s.root.At(s.at);
        SlotIsOpen(slot);
        PutShape(s.root, s.at, Node(slot.op, slot.terms + [x]));
        PutAbove(s.root, s.top, s.at, Node(slot.op, slot.terms + [x]));
      }
      WholeIsNotOpen(s'.root);
    case Operator(op) =>
      if s.Start? || s.root.Leaf? {
        if op.Spine() { SlotIsOpen(s'.root); }
      } else if op.kind.Prefix? {
        var (inner, depth) := Prattify(s.root.At(s.at), op);
        PutShape(s.root, s.at, inner);
        PutAbove(s.root, s.top, s.at, inner);
        SpineSum(s'.root, s.at, depth);
        SlotIsOpen(inner.At(depth));
      } else if op.kind.Infix? {
        OpenAt(s'.root, s'.at);
      } else {
        WholeAt(s.root, s.top);
        PutShape(s.root, s.top, Prattify(s.root.At(s.top), op).0);
      }
      if s'.root.Whole() { WholeIsNotOpen(s'.root); }
  }

  /** The node a suffix goes to is a group only where it is the whole expression. */
  ghost predicate TopOpen<A>(s: State<A>)
    requires Valid(s)
  {
    s.Run? && s.root.Node? && s.root.At(s.top).op.Closed() ==> s.top == 0
  }

  /** Rewriting below a node, or at it under the same operator, leaves its operator. */
  lemma PutOperator<A>(t: Tree<A>, above: nat, depth: nat, u: Tree<A>)
    requires above <= depth && t.OnSpine(depth) && u.Node? && t.At(depth).Node? && u.op == t.At(depth).op
    ensures t.OnSpine(above) && t.At(above).Node?
    ensures t.Put(depth, u).OnSpine(above) && t.Put(depth, u).At(above).Node?
    ensures t.Put(depth, u).At(above).op == t.At(above).op
  {
    PutAbove(t, above, depth, u);
    SpineSum(t, above, depth - above);
  }

  lemma StepTopOpen<A>(s: State<A>, token: Token<A>)
    requires Valid(s) && Accepts(s, token) && TopOpen(s)
    ensures Valid(Step(s, token)) && TopOpen(Step(s, token))
  {
    StepValid(s, token);
    if s.Run? && s.root.Node? {
      match token
      case Operand(x) =>
        var slot := s.root.At(s.at);
        PutOperator(s.root, s.top, s.at, Node(slot.op, slot.terms + [x]));
      case Operator(op) =>
        if op.kind.Prefix? {
          PutOperator(s.root, s.top, s.at, Prattify(s.root.At(s.at), op).0);
        } else if op.kind.Suffix? {
          WholeAt(s.root, s.top);
          PutShape(s.root, s.top, Prattify(s.root.At(s.top), op).0);
        }
    }
  }

  /** A run of prefixes down to something a suffix or an operand ends. */
  ghost predicate Prefixes<A>(t: Tree<A>) {
    t.Node? && t.op.Spine() ==> t.op.kind.Prefix? && (t.terms != [] ==> Prefixes(t.Last()))
  }

  /** Below the node a suffix is applied to there are only prefixes, as a run leaves it. */
  ghost predicate TopIsInnermost<A>(t: Tree<A>, top: nat)
    requires t.OnSpine(top)
  {
    var u := t.At(top);
    u.Node? && u.op.Spine() && |u.terms| == u.op.Terms() ==> Prefixes(u.Last())
  }

  lemma {:induction false} PrefixesFill<A>(t: Tree<A>, depth: nat, v: Tree<A>)
    requires t.Open() && Prefixes(t) && t.OnSpine(depth) && Slot(t.At(depth)) && Prefixes(v)
    ensures Prefixes(t.Put(depth, Node(t.At(depth).op, t.At(depth).terms + [v])))
  {
    if depth > 0 {
      PrefixesFill(t.Last(), depth - 1, v);
    }
  }

  lemma {:induction false} PrefixesSuffix<A>(t: Tree<A>, s: Op)
    requires Applicable(t, s) && s.kind.Suffix? && Prefixes(t)
    ensures Prefixes(Prattify(t, s).0)
    decreases t
  {
    if t.op.Spine() && t.op.right <= s.left && t.Last().Node? && t.Last().op.kind.Prefix? {
      PrefixesSuffix(t.Last(), s);
    }
  }

  /** Filling the open slot, which lies at or below `top`. */
  lemma FillInnermost<A>(t: Tree<A>, top: nat, at: nat, v: Tree<A>)
    requires t.Open() && t.OnSpine(top) && top <= at && t.OnSpine(at) && Slot(t.At(at)) && Prefixes(v)
    requires TopIsInnermost(t, top)
    ensures var u := t.Put(at, Node(t.At(at).op, t.At(at).terms + [v])); u.OnSpine(top) && TopIsInnermost(u, top)
  {
    var full := Node(t.At(at).op, t.At(at).terms + [v]);
    PutAbove(t, top, at, full);
    OpenAt(t, top);
    var u := t.At(top);
    SpineSum(t, top, at - top);
    if at > top {
      PrefixesFill(u.Last(), at - top - 1, v);
      assert u.Put(at - top, full).Last() == u.Last().Put(at - top - 1, full);
    }
  }

  /** Every step of a run leaves only prefixes below the node a suffix goes to. */
  lemma StepInnermost<A>(s: State<A>, token: Token<A>)
    requires Valid(s) && Accepts(s, token) && (s.Run? ==> TopIsInnermost(s.root, s.top))
    ensures Valid(Step(s, token)) && TopIsInnermost(Step(s, token).root, Step(s, token).top)
  {
    StepValid(s, token);
    match token
    case Operand(x) =>
      if s.Run? {
        FillInnermost(s.root, s.top, s.at, x);
      }
    case Operator(op) =>
      if s.Start? || s.root.Leaf? {
      } else if op.kind.Prefix? {
        FillInnermost(s.root, s.top, s.at, Node(op, []));
      } else if op.kind.Suffix? {
        var t := s.root.At(s.top);
        WholeAt(s.root, s.top);
        PutShape(s.root, s.top, Prattify(t, op).0);
        if t.op.Spine() && t.op.right <= op.left && t.Last().Node? && t.Last().op.kind.Prefix? {
          PrefixesSuffix(t.Last(), op);
        }
      }
  }

  ghost function Read<A>(s: State<A>): seq<Token<A>> {
    if s.Start? then [] else Reading(s.root)
  }

  /** For every operator kind and any powers, a step appends exactly its token to the reading. */
  lemma StepReading<A>(s: State<A>, token: Token<A>)
    requires Valid(s) && Accepts(s, token)
    ensures Read(Step(s, token)) == Read(s) + [token]
  {
    match token
    case Operand(x) =>
      if s.Run? {
        OperandReading(s, x);
      }
    case Operator(op) =>
      if s.Start? || s.root.Leaf? {
        var u := Step(s, token).root;
        assert ReadingFrom(u, |u.terms|) == [];
        assert Reading(u) == Read(s) + [token] + [];
      } else if op.kind.Prefix? {
        PrefixReadingAt(s, op);
      } else if op.kind.Infix? {
        PrattifyReading(s.root, op);
      } else {
        SuffixReadingAt(s, op);
      }
  }

  lemma OperandReading<A>(s: State<A>, x: Tree<A>)
    requires Valid(s) && s.Run? && Accepts(s, Operand(x))
    ensures Reading(Step(s, Operand(x)).root) == Reading(s.root) + [Operand(x)]
  {
    var slot := s.root.At(s.at);
    ReadingWithTerm(slot, x);
    var before := ReadingPut(s.root, s.at, Node(slot.op, slot.terms + [x]));
    Associative(before, Reading(slot), [Operand(x)]);
  }

  lemma PrefixReadingAt<A>(s: State<A>, op: Op)
    requires Valid(s) && s.Run? && s.root.Node? && op.kind.Prefix? && Accepts(s, Operator(op))
    ensures Reading(Step(s, Operator(op)).root) == Reading(s.root) + [Operator(op)]
  {
    PrattifyReading(s.root.At(s.at), op);
    var before := ReadingPut(s.root, s.at, Prattify(s.root.At(s.at), op).0);
    Associative(before, Reading(s.root.At(s.at)), [Operator(op)]);
  }

  lemma SuffixReadingAt<A>(s: State<A>, op: Op)
    requires Valid(s) && s.Run? && s.root.Node? && op.kind.Suffix? && Accepts(s, Operator(op))
    ensures Reading(Step(s, Operator(op)).root) == Reading(s.root) + [Operator(op)]
  {
    WholeAt(s.root, s.top);
    PrattifyReading(s.root.At(s.top), op);
    var before := ReadingPut(s.root, s.top, Prattify(s.root.At(s.top), op).0);
    Associative(before, Reading(s.root.At(s.top)), [Operator(op)]);
  }

  /** A token sequence the grammar lets through, from where an operand is wanted or one has been read. */
  ghost predicate Phrase<A>(tokens: seq<Token<A>>, wanting: bool) {
    if tokens == [] then
      !wanting
    else
      match tokens[0]
      case Operand(x) => wanting && x.Finished() && x.Whole() && Phrase(tokens[1..], false)
      case Operator(op) =>
        && op.WellPowered()
        && if op.kind.Prefix? then wanting && Phrase(tokens[1..], true)
           else !wanting && (op.kind.Infix? || op.kind.Suffix?) && Phrase(tokens[1..], op.kind.Infix?)
  }

  ghost predicate Wanting<A>(s: State<A>) {
    s.Start? || s.root.Open()
  }

  ghost function RunFrom<A>(s: State<A>, tokens: seq<Token<A>>): (r: State<A>)
    requires Valid(s) && Phrase(tokens, Wanting(s))
    decreases |tokens|
  {
    if tokens == [] then
      s
    else
      StepValid(s, tokens[0]);
      RunFrom(Step(s, tokens[0]), tokens[1..])
  }

  /** The state a run over a phrase is in after its first `n` tokens. */
  ghost function After<A>(s: State<A>, tokens: seq<Token<A>>, n: nat): (r: State<A>)
    requires Valid(s) && Phrase(tokens, Wanting(s)) && n <= |tokens|
    ensures Valid(r)
    decreases n
  {
    if n == 0 then
      s
    else
      StepValid(s, tokens[0]);
      After(Step(s, tokens[0]), tokens[1..], n - 1)
  }

  /** The expression a run over a whole phrase builds. */
  ghost function Built<A>(tokens: seq<Token<A>>): Tree<A>
    requires Phrase(tokens, true)
  {
    RunIsWhole(Start, tokens);
    RunFrom(Start, tokens).root
  }

  lemma {:induction false} RunIsWhole<A>(s: State<A>, tokens: seq<Token<A>>)
    requires Valid(s) && Phrase(tokens, Wanting(s))
    ensures RunFrom(s, tokens).Run? && RunFrom(s, tokens).root.Whole()
    decreases |tokens|
  {
    if tokens != [] {
      StepValid(s, tokens[0]);
      RunIsWhole(Step(s, tokens[0]), tokens[1..]);
    }
  }

  lemma Regroup<T>(before: seq<T>, s: seq<T>)
    requires s != []
    ensures before + s == before + [s[0]] + s[1..]
  {
  }

  lemma {:induction false} RunReading<A>(s: State<A>, tokens: seq<Token<A>>)
    requires Valid(s) && Phrase(tokens, Wanting(s))
    ensures Read(RunFrom(s, tokens)) == Read(s) + tokens
    decreases |tokens|
  {
    if tokens != [] {
      StepValid(s, tokens[0]);
      StepReading(s, tokens[0]);
      RunReading(Step(s, tokens[0]), tokens[1..]);
      Regroup(Read(s), tokens);
    }
  }

  /** Conservation over whole runs: what is built reads as exactly the tokens that went in, in order. */
  lemma BuiltReading<A>(tokens: seq<Token<A>>)
    requires Phrase(tokens, true)
    ensures Built(tokens).Whole() && Reading(Built(tokens)) == tokens
  {
    RunIsWhole(Start, tokens);
    RunReading(Start, tokens);
    assert [] + tokens == tokens;
  }
}
