/**
 Canonical expressions: every operator binds its neighbours as the powers
 say. What runs build comes close whatever the powers, is canonical for
 exactly the tables described here, and for exactly the tables described
 after that a token sequence has no second canonical tree.
 */
module Canonical {
  import opened Operators
  import opened Pratt
  import opened Reference

  /** An operator that follows an expression and takes it as its first term. */
  predicate Trails(op: Op) {
    op.kind.Infix? || op.kind.Suffix?
  }

  /** An operator directly under the last term of `a` binds inside it. */
  predicate RightFits<A>(a: Op, child: Tree<A>) {
    child.Node? && Trails(child.op) ==> Binds(Under(a), child.op)
  }

  /** An operator directly under the first term of `c` does not let `c` bind inside it. */
  predicate LeftFits<A>(c: Op, child: Tree<A>) {
    child.Node? && child.op.Spine() ==> !Binds(Under(child.op), c)
  }

  ghost predicate Canon<A>(t: Tree<A>) {
    t.Finished() ||
    ((forall k | 0 <= k < |t.terms| :: Canon(t.terms[k]))
     && (t.op.Spine() && t.terms != [] && |t.terms| == t.op.Terms() ==> RightFits(t.op, t.Last()))
     && (Trails(t.op) && t.terms != [] ==> LeftFits(t.op, t.terms[0])))
  }

  // ----- what every run builds, whatever the powers -----

  /** A suffix may also take a prefix it ties with. */
  predicate Ties<A>(c: Op, child: Tree<A>) {
    child.Node? && child.op.kind.Prefix? && c.kind.Suffix? && c.left == child.op.right
  }

  /** Canonical but for ties, and for where a suffix stands under the operator above it. */
  ghost predicate Settled<A>(t: Tree<A>) {
    t.Finished() ||
    ((forall k | 0 <= k < |t.terms| :: Settled(t.terms[k]))
     && (t.op.Spine() && t.terms != [] && |t.terms| == t.op.Terms() && !IsSuffix(t.Last()) ==> RightFits(t.op, t.Last()))
     && (Trails(t.op) && t.terms != [] ==> LeftFits(t.op, t.terms[0]) || Ties(t.op, t.terms[0])))
  }

  predicate IsSuffix<A>(t: Tree<A>) {
    t.Node? && t.op.kind.Suffix?
  }

  lemma FillSettled<A>(slot: Tree<A>, x: Tree<A>)
    requires Slot(slot) && Settled(slot) && Settled(x) && RightFits(slot.op, x)
    ensures Settled(Node(slot.op, slot.terms + [x]))
  {
    var full := Node(slot.op, slot.terms + [x]);
    assert forall k | 0 <= k < |full.terms| :: full.terms[k] == if k < |slot.terms| then slot.terms[k] else x;
    assert Trails(full.op) ==> full.terms[0] == slot.terms[0];
    assert full.Last() == x;
  }

  /** A last term may be replaced by another that fits. */
  lemma WithLastSettled<A>(t: Tree<A>, last: Tree<A>)
    requires t.Node? && t.op.Spine() && t.terms != [] && |t.terms| == t.op.Terms() && Settled(t)
    requires Settled(last) && (IsSuffix(last) || RightFits(t.op, last))
    ensures Settled(t.WithLast(last))
  {
    var u := t.WithLast(last);
    assert forall k | 0 <= k < |u.terms| - 1 :: u.terms[k] == t.terms[k];
    assert Trails(u.op) ==> u.terms[0] == t.terms[0];
    assert u.Last() == last;
  }

  lemma {:induction false} PrattifySettled<A>(t: Tree<A>, op: Op)
    requires Applicable(t, op) && Settled(t)
    requires op.kind.Suffix? && t.op.Spine() ==> Prefixes(t.Last())
    ensures Settled(Prattify(t, op).0)
    ensures Prattify(t, op).0.op == t.op || Prattify(t, op).0 == Node(op, [t])
    decreases t
  {
    if op.kind.Prefix? {
      FillSettled(t, Node(op, []));
    } else {
      var u := Prattify(t, op).0;
      if u != Node(op, [t]) {
        if u.Last() != Node(op, [t.Last()]) {
          PrattifySettled(t.Last(), op);
        }
        WithLastSettled(t, u.Last());
      }
    }
  }

  /** A spine node may be replaced by one with the same operator, or by a suffix. */
  lemma {:induction false} PutSettled<A>(t: Tree<A>, depth: nat, u: Tree<A>)
    requires t.OnSpine(depth) && Settled(t) && Settled(u) && u.Node? && t.At(depth).Node?
    requires u.op == t.At(depth).op || u.op.kind.Suffix?
    ensures Settled(t.Put(depth, u)) && t.Put(depth, u).Node? && (depth > 0 ==> t.Put(depth, u).op == t.op)
  {
    if depth > 0 {
      PutSettled(t.Last(), depth - 1, u);
      WithLastSettled(t, t.Last().Put(depth - 1, u));
    }
  }

  lemma {:induction false} SettledAt<A>(t: Tree<A>, depth: nat)
    requires t.OnSpine(depth) && Settled(t)
    ensures Settled(t.At(depth))
  {
    if depth > 0 {
      SettledAt(t.Last(), depth - 1);
    }
  }

  lemma StepSettled<A>(s: State<A>, token: Token<A>)
    requires Valid(s) && Accepts(s, token) && (s.Run? ==> Settled(s.root) && TopIsInnermost(s.root, s.top))
    ensures Settled(Step(s, token).root)
  {
    match token
    case Operand(x) =>
      if s.Run? {
        var slot := s.root.At(s.at);
        SettledAt(s.root, s.at);
        var full := Node(slot.op, slot.terms + [x]);
        FillSettled(slot, x);
        PutSettled(s.root, s.at, full);
      }
    case Operator(op) =>
      if s.Start? || s.root.Leaf? {
      } else if op.kind.Prefix? {
        SettledAt(s.root, s.at);
        PrattifySettled(s.root.At(s.at), op);
        PutSettled(s.root, s.at, Prattify(s.root.At(s.at), op).0);
      } else if op.kind.Infix? {
        PrattifySettled(s.root, op);
      } else {
        WholeAt(s.root, s.top);
        SettledAt(s.root, s.top);
        PrattifySettled(s.root.At(s.top), op);
        PutSettled(s.root, s.top, Prattify(s.root.At(s.top), op).0);
      }
  }

  lemma {:induction false} RunSettled<A>(s: State<A>, tokens: seq<Token<A>>)
    requires Valid(s) && Phrase(tokens, Wanting(s)) && (s.Run? ==> Settled(s.root) && TopIsInnermost(s.root, s.top))
    ensures RunFrom(s, tokens).Run? ==> Settled(RunFrom(s, tokens).root)
    decreases |tokens|
  {
    if tokens != [] {
      StepInnermost(s, tokens[0]);
      StepValid(s, tokens[0]);
      StepSettled(s, tokens[0]);
      RunSettled(Step(s, tokens[0]), tokens[1..]);
    }
  }

  /** For every phrase and any powers, the tree built reads as the phrase and all but its suffixes fit. */
  lemma BuiltIsSettled<A>(tokens: seq<Token<A>>)
    requires Phrase(tokens, true)
    ensures Settled(Built(tokens)) && Reading(Built(tokens)) == tokens
  {
    RunIsWhole(Start, tokens);
    RunSettled(Start, tokens);
    BuiltReading(tokens);
  }

  // ----- where runs build canonical trees -----

  /** Every suffix under a last term binds inside the operator above it. */
  ghost predicate SuffixesFit<A>(t: Tree<A>) {
    t.Finished() ||
    ((forall k | 0 <= k < |t.terms| :: SuffixesFit(t.terms[k]))
     && (t.op.Spine() && t.terms != [] && |t.terms| == t.op.Terms() && IsSuffix(t.Last()) ==> RightFits(t.op, t.Last())))
  }

  lemma FillSuffixesFit<A>(t: Tree<A>, last: Tree<A>)
    requires t.Node? && t.op.Spine() && |t.terms| == t.op.Terms() && SuffixesFit(t) && SuffixesFit(last)
    requires IsSuffix(last) ==> RightFits(t.op, last)
    ensures SuffixesFit(t.WithLast(last))
  {
    var u := t.WithLast(last);
    assert forall k | 0 <= k < |u.terms| - 1 :: u.terms[k] == t.terms[k];
    assert u.Last() == last;
  }

  lemma {:induction false} InsertedSuffixesFit<A>(t: Tree<A>, c: Op)
    requires t.Whole() && c.WellPowered() && c.kind.Infix? && SuffixesFit(t)
    ensures SuffixesFit(Inserted(t, c)) && !IsSuffix(Inserted(t, c))
    decreases t
  {
    InsertedBelow(t, c);
    if t.Node? && t.op.Spine() && t.op.right < c.left {
      InsertedSuffixesFit(t.Last(), c);
      FillSuffixesFit(t, Inserted(t.Last(), c));
    }
  }

  lemma {:induction false} ChainSuffixesFit<A>(t: Tree<A>, a: Op, s: Op, T: set<Op>)
    requires t.Whole() && Chain(t, T) && SuffixesFit(t) && s.WellPowered() && s.kind.Suffix? && a.right <= s.left
    ensures SuffixesFit(Suffixed(t, s)) && RightFits(a, Suffixed(t, s))
  {
    if t.Node? && t.op.kind.Prefix? && t.op.right < s.left {
      ChainSuffixesFit(t.Last(), t.op, s, T);
      FillSuffixesFit(t, Suffixed(t.Last(), s));
      assert Suffixed(t, s) == t.WithLast(Suffixed(t.Last(), s));
    }
  }

  lemma {:induction false} SuffixedSuffixesFit<A>(t: Tree<A>, bound: Bound, top: nat, s: Op, T: set<Op>)
    requires Table(T) && SuffixesInside(T) && s in T && s.kind.Suffix? && InTable(bound, T)
    requires t.Whole() && t.OnSpine(top) && t.At(top).Node? && Nested(t, bound, top, T) && SuffixesFit(t)
    ensures SuffixesFit(SuffixedAt(t, top, s)) && (IsSuffix(SuffixedAt(t, top, s)) ==> Binds(bound, SuffixedAt(t, top, s).op))
  {
    if top > 0 {
      SuffixedBelow(t, top, s);
      SuffixedSuffixesFit(t.Last(), Under(t.op), top - 1, s, T);
      FillSuffixesFit(t, SuffixedAt(t.Last(), top - 1, s));
    } else if t.op.Spine() && t.op.right <= s.left {
      ChainSuffixesFit(t.Last(), t.op, s, T);
      FillSuffixesFit(t, Suffixed(t.Last(), s));
      assert Prattify(t, s).0 == t.WithLast(Suffixed(t.Last(), s));
    } else if bound.Under? && t.op.Spine() {
      assert Nests(bound.op, t.op) && ClearInside(bound.op, t.op, s);
    } else if bound.Under? {
      var b :| b in T && b.kind.Infix? && Nests(bound.op, b) && bound.op.right <= b.right;
      assert ClearInside(bound.op, b, s);
    }
  }

  lemma {:induction false} PutSuffixesFit<A>(t: Tree<A>, at: nat, v: Tree<A>)
    requires t.Open() && t.OnSpine(at) && Slot(t.At(at)) && SuffixesFit(t) && SuffixesFit(v) && !IsSuffix(v)
    ensures SuffixesFit(t.Put(at, Node(t.At(at).op, t.At(at).terms + [v])))
    ensures !IsSuffix(t.Put(at, Node(t.At(at).op, t.At(at).terms + [v])))
  {
    if at > 0 {
      PutSuffixesFit(t.Last(), at - 1, v);
      FillSuffixesFit(t, t.Last().Put(at - 1, Node(t.At(at).op, t.At(at).terms + [v])));
    } else {
      var full := Node(t.op, t.terms + [v]);
      assert forall k | 0 <= k < |full.terms| :: full.terms[k] == if k < |t.terms| then t.terms[k] else v;
      assert full.Last() == v;
    }
  }

  lemma StepSuffixesFit<A>(s: State<A>, token: Token<A>, T: set<Op>)
    requires Table(T) && SuffixesInside(T) && Follows(s, T) && Accepts(s, token)
    requires (token.Operator? ==> token.op in T) && (s.Run? ==> SuffixesFit(s.root))
    ensures SuffixesFit(Step(s, token).root)
  {
    match token
    case Operand(x) =>
      if s.Run? {
        PutSuffixesFit(s.root, s.at, x);
      }
    case Operator(op) =>
      if s.Start? || s.root.Leaf? {
      } else if op.kind.Prefix? {
        PutSuffixesFit(s.root, s.at, Node(op, []));
      } else if op.kind.Infix? {
        InsertedSuffixesFit(s.root, op);
      } else {
        SuffixedSuffixesFit(s.root, Free, s.top, op, T);
      }
  }

  lemma {:induction false} RunSuffixesFit<A>(s: State<A>, tokens: seq<Token<A>>, T: set<Op>)
    requires Table(T) && SuffixesInside(T) && Follows(s, T) && Phrase(tokens, Wanting(s)) && Over(tokens, T)
    requires s.Run? ==> SuffixesFit(s.root)
    ensures RunFrom(s, tokens).Run? ==> SuffixesFit(RunFrom(s, tokens).root)
    decreases |tokens|
  {
    if tokens != [] {
      StepNested(s, tokens[0], T);
      StepValid(s, tokens[0]);
      StepSuffixesFit(s, tokens[0], T);
      RunSuffixesFit(Step(s, tokens[0]), tokens[1..], T);
    }
  }

  /** A finished expression of the table's operators. */
  ghost predicate Expression<A>(t: Tree<A>, T: set<Op>) {
    if t.Finished() then
      t.Whole()
    else
      && t.op in T && t.op.WellPowered() && |t.terms| == t.op.Terms()
      && forall k | 0 <= k < |t.terms| :: Expression(t.terms[k], T)
  }

  lemma {:induction false} SettledIsCanon<A>(t: Tree<A>, T: set<Op>)
    requires SuffixesInside(T) && Expression(t, T) && Settled(t) && SuffixesFit(t)
    ensures Canon(t)
  {
    if !t.Finished() {
      forall k | 0 <= k < |t.terms|
        ensures Canon(t.terms[k])
      {
        SettledIsCanon(t.terms[k], T);
      }
      if t.terms[0].Node? && t.terms[0].op.kind.Prefix? {
        assert Untied(t.terms[0].op, t.op);
      }
    }
  }

  lemma {:induction false} ExpressionOver<A>(t: Tree<A>, T: set<Op>)
    requires t.Whole() && Over(Reading(t), T)
    ensures Expression(t, T)
    decreases t
  {
    if !t.Finished() {
      OverOne<A>(t.op, T);
      if t.op.kind.Prefix? {
        PrefixReading(t);
        OverParts<A>([Operator(t.op)], Reading(t.terms[0]), T);
      } else if t.op.kind.Suffix? {
        SuffixReading(t);
        OverParts(Reading(t.terms[0]), [Operator(t.op)], T);
      } else {
        InfixReading(t);
        OverParts(Reading(t.terms[0]) + [Operator(t.op)], Reading(t.terms[1]), T);
        OverParts(Reading(t.terms[0]), [Operator(t.op)], T);
        ExpressionOver(t.terms[1], T);
      }
      ExpressionOver(t.terms[0], T);
    }
  }

  lemma OverOne<A>(op: Op, T: set<Op>)
    ensures var one: seq<Token<A>> := [Operator(op)]; Over(one, T) <==> op in T
  {
    var one: seq<Token<A>> := [Operator(op)];
    assert one[0] == Operator(op);
  }

  lemma OverParts<A>(first: seq<Token<A>>, rest: seq<Token<A>>, T: set<Op>)
    ensures Over(first + rest, T) <==> Over(first, T) && Over(rest, T)
  {
    var whole := first + rest;
    if Over(whole, T) {
      assert forall k | 0 <= k < |first| :: first[k] == whole[k];
      assert forall k | 0 <= k < |rest| :: rest[k] == whole[|first| + k];
    }
  }

  /** A phrase over the table for which the run does not build a canonical tree. */
  ghost predicate Misplaces<A>(tokens: seq<Token<A>>, T: set<Op>) {
    Phrase(tokens, true) && Over(tokens, T) && !Canon(Built(tokens))
  }

  lemma BuiltIsCanonical<A>(tokens: seq<Token<A>>, T: set<Op>)
    requires Table(T) && SuffixesInside(T) && Phrase(tokens, true) && Over(tokens, T)
    ensures Canon(Built(tokens)) && Expression(Built(tokens), T) && Reading(Built(tokens)) == tokens
  {
    RunIsWhole(Start, tokens);
    BuiltIsSettled(tokens);
    RunSuffixesFit(Start, tokens, T);
    ExpressionOver(Built(tokens), T);
    SettledIsCanon(Built(tokens), T);
  }

  lemma SuffixMisplaced<A>(a: Op, b: Op, s: Op, x: Tree<A>, T: set<Op>) returns (tokens: seq<Token<A>>)
    requires Table(T) && a in T && b in T && s in T && x.Leaf?
    requires !ClearInside(a, b, s) || (a == b && !Untied(b, s))
    ensures Misplaces(tokens, T)
  {
    var rest := [Operator(s)];
    assert rest[1..] == [];
    tokens := Nest(a, b, x, rest);
    NestOver(a, b, x, rest, T);
    RunNest(a, b, x, rest);
    var inner := Applied(b, x, x);
    var nested := Applied(a, x, inner);
    var before := Run(nested, if b.kind.Infix? then 1 else 0, 1);
    assert rest == [Operator(s)] + [];
    RunCons(before, Operator(s), []);
    if b.kind.Infix? {
      assert nested.At(1) == inner;
      assert Built(tokens) == nested.Put(1, Node(s, [inner])) == nested.WithLast(Node(s, [inner]));
    } else {
      assert Built(tokens) == nested.WithLast(Node(s, [inner]));
    }
    assert Built(tokens).Last() == Node(s, [inner]);
  }

  /** The runs over a table build only canonical trees exactly when the suffixes bind inside and never tie. */
  lemma RunsAreCanonical<A>(T: set<Op>, x: Tree<A>)
    requires Table(T) && x.Leaf?
    ensures SuffixesInside(T) <==> forall tokens: seq<Token<A>> :: !Misplaces(tokens, T)
  {
    if SuffixesInside(T) {
      forall tokens: seq<Token<A>>
        ensures !Misplaces(tokens, T)
      {
        if Phrase(tokens, true) && Over(tokens, T) {
          BuiltIsCanonical(tokens, T);
        }
      }
    } else if exists b, s :: b in T && s in T && !Untied(b, s) {
      var b, s :| b in T && s in T && !Untied(b, s);
      var tokens := SuffixMisplaced(b, b, s, x, T);
    } else {
      var a, b, s :| a in T && b in T && s in T && !ClearInside(a, b, s);
      var tokens := SuffixMisplaced(a, b, s, x, T);
    }
  }

  // ----- reading a tree back -----

  /** Every operator down the left edge binds inside the bound. */
  ghost predicate LeftEdge<A>(t: Tree<A>, bound: Bound) {
    t.Node? && Trails(t.op) && t.terms != [] ==> Binds(bound, t.op) && LeftEdge(t.terms[0], bound)
  }

  /** No operator down the right edge lets `c` bind inside it. */
  ghost predicate RightEdge<A>(t: Tree<A>, c: Op) {
    t.Node? && t.op.Spine() && t.terms != [] ==> !Binds(Under(t.op), c) && RightEdge(t.Last(), c)
  }

  /** The canonical form, asked of whole edges rather than of direct children. */
  ghost predicate Strong<A>(t: Tree<A>) {
    t.Finished() ||
    ((forall k | 0 <= k < |t.terms| :: Strong(t.terms[k]))
     && (t.op.Spine() && t.terms != [] ==> LeftEdge(t.Last(), Under(t.op)))
     && (Trails(t.op) && t.terms != [] ==> RightEdge(t.terms[0], t.op)))
  }

  lemma PrefixReading<A>(t: Tree<A>)
    requires t.Node? && t.op.kind.Prefix? && |t.terms| == 1
    ensures Reading(t) == [Operator(t.op)] + Reading(t.terms[0])
  {
    ReadingOne(t);
  }

  lemma InfixReading<A>(t: Tree<A>)
    requires t.Node? && t.op.kind.Infix? && |t.terms| == 2
    ensures Reading(t) == Reading(t.terms[0]) + [Operator(t.op)] + Reading(t.terms[1])
  {
    ReadingTwo(t);
  }

  lemma SuffixReading<A>(t: Tree<A>)
    requires t.Node? && t.op.kind.Suffix? && |t.terms| == 1
    ensures Reading(t) == Reading(t.terms[0]) + [Operator(t.op)]
  {
    assert t == Node(t.op, [t.terms[0]]);
    WrapReading(t.terms[0], t.op);
  }

  lemma SuffixTokens<A>(t: Tree<A>, rest: seq<Token<A>>)
    requires t.Node? && t.op.kind.Suffix? && |t.terms| == 1
    ensures Reading(t) + rest == Reading(t.terms[0]) + ([Operator(t.op)] + rest) && ([Operator(t.op)] + rest)[1..] == rest
  {
    SuffixReading(t);
    assert Reading(t) + rest == Reading(t.terms[0]) + ([Operator(t.op)] + rest);
  }

  lemma PrefixTokens<A>(t: Tree<A>, rest: seq<Token<A>>)
    requires t.Node? && t.op.kind.Prefix? && |t.terms| == 1
    ensures Reading(t) + rest == [Operator(t.op)] + (Reading(t.terms[0]) + rest)
    ensures (Reading(t) + rest)[0] == Operator(t.op) && (Reading(t) + rest)[1..] == Reading(t.terms[0]) + rest
  {
    PrefixReading(t);
    assert Reading(t) + rest == [Operator(t.op)] + (Reading(t.terms[0]) + rest);
  }

  lemma InfixTokens<A>(t: Tree<A>, rest: seq<Token<A>>) returns (tail: seq<Token<A>>)
    requires t.Node? && t.op.kind.Infix? && |t.terms| == 2
    ensures Reading(t) + rest == Reading(t.terms[0]) + tail
    ensures tail == [Operator(t.op)] + (Reading(t.terms[1]) + rest) && tail[1..] == Reading(t.terms[1]) + rest
  {
    InfixReading(t);
    tail := [Operator(t.op)] + (Reading(t.terms[1]) + rest);
    assert Reading(t) + rest == Reading(t.terms[0]) + tail;
  }

  lemma {:induction false} ReadingPhrase<A>(t: Tree<A>, T: set<Op>, rest: seq<Token<A>>)
    requires Expression(t, T) && Phrase(rest, false)
    ensures t.Whole() && Phrase(Reading(t) + rest, true)
    decreases t
  {
    if t.Finished() {
      assert (Reading(t) + rest)[1..] == rest;
    } else if t.op.kind.Prefix? {
      ReadingPhrase(t.terms[0], T, rest);
      PrefixTokens(t, rest);
    } else if t.op.kind.Suffix? {
      SuffixTokens(t, rest);
      ReadingPhrase(t.terms[0], T, [Operator(t.op)] + rest);
    } else {
      ReadingPhrase(t.terms[1], T, rest);
      var tail := InfixTokens(t, rest);
      ReadingPhrase(t.terms[0], T, tail);
    }
  }

  lemma {:induction false} ReadingOver<A>(t: Tree<A>, T: set<Op>)
    requires Expression(t, T)
    ensures Over(Reading(t), T)
    decreases t
  {
    if t.Finished() {
    } else if t.op.kind.Prefix? {
      PrefixReading(t);
      ReadingOver(t.terms[0], T);
    } else if t.op.kind.Suffix? {
      SuffixReading(t);
      ReadingOver(t.terms[0], T);
    } else {
      InfixReading(t);
      ReadingOver(t.terms[0], T);
      ReadingOver(t.terms[1], T);
    }
  }

  /** What follows cannot be taken into the tree. */
  ghost predicate Ends<A>(t: Tree<A>, rest: seq<Token<A>>) {
    rest != [] && rest[0].Operator? ==> RightEdge(t, rest[0].op)
  }

  lemma ParsesPrefix<A>(t: Tree<A>, bound: Bound, rest: seq<Token<A>>)
    requires t.Whole() && t.Node? && t.op.kind.Prefix? && Phrase(rest, false) && Ends(t, rest)
    requires Phrase(Reading(t) + rest, true) && Phrase(Reading(t.terms[0]) + rest, true)
    requires Parse(Under(t.op), Reading(t.terms[0]) + rest) == Climb(Under(t.op), t.terms[0], rest)
    ensures Parse(bound, Reading(t) + rest) == Climb(bound, t, rest)
  {
    PrefixTokens(t, rest);
    assert Climb(Under(t.op), t.terms[0], rest) == (t.terms[0], rest);
    assert Node(t.op, [t.terms[0]]) == t;
  }

  lemma ParsesInfix<A>(t: Tree<A>, bound: Bound, rest: seq<Token<A>>, tail: seq<Token<A>>)
    requires t.Whole() && t.Node? && t.op.kind.Infix? && Phrase(rest, false) && Ends(t, rest) && Binds(bound, t.op)
    requires Phrase(Reading(t.terms[1]) + rest, true)
    requires tail == [Operator(t.op)] + (Reading(t.terms[1]) + rest) && tail[1..] == Reading(t.terms[1]) + rest
    requires Parse(Under(t.op), Reading(t.terms[1]) + rest) == Climb(Under(t.op), t.terms[1], rest)
    ensures Phrase(tail, false) && Climb(bound, t.terms[0], tail) == Climb(bound, t, rest)
  {
    assert Climb(Under(t.op), t.terms[1], rest) == (t.terms[1], rest);
    assert [t.terms[0], t.terms[1]] == t.terms;
  }

  lemma ParsesSuffix<A>(t: Tree<A>, bound: Bound, rest: seq<Token<A>>)
    requires t.Whole() && t.Node? && t.op.kind.Suffix? && Phrase(rest, false) && Binds(bound, t.op)
    ensures Phrase([Operator(t.op)] + rest, false)
    ensures Climb(bound, t.terms[0], [Operator(t.op)] + rest) == Climb(bound, t, rest)
  {
    assert ([Operator(t.op)] + rest)[1..] == rest;
    assert Node(t.op, [t.terms[0]]) == t;
  }

  /** The recursive parser reads a strongly canonical tree back from its tokens. */
  lemma {:induction false} ParsesBack<A>(t: Tree<A>, bound: Bound, rest: seq<Token<A>>, T: set<Op>)
    requires Expression(t, T) && Strong(t) && LeftEdge(t, bound) && Phrase(rest, false) && Ends(t, rest)
    ensures t.Whole() && Phrase(Reading(t) + rest, true)
    ensures Parse(bound, Reading(t) + rest) == Climb(bound, t, rest)
    decreases t
  {
    ReadingPhrase(t, T, rest);
    if t.Finished() {
      assert (Reading(t) + rest)[1..] == rest;
    } else if t.op.kind.Prefix? {
      ParsesBack(t.terms[0], Under(t.op), rest, T);
      ParsesPrefix(t, bound, rest);
    } else if t.op.kind.Suffix? {
      SuffixTokens(t, rest);
      ParsesSuffix(t, bound, rest);
      ParsesBack(t.terms[0], bound, [Operator(t.op)] + rest, T);
    } else {
      var tail := InfixTokens(t, rest);
      ParsesBack(t.terms[1], Under(t.op), rest, T);
      ParsesInfix(t, bound, rest, tail);
      ParsesBack(t.terms[0], bound, tail, T);
    }
  }

  lemma {:induction false} StrongIsMeaning<A>(t: Tree<A>, T: set<Op>)
    requires Expression(t, T) && Strong(t)
    ensures Phrase(Reading(t), true) && Over(Reading(t), T) && Meaning(Reading(t)) == t
  {
    FreeLeftEdge(t);
    ReadingPhrase(t, T, []);
    ReadingOver(t, T);
    ParsesBack(t, Free, [], T);
    assert Reading(t) + [] == Reading(t);
  }

  lemma FreeLeftEdge<A>(t: Tree<A>)
    ensures LeftEdge(t, Free)
  {
  }

  // ----- uniqueness -----

  /** What `a` does not let in, the `b` nested in it does not let in either. */
  predicate ClearOnRight(a: Op, b: Op, c: Op) {
    Nests(a, b) && Trails(c) && !Binds(Under(a), c) ==> !Binds(Under(b), c)
  }

  /** A `d` that stands under the first term of a `b` inside `a` binds inside `a` too. */
  predicate ClearOnLeft(a: Op, b: Op, d: Op) {
    a.Spine() && Trails(b) && Trails(d) && Binds(Under(a), b) && (d.kind.Infix? ==> !Binds(Under(d), b)) ==> Binds(Under(a), d)
  }

  ghost predicate Unambiguous(T: set<Op>) {
    && (forall a, b, c {:trigger ClearOnRight(a, b, c)} | a in T && b in T && c in T :: ClearOnRight(a, b, c))
    && (forall a, b, d {:trigger ClearOnLeft(a, b, d)} | a in T && b in T && d in T :: ClearOnLeft(a, b, d))
  }

  lemma {:induction false} CanonLeftEdge<A>(t: Tree<A>, a: Op, T: set<Op>)
    requires Unambiguous(T) && a in T && a.Spine() && Expression(t, T) && Canon(t) && RightFits(a, t)
    ensures LeftEdge(t, Under(a))
  {
    if t.Node? && Trails(t.op) {
      if t.terms[0].Node? && Trails(t.terms[0].op) {
        assert ClearOnLeft(a, t.op, t.terms[0].op);
      }
      CanonLeftEdge(t.terms[0], a, T);
    }
  }

  lemma {:induction false} CanonRightEdge<A>(t: Tree<A>, c: Op, T: set<Op>)
    requires Unambiguous(T) && c in T && Trails(c) && Expression(t, T) && Canon(t) && LeftFits(c, t)
    ensures RightEdge(t, c)
  {
    if t.Node? && t.op.Spine() {
      if t.Last().Node? && t.Last().op.Spine() {
        assert ClearOnRight(t.op, t.Last().op, c);
      }
      CanonRightEdge(t.Last(), c, T);
    }
  }

  lemma {:induction false} CanonIsStrong<A>(t: Tree<A>, T: set<Op>)
    requires Unambiguous(T) && Expression(t, T) && Canon(t)
    ensures Strong(t)
  {
    if !t.Finished() {
      forall k | 0 <= k < |t.terms|
        ensures Strong(t.terms[k])
      {
        CanonIsStrong(t.terms[k], T);
      }
      if t.op.Spine() {
        CanonLeftEdge(t.Last(), t.op, T);
      }
      if Trails(t.op) {
        CanonRightEdge(t.terms[0], t.op, T);
      }
    }
  }

  /** Two canonical trees for one token sequence. */
  ghost predicate Ambiguous<A>(t: Tree<A>, u: Tree<A>, T: set<Op>) {
    Expression(t, T) && Canon(t) && Expression(u, T) && Canon(u) && Reading(t) == Reading(u) && t != u
  }

  lemma AppliedReading<A>(a: Op, x: Tree<A>, last: Tree<A>)
    requires a.Spine() && x.Leaf?
    ensures Reading(Applied(a, x, last)) == Opening(a, x) + Reading(last)
  {
    if a.kind.Infix? {
      InfixReading(Applied(a, x, last));
    } else {
      PrefixReading(Applied(a, x, last));
    }
  }

  /** Applying a prefix or an infix to canonical terms it fits gives a canonical tree. */
  lemma AppliedCanon<A>(a: Op, x: Tree<A>, last: Tree<A>, T: set<Op>)
    requires Table(T) && a in T && a.Spine() && x.Leaf? && Expression(last, T) && Canon(last) && RightFits(a, last)
    ensures Expression(Applied(a, x, last), T) && Canon(Applied(a, x, last)) && Applied(a, x, last).Last() == last
  {
    var t := Applied(a, x, last);
    assert t.Last() == last && (a.kind.Infix? ==> t.terms[0] == x);
    assert Canon(x) && forall k | 0 <= k < |t.terms| :: t.terms[k] == x || t.terms[k] == last;
    assert Canon(t);
  }

  /** An infix or a suffix over its first term, `x` being its second if it has one. */
  ghost function Trailing<A>(c: Op, first: Tree<A>, x: Tree<A>): Tree<A> {
    Node(c, if c.kind.Infix? then [first, x] else [first])
  }

  ghost function Closing<A>(c: Op, x: Tree<A>): seq<Token<A>> {
    if c.kind.Infix? then [Operator(c), Operand(x)] else [Operator(c)]
  }

  lemma TrailingCanon<A>(c: Op, first: Tree<A>, x: Tree<A>, T: set<Op>)
    requires Table(T) && c in T && Trails(c) && x.Leaf? && Expression(first, T) && Canon(first) && LeftFits(c, first)
    ensures Expression(Trailing(c, first, x), T) && Canon(Trailing(c, first, x))
    ensures Reading(Trailing(c, first, x)) == Reading(first) + Closing(c, x)
  {
    var t := Trailing(c, first, x);
    assert t.terms[0] == first && (c.kind.Infix? ==> t.Last() == x);
    assert Canon(x) && forall k | 0 <= k < |t.terms| :: t.terms[k] == x || t.terms[k] == first;
    assert RightFits(c, x);
    assert Canon(t);
    if c.kind.Infix? {
      InfixReading(t);
      assert [Operator(c)] + Reading(x) == Closing(c, x);
    } else {
      SuffixReading(t);
    }
  }

  lemma AmbiguousOnRight<A>(a: Op, b: Op, c: Op, x: Tree<A>, T: set<Op>) returns (t: Tree<A>, u: Tree<A>)
    requires Table(T) && a in T && b in T && c in T && !ClearOnRight(a, b, c) && x.Leaf?
    ensures Ambiguous(t, u, T)
  {
    var inner := Applied(b, x, x);
    AppliedCanon(b, x, x, T);
    AppliedReading(b, x, x);
    var outer := Applied(a, x, inner);
    AppliedCanon(a, x, inner, T);
    AppliedReading(a, x, inner);
    t := Trailing(c, outer, x);
    TrailingCanon(c, outer, x, T);

    var deep := Trailing(c, x, x);
    TrailingCanon(c, x, x, T);
    var middle := Applied(b, x, deep);
    AppliedCanon(b, x, deep, T);
    AppliedReading(b, x, deep);
    u := Applied(a, x, middle);
    AppliedCanon(a, x, middle, T);
    AppliedReading(a, x, middle);

    SameTokens(Opening(a, x), Opening(b, x), Reading(x), Closing(c, x));
    Distinct(t, u, outer, middle, a, c, x);
  }

  lemma SameTokens<T>(a: seq<T>, b: seq<T>, x: seq<T>, c: seq<T>)
    ensures (a + (b + x)) + c == a + (b + (x + c))
  {
  }

  /** A tree led by one operator is not one that ends in another. */
  lemma Distinct<A>(t: Tree<A>, u: Tree<A>, first: Tree<A>, last: Tree<A>, a: Op, c: Op, x: Tree<A>)
    requires Trails(c) && a.Spine() && x.Leaf? && first.Node?
    requires t == Trailing(c, first, x) && u == Applied(a, x, last)
    ensures t != u
  {
    assert t.terms[0] == first && (a.kind.Infix? ==> u.terms[0] == x);
  }

  lemma AmbiguousOnLeft<A>(a: Op, b: Op, d: Op, x: Tree<A>, T: set<Op>) returns (t: Tree<A>, u: Tree<A>)
    requires Table(T) && a in T && b in T && d in T && !ClearOnLeft(a, b, d) && x.Leaf?
    ensures Ambiguous(t, u, T)
  {
    var first := Applied(a, x, x);
    AppliedCanon(a, x, x, T);
    AppliedReading(a, x, x);
    var left := Trailing(d, first, x);
    TrailingCanon(d, first, x, T);
    t := Trailing(b, left, x);
    TrailingCanon(b, left, x, T);

    var pair := Trailing(d, x, x);
    TrailingCanon(d, x, x, T);
    var right := Trailing(b, pair, x);
    TrailingCanon(b, pair, x, T);
    u := Applied(a, x, right);
    AppliedCanon(a, x, right, T);
    AppliedReading(a, x, right);

    MoreTokens(Opening(a, x), Reading(x), Closing(d, x), Closing(b, x));
    Distinct(t, u, left, right, a, b, x);
  }

  lemma MoreTokens<T>(a: seq<T>, x: seq<T>, d: seq<T>, b: seq<T>)
    ensures ((a + x) + d) + b == a + ((x + d) + b)
  {
  }

  /** Every token sequence over a table has at most one canonical tree exactly when the table is unambiguous. */
  lemma UniquenessIsNonCrossing<A>(T: set<Op>, x: Tree<A>)
    requires Table(T) && x.Leaf?
    ensures Unambiguous(T) <==> forall t: Tree<A>, u: Tree<A> :: !Ambiguous(t, u, T)
  {
    if Unambiguous(T) {
      forall t: Tree<A>, u: Tree<A>
        ensures !Ambiguous(t, u, T)
      {
        if Ambiguous(t, u, T) {
          CanonIsStrong(t, T);
          StrongIsMeaning(t, T);
          CanonIsStrong(u, T);
          StrongIsMeaning(u, T);
        }
      }
    } else if a, b, c :| a in T && b in T && c in T && !ClearOnRight(a, b, c) {
      var t, u := AmbiguousOnRight(a, b, c, x, T);
    } else {
      var a, b, d :| a in T && b in T && d in T && !ClearOnLeft(a, b, d);
      var t, u := AmbiguousOnLeft(a, b, d, x, T);
    }
  }

  /** Over an unambiguous table whose suffixes bind inside, the run is the left inverse of reading on canonical expressions. */
  lemma BuiltReadsBack<A>(t: Tree<A>, T: set<Op>)
    requires Table(T) && SuffixesInside(T) && Unambiguous(T) && Expression(t, T) && Canon(t)
    ensures Phrase(Reading(t), true) && Built(Reading(t)) == t
  {
    CanonIsStrong(t, T);
    StrongIsMeaning(t, T);
    var u := Built(Reading(t));
    BuiltIsCanonical(Reading(t), T);
    CanonIsStrong(u, T);
    StrongIsMeaning(u, T);
  }
}
