/**
 The meaning of a run: a recursive-descent parser with a minimum binding
 power, and exactly which operator tables make the in-place insertion
 build the tree that parser builds.
 */
module Reference {
  import opened Operators
  import opened Pratt

  /** The operator whose last term is being parsed, if any; its `right` is the minimum binding power. */
  datatype Bound = Free | Under(op: Op)

  /** Whether an operator that follows a finished term may take that term inside the bound. */
  predicate Binds(bound: Bound, op: Op) {
    bound.Free? || (if op.kind.Suffix? then bound.op.right <= op.left else bound.op.right < op.left)
  }

  /** The result of parsing: the tree, and the tokens left over. */
  type Parsed<!A> = (Tree<A>, seq<Token<A>>)

  ghost function Parse<A>(bound: Bound, tokens: seq<Token<A>>): (r: Parsed<A>)
    requires Phrase(tokens, true)
    ensures r.0.Whole() && Phrase(r.1, false) && |r.1| < |tokens|
    decreases |tokens|, 1
  {
    match tokens[0]
    case Operand(x) => Climb(bound, x, tokens[1..])
    case Operator(op) =>
      var (x, rest) := Parse(Under(op), tokens[1..]);
      Climb(bound, Node(op, [x]), rest)
  }

  /** Extend a finished left side for as long as the next operator binds. */
  ghost function Climb<A>(bound: Bound, lhs: Tree<A>, tokens: seq<Token<A>>): (r: Parsed<A>)
    requires lhs.Whole() && Phrase(tokens, false)
    ensures r.0.Whole() && Phrase(r.1, false) && |r.1| <= |tokens|
    decreases |tokens|, 0
  {
    if tokens == [] || !Binds(bound, tokens[0].op) then
      (lhs, tokens)
    else if tokens[0].op.kind.Suffix? then
      Climb(bound, Node(tokens[0].op, [lhs]), tokens[1..])
    else
      var (rhs, rest) := Parse(Under(tokens[0].op), tokens[1..]);
      Climb(bound, Node(tokens[0].op, [lhs, rhs]), rest)
  }

  lemma {:induction false} FreeParseTakesAll<A>(tokens: seq<Token<A>>)
    requires Phrase(tokens, true)
    ensures Parse(Free, tokens).1 == []
  {
    match tokens[0]
    case Operand(x) => FreeClimbTakesAll(x, tokens[1..]);
    case Operator(op) =>
      var (x, rest) := Parse(Under(op), tokens[1..]);
      FreeClimbTakesAll(Node(op, [x]), rest);
  }

  lemma {:induction false} FreeClimbTakesAll<A>(lhs: Tree<A>, tokens: seq<Token<A>>)
    requires lhs.Whole() && Phrase(tokens, false)
    ensures Climb(Free, lhs, tokens).1 == []
    decreases |tokens|
  {
    if tokens == [] {
    } else if tokens[0].op.kind.Suffix? {
      FreeClimbTakesAll(Node(tokens[0].op, [lhs]), tokens[1..]);
    } else {
      var (rhs, rest) := Parse(Under(tokens[0].op), tokens[1..]);
      FreeClimbTakesAll(Node(tokens[0].op, [lhs, rhs]), rest);
    }
  }

  /** The tree the recursive parser builds from a whole phrase. */
  ghost function Meaning<A>(tokens: seq<Token<A>>): Tree<A>
    requires Phrase(tokens, true)
  {
    Parse(Free, tokens).0
  }

  // ----- where the recursive parser stands when part of the tree is built -----

  ghost predicate Fits<A>(t: Tree<A>, tokens: seq<Token<A>>) {
    (t.Whole() && Phrase(tokens, false)) || (t.Open() && Phrase(tokens, true))
  }

  /** What the parser returns from here: finish the last term inside its operator's bound, then climb. */
  ghost function Resume<A>(t: Tree<A>, bound: Bound, tokens: seq<Token<A>>): (r: Parsed<A>)
    requires Fits(t, tokens)
    ensures r.0.Whole() && Phrase(r.1, false) && |r.1| <= |tokens|
    decreases t
  {
    if t.Leaf? || !t.op.Spine() then
      Climb(bound, t, tokens)
    else if |t.terms| < t.op.Terms() then
      SlotIsOpen(t);
      var (x, rest) := Parse(Under(t.op), tokens);
      Climb(bound, Node(t.op, t.terms + [x]), rest)
    else
      var (x, rest) := Resume(t.Last(), Under(t.op), tokens);
      Climb(bound, t.WithLast(x), rest)
  }

  // ----- tables of operators -----

  /** A table holds prefix, infix and suffix operators; parens and ternaries only ever head finished operands. */
  ghost predicate Table(T: set<Op>) {
    forall op | op in T :: op.WellPowered() && !op.Closed()
  }

  /** Whether the recursive parser can put `b` directly under the last term of `a`. */
  predicate Nests(a: Op, b: Op) {
    a.Spine() && (b.kind.Prefix? || (b.kind.Infix? && a.right < b.left))
  }

  /** An infix `c` that closes over `a` does not bind inside the `b` nested in it. */
  predicate ClearOfInfix(a: Op, b: Op, c: Op) {
    Nests(a, b) && c.kind.Infix? && c.left <= a.right ==> c.left <= b.right
  }

  /** A suffix applied to `b`, nested in `a`, never has to look past `b` on either side. */
  predicate ClearOfSuffix(a: Op, b: Op, s: Op) {
    Nests(a, b) && s.kind.Suffix? ==>
      if b.kind.Prefix? then s.left < a.right ==> s.left < b.right
      else s.left < b.right ==> a.right <= s.left
  }

  /** A prefix and a suffix never bind their operand equally tightly. */
  predicate Untied(b: Op, s: Op) {
    b.kind.Prefix? && s.kind.Suffix? ==> b.right != s.left
  }

  /** A suffix that takes an infix `b` nested in `a` binds inside `a`. */
  predicate ClearInside(a: Op, b: Op, s: Op) {
    Nests(a, b) && b.kind.Infix? && s.kind.Suffix? && s.left < b.right ==> a.right <= s.left
  }

  /** What a run needs of its suffixes to put each one inside the operator above it. */
  ghost predicate SuffixesInside(T: set<Op>) {
    && (forall b, s {:trigger Untied(b, s)} | b in T && s in T :: Untied(b, s))
    && (forall a, b, s {:trigger ClearInside(a, b, s)} | a in T && b in T && s in T :: ClearInside(a, b, s))
  }

  ghost predicate InfixNonCrossing(T: set<Op>) {
    forall a, b, c {:trigger ClearOfInfix(a, b, c)} | a in T && b in T && c in T :: ClearOfInfix(a, b, c)
  }

  ghost predicate SuffixNonCrossing(T: set<Op>) {
    && (forall b, s {:trigger Untied(b, s)} | b in T && s in T :: Untied(b, s))
    && (forall a, b, s {:trigger ClearOfSuffix(a, b, s)} | a in T && b in T && s in T :: ClearOfSuffix(a, b, s))
  }

  ghost predicate NonCrossing(T: set<Op>) {
    InfixNonCrossing(T) && SuffixNonCrossing(T)
  }

  /** Every operator token of the phrase is in the table. */
  ghost predicate Over<A>(tokens: seq<Token<A>>, T: set<Op>) {
    forall k | 0 <= k < |tokens| :: tokens[k].Operator? ==> tokens[k].op in T
  }

  // ----- the spine a run leaves -----

  /** Prefix operators over a finished operand, a suffix or an open slot. */
  ghost predicate Chain<A>(t: Tree<A>, T: set<Op>) {
    t.Node? && t.op.Spine() ==>
      && t.op.kind.Prefix? && t.op in T
      && (t.terms != [] ==> Chain(t.Last(), T))
  }

  /** Some infix operator of the table nests under the bound without binding looser than it on the right. */
  ghost predicate Covered(bound: Bound, T: set<Op>) {
    bound.Under? ==> exists b | b in T :: b.kind.Infix? && Nests(bound.op, b) && bound.op.right <= b.right
  }

  /** Each operator of the spine binds inside the one above it, and from `top` on there are only prefixes. */
  ghost predicate Nested<A>(t: Tree<A>, bound: Bound, top: nat, T: set<Op>) {
    if t.Leaf? || !t.op.Spine() then
      top == 0 && Covered(bound, T)
    else
      && t.op in T
      && (t.op.kind.Infix? ==> Binds(bound, t.op))
      && if |t.terms| < t.op.Terms() then top == 0 && (bound.Free? || t.op.kind.Infix?)
         else if top > 0 then Nested(t.Last(), Under(t.op), top - 1, T)
         else (bound.Free? || t.op.kind.Infix?) && Chain(t.Last(), T)
  }

  /** A chain is a spine without infix operators. */
  ghost predicate Spined<A>(t: Tree<A>, bound: Bound, T: set<Op>) {
    if t.Leaf? || !t.op.Spine() then
      true
    else
      && t.op in T
      && (t.op.kind.Infix? ==> Binds(bound, t.op))
      && (|t.terms| == t.op.Terms() ==> Spined(t.Last(), Under(t.op), T))
  }

  lemma {:induction false} ChainSpined<A>(t: Tree<A>, bound: Bound, T: set<Op>)
    requires Chain(t, T)
    ensures Spined(t, bound, T)
  {
    if t.Node? && t.op.Spine() && t.terms != [] {
      ChainSpined(t.Last(), Under(t.op), T);
    }
  }

  lemma {:induction false} NestedSpined<A>(t: Tree<A>, bound: Bound, top: nat, T: set<Op>)
    requires Nested(t, bound, top, T)
    ensures Spined(t, bound, T)
  {
    if t.Node? && t.op.Spine() && |t.terms| == t.op.Terms() {
      if top > 0 {
        NestedSpined(t.Last(), Under(t.op), top - 1, T);
      } else {
        ChainSpined(t.Last(), Under(t.op), T);
      }
    }
  }

  /** An operator the bound shuts out is shut out by everything on the spine below. */
  lemma {:induction false} ResumeStops<A>(t: Tree<A>, a: Op, c: Op, rest: seq<Token<A>>, T: set<Op>)
    requires Table(T) && InfixNonCrossing(T) && a in T && c in T && c.kind.Infix? && a.Spine()
    requires t.Whole() && Spined(t, Under(a), T) && c.left <= a.right
    requires Phrase([Operator(c)] + rest, false)
    ensures Resume(t, Under(a), [Operator(c)] + rest) == (t, [Operator(c)] + rest)
  {
    if t.Node? && t.op.Spine() {
      assert ClearOfInfix(a, t.op, c);
      ResumeStops(t.Last(), t.op, c, rest, T);
      assert t.WithLast(t.Last()) == t;
    }
  }

  /** Where the run puts an infix operator, whatever the expression is. */
  ghost function Inserted<A>(t: Tree<A>, c: Op): (u: Tree<A>)
    requires t.Whole() && c.WellPowered() && c.kind.Infix?
    ensures u.Open()
  {
    SlotIsOpen(Node(c, [t]));
    if t.Leaf? then Node(c, [t]) else Prattify(t, c).0
  }

  ghost function InsertedDepth<A>(t: Tree<A>, c: Op): nat
    requires t.Whole() && c.WellPowered() && c.kind.Infix?
  {
    if t.Leaf? then 0 else Prattify(t, c).1
  }

  lemma InsertedBelow<A>(t: Tree<A>, c: Op)
    requires t.Whole() && c.WellPowered() && c.kind.Infix?
    ensures t.Leaf? || !t.op.Spine() || c.left <= t.op.right ==> Inserted(t, c) == Node(c, [t])
    ensures t.Node? && t.op.Spine() && t.op.right < c.left ==>
              Inserted(t, c) == t.WithLast(Inserted(t.Last(), c)) && InsertedDepth(t, c) == InsertedDepth(t.Last(), c) + 1
  {
  }

  /** The parser takes an infix operator its bound lets in, and then wants its right side. */
  lemma ClimbTakes<A>(t: Tree<A>, bound: Bound, c: Op, rest: seq<Token<A>>)
    requires t.Whole() && Binds(bound, c) && c.kind.Infix?
    requires Phrase([Operator(c)] + rest, false) && Phrase(rest, true)
    ensures Fits(Node(c, [t]), rest)
    ensures Climb(bound, t, [Operator(c)] + rest) == Resume(Node(c, [t]), bound, rest)
  {
    var open := Node(c, [t]);
    assert Slot(open);
    SlotIsOpen(open);
    var tokens := [Operator(c)] + rest;
    assert tokens[0] == Operator(c) && tokens[1..] == rest;
    var (x, more) := Parse(Under(c), rest);
    assert open.terms + [x] == [t, x];
    assert Climb(bound, t, tokens) == Climb(bound, Node(c, [t, x]), more);
  }

  /** Inserting an infix operator moves the parser exactly over its token. */
  lemma {:induction false} InfixStep<A>(t: Tree<A>, bound: Bound, c: Op, rest: seq<Token<A>>, T: set<Op>)
    requires Table(T) && InfixNonCrossing(T) && c in T && c.kind.Infix?
    requires t.Whole() && Spined(t, bound, T) && Binds(bound, c)
    requires Phrase([Operator(c)] + rest, false) && Phrase(rest, true)
    ensures Resume(t, bound, [Operator(c)] + rest) == Resume(Inserted(t, c), bound, rest)
    decreases t
  {
    InsertedBelow(t, c);
    if t.Leaf? || !t.op.Spine() {
      ClimbTakes(t, bound, c, rest);
    } else if c.left <= t.op.right {
      ResumeStops(t.Last(), t.op, c, rest, T);
      assert t.WithLast(t.Last()) == t;
      ClimbTakes(t, bound, c, rest);
    } else {
      InfixStep(t.Last(), Under(t.op), c, rest, T);
      ResumeInside(t, bound, [Operator(c)] + rest, Inserted(t.Last(), c), rest);
    }
  }

  /** A step inside the last term is a step of the whole. */
  lemma ResumeInside<A>(t: Tree<A>, bound: Bound, tokens: seq<Token<A>>, inner: Tree<A>, rest: seq<Token<A>>)
    requires t.Node? && t.op.Spine() && |t.terms| == t.op.Terms()
    requires Fits(t, tokens) && Fits(t.WithLast(inner), rest) && Fits(t.Last(), tokens) && Fits(inner, rest)
    requires Resume(t.Last(), Under(t.op), tokens) == Resume(inner, Under(t.op), rest)
    ensures Resume(t, bound, tokens) == Resume(t.WithLast(inner), bound, rest)
  {
    var (x, more) := Resume(inner, Under(t.op), rest);
    assert t.WithLast(inner).WithLast(x) == t.WithLast(x);
  }

  // ----- the other three kinds of token -----

  /** Filling the open slot with an operand moves the parser exactly over it. */
  lemma {:induction false} OperandStep<A>(t: Tree<A>, bound: Bound, at: nat, x: Tree<A>, rest: seq<Token<A>>)
    requires t.Open() && t.OnSpine(at) && Slot(t.At(at)) && x.Finished() && x.Whole()
    requires Phrase([Operand(x)] + rest, true) && Phrase(rest, false)
    ensures var u := t.Put(at, Node(t.At(at).op, t.At(at).terms + [x]));
            u.Whole() && Resume(t, bound, [Operand(x)] + rest) == Resume(u, bound, rest)
  {
    var tokens := [Operand(x)] + rest;
    var full := Node(t.At(at).op, t.At(at).terms + [x]);
    SlotIsOpen(t.At(at));
    PutShape(t, at, full);
    if at == 0 {
      OperandHere(t, bound, x, rest);
    } else {
      OperandStep(t.Last(), Under(t.op), at - 1, x, rest);
      ResumeInside(t, bound, tokens, t.Last().Put(at - 1, full), rest);
    }
  }

  lemma OperandHere<A>(t: Tree<A>, bound: Bound, x: Tree<A>, rest: seq<Token<A>>)
    requires Slot(t) && x.Finished() && x.Whole() && Phrase([Operand(x)] + rest, true) && Phrase(rest, false)
    ensures var u := Node(t.op, t.terms + [x]);
            t.Open() && u.Whole() && Resume(t, bound, [Operand(x)] + rest) == Resume(u, bound, rest)
  {
    SlotIsOpen(t);
    var u := Node(t.op, t.terms + [x]);
    assert ([Operand(x)] + rest)[1..] == rest;
    assert u.Last() == x;
    var (y, more) := Climb(Under(t.op), x, rest);
    assert u.WithLast(y) == Node(t.op, t.terms + [y]);
  }

  /** Opening a prefix in the open slot moves the parser exactly over it. */
  lemma {:induction false} PrefixStep<A>(t: Tree<A>, bound: Bound, at: nat, p: Op, rest: seq<Token<A>>)
    requires t.Open() && t.OnSpine(at) && Slot(t.At(at)) && p.kind.Prefix? && p.WellPowered()
    requires Phrase([Operator(p)] + rest, true) && Phrase(rest, true)
    ensures var u := t.Put(at, Prattify(t.At(at), p).0);
            u.Open() && Resume(t, bound, [Operator(p)] + rest) == Resume(u, bound, rest)
  {
    var tokens := [Operator(p)] + rest;
    var inner := Prattify(t.At(at), p).0;
    PutShape(t, at, inner);
    if at == 0 {
      assert tokens[0] == Operator(p) && tokens[1..] == rest;
      var (x, more) := Parse(Under(p), rest);
      assert [] + [x] == [x];
      var (y, left) := Climb(Under(t.op), Node(p, [x]), more);
      assert Parse(Under(t.op), tokens) == (y, left);
      assert Resume(Node(p, []), Under(t.op), rest) == (y, left);
      assert inner.WithLast(y) == Node(t.op, t.terms + [y]);
    } else {
      PrefixStep(t.Last(), Under(t.op), at - 1, p, rest);
      ResumeInside(t, bound, tokens, t.Last().Put(at - 1, inner), rest);
    }
  }

  /** Where a suffix goes below an operator it binds more tightly than. */
  ghost function Suffixed<A>(t: Tree<A>, s: Op): (u: Tree<A>)
    requires t.Whole() && s.WellPowered() && s.kind.Suffix?
    ensures u.Whole()
  {
    if t.Node? && t.op.kind.Prefix? && t.op.right < s.left then Prattify(t, s).0 else Node(s, [t])
  }

  lemma ClimbTakesSuffix<A>(t: Tree<A>, bound: Bound, s: Op, rest: seq<Token<A>>)
    requires t.Whole() && s.kind.Suffix? && Binds(bound, s)
    requires Phrase([Operator(s)] + rest, false) && Phrase(rest, false)
    ensures Climb(bound, t, [Operator(s)] + rest) == Resume(Node(s, [t]), bound, rest)
  {
    assert ([Operator(s)] + rest)[1..] == rest;
  }

  lemma {:induction false} ChainStops<A>(t: Tree<A>, a: Op, s: Op, rest: seq<Token<A>>, T: set<Op>)
    requires Table(T) && SuffixNonCrossing(T) && a in T && a.Spine() && s in T && s.kind.Suffix?
    requires t.Whole() && Chain(t, T) && s.left < a.right
    requires Phrase([Operator(s)] + rest, false)
    ensures Resume(t, Under(a), [Operator(s)] + rest) == (t, [Operator(s)] + rest)
  {
    if t.Node? && t.op.Spine() {
      assert ClearOfSuffix(a, t.op, s);
      ChainStops(t.Last(), t.op, s, rest, T);
      assert t.WithLast(t.Last()) == t;
    }
  }

  lemma {:induction false} ChainSuffix<A>(t: Tree<A>, a: Op, s: Op, rest: seq<Token<A>>, T: set<Op>)
    requires Table(T) && SuffixNonCrossing(T) && a in T && a.Spine() && s in T && s.kind.Suffix?
    requires t.Whole() && Chain(t, T) && a.right <= s.left
    requires Phrase([Operator(s)] + rest, false) && Phrase(rest, false)
    ensures Resume(t, Under(a), [Operator(s)] + rest) == Resume(Suffixed(t, s), Under(a), rest)
    ensures Chain(Suffixed(t, s), T)
  {
    if t.Leaf? || !t.op.Spine() {
      ClimbTakesSuffix(t, Under(a), s, rest);
    } else if t.op.right < s.left {
      ChainSuffix(t.Last(), t.op, s, rest, T);
      assert Suffixed(t, s) == t.WithLast(Suffixed(t.Last(), s));
      ResumeInside(t, Under(a), [Operator(s)] + rest, Suffixed(t.Last(), s), rest);
    } else {
      assert Untied(t.op, s);
      ChainStops(t.Last(), t.op, s, rest, T);
      assert t.WithLast(t.Last()) == t;
      ClimbTakesSuffix(t, Under(a), s, rest);
    }
  }

  ghost predicate InTable(bound: Bound, T: set<Op>) {
    bound.Under? ==> bound.op in T && bound.op.Spine()
  }

  lemma SuffixHere<A>(t: Tree<A>, bound: Bound, s: Op, rest: seq<Token<A>>, T: set<Op>)
    requires Table(T) && SuffixNonCrossing(T) && s in T && s.kind.Suffix? && InTable(bound, T)
    requires t.Whole() && t.Node? && Nested(t, bound, 0, T)
    requires Phrase([Operator(s)] + rest, false) && Phrase(rest, false)
    ensures Resume(t, bound, [Operator(s)] + rest) == Resume(Prattify(t, s).0, bound, rest)
    ensures Nested(Prattify(t, s).0, bound, 0, T)
  {
    if !t.op.Spine() {
      if bound.Under? {
        var b :| b in T && b.kind.Infix? && Nests(bound.op, b) && bound.op.right <= b.right;
        assert ClearOfSuffix(bound.op, b, s);
      }
      ClimbTakesSuffix(t, bound, s, rest);
    } else if t.op.right <= s.left {
      ChainSuffix(t.Last(), t.op, s, rest, T);
      assert Prattify(t, s).0 == t.WithLast(Suffixed(t.Last(), s));
      ResumeInside(t, bound, [Operator(s)] + rest, Suffixed(t.Last(), s), rest);
    } else {
      ChainStops(t.Last(), t.op, s, rest, T);
      assert t.WithLast(t.Last()) == t;
      assert bound.Under? ==> Nests(bound.op, t.op) && ClearOfSuffix(bound.op, t.op, s);
      ClimbTakesSuffix(t, bound, s, rest);
    }
  }

  ghost function SuffixedAt<A>(t: Tree<A>, top: nat, s: Op): (u: Tree<A>)
    requires t.Whole() && t.OnSpine(top) && t.At(top).Node? && s.kind.Suffix? && s.WellPowered()
    ensures u.Whole()
  {
    WholeAt(t, top);
    PutShape(t, top, Prattify(t.At(top), s).0);
    t.Put(top, Prattify(t.At(top), s).0)
  }

  lemma SuffixedBelow<A>(t: Tree<A>, top: nat, s: Op)
    requires t.Whole() && t.OnSpine(top) && t.At(top).Node? && s.kind.Suffix? && s.WellPowered() && top > 0
    ensures t.Last().Whole() && t.Last().OnSpine(top - 1) && t.Last().At(top - 1).Node?
    ensures SuffixedAt(t, top, s) == t.WithLast(SuffixedAt(t.Last(), top - 1, s))
  {
  }

  /** Applying a suffix at the last attachment point moves the parser exactly over it. */
  lemma {:induction false} SuffixStep<A>(t: Tree<A>, bound: Bound, top: nat, s: Op, rest: seq<Token<A>>, T: set<Op>)
    requires Table(T) && SuffixNonCrossing(T) && s in T && s.kind.Suffix? && InTable(bound, T)
    requires t.Whole() && t.OnSpine(top) && t.At(top).Node? && Nested(t, bound, top, T)
    requires Phrase([Operator(s)] + rest, false) && Phrase(rest, false)
    ensures Resume(t, bound, [Operator(s)] + rest) == Resume(SuffixedAt(t, top, s), bound, rest)
  {
    if top > 0 {
      SuffixedBelow(t, top, s);
      SuffixStep(t.Last(), Under(t.op), top - 1, s, rest, T);
      ResumeInside(t, bound, [Operator(s)] + rest, SuffixedAt(t.Last(), top - 1, s), rest);
    } else {
      SuffixHere(t, bound, s, rest, T);
    }
  }

  // ----- the spine stays nested -----

  lemma {:induction false} ChainFill<A>(t: Tree<A>, at: nat, v: Tree<A>, T: set<Op>)
    requires Chain(t, T) && t.OnSpine(at) && t.Open() && Slot(t.At(at)) && Chain(v, T)
    ensures Chain(t.Put(at, Node(t.At(at).op, t.At(at).terms + [v])), T)
  {
    if at > 0 {
      ChainFill(t.Last(), at - 1, v, T);
    }
  }

  lemma {:induction false} NestedFill<A>(t: Tree<A>, bound: Bound, top: nat, at: nat, v: Tree<A>, T: set<Op>)
    requires Nested(t, bound, top, T) && t.Open() && top <= at && t.OnSpine(at) && Slot(t.At(at)) && Chain(v, T)
    ensures Nested(t.Put(at, Node(t.At(at).op, t.At(at).terms + [v])), bound, top, T)
  {
    if at == 0 {
    } else if top > 0 {
      NestedFill(t.Last(), Under(t.op), top - 1, at - 1, v, T);
    } else {
      ChainFill(t.Last(), at - 1, v, T);
    }
  }

  lemma {:induction false} InsertedNested<A>(t: Tree<A>, bound: Bound, c: Op, T: set<Op>)
    requires Table(T) && c in T && c.kind.Infix? && t.Whole() && Spined(t, bound, T) && Binds(bound, c)
    ensures Nested(Inserted(t, c), bound, InsertedDepth(t, c), T)
    decreases t
  {
    InsertedBelow(t, c);
    if t.Node? && t.op.Spine() && t.op.right < c.left {
      InsertedNested(t.Last(), Under(t.op), c, T);
    }
  }

  lemma {:induction false} ChainSuffixed<A>(t: Tree<A>, s: Op, T: set<Op>)
    requires t.Whole() && Chain(t, T) && s.WellPowered() && s.kind.Suffix?
    ensures Chain(Suffixed(t, s), T)
  {
    if t.Node? && t.op.kind.Prefix? && t.op.right < s.left {
      ChainSuffixed(t.Last(), s, T);
      assert Suffixed(t, s) == t.WithLast(Suffixed(t.Last(), s));
    }
  }

  lemma {:induction false} SuffixNested<A>(t: Tree<A>, bound: Bound, top: nat, s: Op, T: set<Op>)
    requires Table(T) && SuffixesInside(T) && s in T && s.kind.Suffix? && InTable(bound, T)
    requires t.Whole() && t.OnSpine(top) && t.At(top).Node? && Nested(t, bound, top, T)
    ensures Nested(SuffixedAt(t, top, s), bound, top, T)
  {
    if top > 0 {
      SuffixedBelow(t, top, s);
      SuffixNested(t.Last(), Under(t.op), top - 1, s, T);
    } else if t.op.Spine() && t.op.right <= s.left {
      ChainSuffixed(t.Last(), s, T);
      assert Prattify(t, s).0 == t.WithLast(Suffixed(t.Last(), s));
    } else if t.op.Spine() {
      assert bound.Under? ==> Nests(bound.op, t.op) && ClearInside(bound.op, t.op, s);
    }
  }

  // ----- the theorem -----

  /** The state with its spine nested as the table says. */
  ghost predicate Follows<A>(s: State<A>, T: set<Op>) {
    Valid(s) && (s.Run? ==> Nested(s.root, Free, s.top, T))
  }

  lemma NonCrossingInside(T: set<Op>)
    requires SuffixNonCrossing(T)
    ensures SuffixesInside(T)
  {
    forall a, b, s | a in T && b in T && s in T
      ensures ClearInside(a, b, s)
    {
      assert ClearOfSuffix(a, b, s);
    }
  }

  /** One step of the run keeps the spine nested. */
  lemma StepNested<A>(s: State<A>, token: Token<A>, T: set<Op>)
    requires Table(T) && SuffixesInside(T) && Follows(s, T) && Accepts(s, token)
    requires token.Operator? ==> token.op in T
    ensures Follows(Step(s, token), T)
  {
    StepValid(s, token);
    if s.Run? {
      match token
      case Operand(x) =>
        NestedFill(s.root, Free, s.top, s.at, x, T);
      case Operator(op) =>
        if s.root.Leaf? {
        } else if op.kind.Prefix? {
          NestedFill(s.root, Free, s.top, s.at, Node(op, []), T);
        } else if op.kind.Infix? {
          NestedSpined(s.root, Free, s.top, T);
          InsertedNested(s.root, Free, op, T);
        } else {
          SuffixNested(s.root, Free, s.top, op, T);
        }
    }
  }

  /** One step of the run moves the parser exactly over the token. */
  lemma StepFollows<A>(s: State<A>, token: Token<A>, rest: seq<Token<A>>, T: set<Op>)
    requires Table(T) && NonCrossing(T) && Follows(s, T) && Accepts(s, token)
    requires Phrase([token] + rest, Wanting(s)) && Phrase(rest, Wanting(Step(s, token)))
    requires token.Operator? ==> token.op in T
    ensures Follows(Step(s, token), T)
    ensures Fits(Step(s, token).root, rest)
    ensures s.Run? ==> Fits(s.root, [token] + rest)
    ensures Resume(Step(s, token).root, Free, rest) ==
            if s.Start? then Parse(Free, [token] + rest) else Resume(s.root, Free, [token] + rest)
  {
    var s' := Step(s, token);
    StepValid(s, token);
    NonCrossingInside(T);
    StepNested(s, token, T);
    assert ([token] + rest)[0] == token && ([token] + rest)[1..] == rest;
    match token
    case Operand(x) =>
      if s.Run? {
        OperandStep(s.root, Free, s.at, x, rest);
      }
    case Operator(op) =>
      if s.Start? {
        var (x, more) := Parse(Under(op), rest);
        assert [] + [x] == [x];
      } else if s.root.Leaf? {
        if op.kind.Infix? {
          InfixStep(s.root, Free, op, rest, T);
        } else {
          ClimbTakesSuffix(s.root, Free, op, rest);
        }
      } else if op.kind.Prefix? {
        PrefixStep(s.root, Free, s.at, op, rest);
      } else if op.kind.Infix? {
        NestedSpined(s.root, Free, s.top, T);
        InfixStep(s.root, Free, op, rest, T);
      } else {
        SuffixStep(s.root, Free, s.top, op, rest, T);
      }
  }

  lemma {:induction false} RunFollows<A>(s: State<A>, tokens: seq<Token<A>>, T: set<Op>)
    requires Table(T) && NonCrossing(T) && Follows(s, T) && Phrase(tokens, Wanting(s)) && Over(tokens, T)
    requires s.Run? ==> Fits(s.root, tokens)
    ensures RunFrom(s, tokens).Run?
    ensures RunFrom(s, tokens).root == if s.Start? then Meaning(tokens) else Resume(s.root, Free, tokens).0
    decreases |tokens|
  {
    RunIsWhole(s, tokens);
    if tokens == [] {
      ResumeEnd(s.root, Free);
    } else {
      StepValid(s, tokens[0]);
      assert [tokens[0]] + tokens[1..] == tokens;
      StepFollows(s, tokens[0], tokens[1..], T);
      RunFollows(Step(s, tokens[0]), tokens[1..], T);
    }
  }

  lemma {:induction false} ResumeEnd<A>(t: Tree<A>, bound: Bound)
    requires t.Whole()
    ensures Resume(t, bound, []) == (t, [])
  {
    if t.Node? && t.op.Spine() {
      ResumeEnd(t.Last(), Under(t.op));
      assert t.WithLast(t.Last()) == t;
    }
  }

  /** Over a non-crossing table, every run builds what the recursive parser builds. */
  lemma BuiltIsMeaning<A>(tokens: seq<Token<A>>, T: set<Op>)
    requires Table(T) && NonCrossing(T) && Phrase(tokens, true) && Over(tokens, T)
    ensures Built(tokens) == Meaning(tokens)
  {
    RunFollows(Start, tokens, T);
  }

  // ----- a crossing table always has a phrase on which the two disagree -----

  /** The tokens up to an operator's last term, `x` being its first term if it has one. */
  ghost function Opening<A>(a: Op, x: Tree<A>): seq<Token<A>> {
    if a.kind.Infix? then [Operand(x), Operator(a)] else [Operator(a)]
  }

  ghost function Applied<A>(a: Op, x: Tree<A>, last: Tree<A>): Tree<A> {
    Node(a, if a.kind.Infix? then [x, last] else [last])
  }

  lemma OpeningPhrase<A>(a: Op, x: Tree<A>, rest: seq<Token<A>>)
    requires a.Spine() && a.WellPowered() && x.Leaf? && Phrase(rest, true)
    ensures Phrase(Opening(a, x) + rest, true)
    ensures (Opening(a, x) + rest)[|Opening(a, x)|..] == rest
    ensures a.kind.Prefix? ==> (Opening(a, x) + rest)[1..] == rest
    ensures a.kind.Infix? ==> (Opening(a, x) + rest)[1..] == [Operator(a)] + rest && ([Operator(a)] + rest)[1..] == rest
  {
    if a.kind.Infix? {
      assert (Opening(a, x) + rest)[1..] == [Operator(a)] + rest;
      assert ([Operator(a)] + rest)[1..] == rest;
    } else {
      assert (Opening(a, x) + rest)[1..] == rest;
    }
  }

  lemma ParseOpening<A>(bound: Bound, a: Op, x: Tree<A>, rest: seq<Token<A>>)
    requires a.Spine() && a.WellPowered() && x.Leaf? && Phrase(rest, true) && (a.kind.Infix? ==> Binds(bound, a))
    ensures Phrase(Opening(a, x) + rest, true)
    ensures var (r, more) := Parse(Under(a), rest);
            Parse(bound, Opening(a, x) + rest) == Climb(bound, Applied(a, x, r), more)
  {
    OpeningPhrase(a, x, rest);
  }

  /** Two nested operators and the operand they end in. */
  ghost function Nest<A>(a: Op, b: Op, x: Tree<A>, rest: seq<Token<A>>): seq<Token<A>> {
    Opening(a, x) + (Opening(b, x) + ([Operand(x)] + rest))
  }

  lemma NestPhrase<A>(a: Op, b: Op, x: Tree<A>, rest: seq<Token<A>>)
    requires Nests(a, b) && a.WellPowered() && b.WellPowered() && x.Leaf? && Phrase(rest, false)
    ensures Phrase([Operand(x)] + rest, true) && Phrase(Nest(a, b, x, rest), true)
  {
    assert ([Operand(x)] + rest)[1..] == rest;
    OpeningPhrase(b, x, [Operand(x)] + rest);
    OpeningPhrase(a, x, Opening(b, x) + ([Operand(x)] + rest));
  }

  lemma ParseNest<A>(a: Op, b: Op, x: Tree<A>, rest: seq<Token<A>>)
    requires Nests(a, b) && a.WellPowered() && b.WellPowered() && x.Leaf? && Phrase(rest, false)
    ensures Phrase(Nest(a, b, x, rest), true)
    ensures var (r, more) := Climb(Under(b), x, rest);
            var (q, left) := Climb(Under(a), Applied(b, x, r), more);
            Parse(Free, Nest(a, b, x, rest)) == Climb(Free, Applied(a, x, q), left)
  {
    NestPhrase(a, b, x, rest);
    assert ([Operand(x)] + rest)[1..] == rest;
    ParseOpening(Under(a), b, x, [Operand(x)] + rest);
    ParseOpening(Free, a, x, Opening(b, x) + ([Operand(x)] + rest));
  }

  lemma NestOver<A>(a: Op, b: Op, x: Tree<A>, rest: seq<Token<A>>, T: set<Op>)
    requires a in T && b in T && Over(rest, T)
    ensures Over(Nest(a, b, x, rest), T)
  {
    var tail := [Operand(x)] + rest;
    assert Over(tail, T);
    OpeningOver(b, x, tail, T);
    OpeningOver(a, x, Opening(b, x) + tail, T);
  }

  lemma OpeningOver<A>(a: Op, x: Tree<A>, rest: seq<Token<A>>, T: set<Op>)
    requires a in T && Over(rest, T)
    ensures Over(Opening(a, x) + rest, T)
  {
    var n := |Opening(a, x)|;
    assert forall k | n <= k < n + |rest| :: (Opening(a, x) + rest)[k] == rest[k - n];
  }

  lemma RunCons<A>(s: State<A>, token: Token<A>, rest: seq<Token<A>>)
    requires Valid(s) && Phrase([token] + rest, Wanting(s))
    ensures Accepts(s, token) && Valid(Step(s, token)) && Phrase(rest, Wanting(Step(s, token)))
    ensures RunFrom(s, [token] + rest) == RunFrom(Step(s, token), rest)
  {
    assert ([token] + rest)[0] == token && ([token] + rest)[1..] == rest;
    StepValid(s, token);
  }

  /** The run over the first operator leaves its last slot open. */
  lemma RunOpening<A>(a: Op, x: Tree<A>, rest: seq<Token<A>>)
    requires a.Spine() && a.WellPowered() && x.Leaf? && Phrase(rest, true)
    ensures var s := Run(Node(a, if a.kind.Infix? then [x] else []), 0, 0);
            && Valid(s) && Wanting(s) && Phrase(Opening(a, x) + rest, true)
            && RunFrom(Start, Opening(a, x) + rest) == RunFrom(s, rest)
  {
    OpeningPhrase(a, x, rest);
    if a.kind.Infix? {
      assert Opening(a, x) + rest == [Operand(x)] + ([Operator(a)] + rest);
      RunCons(Start, Operand(x), [Operator(a)] + rest);
      RunCons(Run(x, 0, 0), Operator(a), rest);
    } else {
      RunCons(Start, Operator(a), rest);
    }
  }

  /** The run over the second operator and the operand nests it in the first. */
  lemma RunNest<A>(a: Op, b: Op, x: Tree<A>, rest: seq<Token<A>>)
    requires Nests(a, b) && a.WellPowered() && b.WellPowered() && x.Leaf? && Phrase(rest, false)
    ensures Phrase(Nest(a, b, x, rest), true)
    ensures var s := Run(Applied(a, x, Applied(b, x, x)), if b.kind.Infix? then 1 else 0, 1);
            && Valid(s) && s.root.Whole() && !Wanting(s) && RunFrom(Start, Nest(a, b, x, rest)) == RunFrom(s, rest)
  {
    NestPhrase(a, b, x, rest);
    var tail := [Operand(x)] + rest;
    OpeningPhrase(b, x, tail);
    RunOpening(a, x, Opening(b, x) + tail);
    var first := Node(a, if a.kind.Infix? then [x] else []);
    var s := Run(first, 0, 0);
    if b.kind.Infix? {
      RunInfixOpening(a, b, x, tail);
      RunLast(a, b, x, Run(Applied(a, x, Node(b, [x])), 1, 1), rest);
    } else {
      RunCons(s, Operator(b), tail);
      var s2 := Run(Applied(a, x, Node(b, [])), 0, 1);
      assert Step(s, Operator(b)) == s2;
      RunLast(a, b, x, s2, rest);
    }
  }

  lemma RunInfixOpening<A>(a: Op, b: Op, x: Tree<A>, tail: seq<Token<A>>)
    requires Nests(a, b) && b.kind.Infix? && a.WellPowered() && b.WellPowered() && x.Leaf? && Phrase(tail, true)
    ensures var s := Run(Node(a, if a.kind.Infix? then [x] else []), 0, 0);
            var s' := Run(Applied(a, x, Node(b, [x])), 1, 1);
            && Valid(s) && Wanting(s) && Phrase(Opening(b, x) + tail, true) && Valid(s') && Wanting(s')
            && RunFrom(s, Opening(b, x) + tail) == RunFrom(s', tail)
  {
    OpeningPhrase(b, x, tail);
    var first := Node(a, if a.kind.Infix? then [x] else []);
    SlotIsOpen(first);
    var s := Run(first, 0, 0);
    assert Opening(b, x) + tail == [Operand(x)] + ([Operator(b)] + tail);
    RunCons(s, Operand(x), [Operator(b)] + tail);
    var s1 := Run(Applied(a, x, x), 0, 0);
    assert Step(s, Operand(x)) == s1;
    RunCons(s1, Operator(b), tail);
    NestsInfix(a, b, x);
    assert Step(s1, Operator(b)) == Run(Applied(a, x, Node(b, [x])), 1, 1);
    StepValid(s1, Operator(b));
  }

  lemma NestsInfix<A>(a: Op, b: Op, x: Tree<A>)
    requires Nests(a, b) && b.kind.Infix? && a.WellPowered() && b.WellPowered() && x.Leaf?
    ensures Applicable(Applied(a, x, x), b) && Prattify(Applied(a, x, x), b) == (Applied(a, x, Node(b, [x])), 1)
  {
    var t := Applied(a, x, x);
    assert t.Last() == x && t.WithLast(Node(b, [x])) == Applied(a, x, Node(b, [x]));
  }

  lemma RunLast<A>(a: Op, b: Op, x: Tree<A>, s: State<A>, rest: seq<Token<A>>)
    requires Nests(a, b) && a.WellPowered() && b.WellPowered() && x.Leaf? && Phrase(rest, false)
    requires s == Run(Applied(a, x, Node(b, if b.kind.Infix? then [x] else [])), if b.kind.Infix? then 1 else 0, 1)
    requires Valid(s) && Wanting(s) && Phrase([Operand(x)] + rest, true)
    ensures var s' := Run(Applied(a, x, Applied(b, x, x)), s.top, 1);
            && Valid(s') && s'.root.Whole() && !Wanting(s') && RunFrom(s, [Operand(x)] + rest) == RunFrom(s', rest)
  {
    LastFills(a, b, x);
    RunCons(s, Operand(x), rest);
    StepValid(s, Operand(x));
  }

  lemma LastFills<A>(a: Op, b: Op, x: Tree<A>)
    requires a.Spine() && b.Spine()
    ensures var slot := Node(b, if b.kind.Infix? then [x] else []); var open := Applied(a, x, slot);
            && open.OnSpine(1) && open.At(1) == slot && Node(slot.op, slot.terms + [x]) == Applied(b, x, x)
            && open.Put(1, Applied(b, x, x)) == Applied(a, x, Applied(b, x, x))
  {
    var slot := Node(b, if b.kind.Infix? then [x] else []);
    var open, full := Applied(a, x, slot), Applied(b, x, x);
    assert open.Last() == slot;
    assert open.Put(1, full) == open.WithLast(full) == Applied(a, x, full);
  }

  /** A phrase over the table on which the run and the parser build different trees. */
  ghost predicate Disagrees<A>(tokens: seq<Token<A>>, T: set<Op>) {
    Phrase(tokens, true) && Over(tokens, T) && Built(tokens) != Meaning(tokens)
  }

  /** The run puts a looser infix operator over the whole nest. */
  lemma RunNestThenInfix<A>(a: Op, b: Op, c: Op, x: Tree<A>)
    requires Nests(a, b) && a.WellPowered() && b.WellPowered() && c.WellPowered() && x.Leaf?
    requires c.kind.Infix? && c.left <= a.right
    ensures var tokens := Nest(a, b, x, [Operator(c), Operand(x)]);
            Phrase(tokens, true) && Built(tokens) == Node(c, [Applied(a, x, Applied(b, x, x)), x])
  {
    var rest := [Operator(c), Operand(x)];
    assert rest[1..] == [Operand(x)];
    RunNest(a, b, x, rest);
    var nested := Applied(a, x, Applied(b, x, x));
    var s := Run(nested, if b.kind.Infix? then 1 else 0, 1);
    assert rest == [Operator(c)] + [Operand(x)];
    RunCons(s, Operator(c), [Operand(x)]);
    var s1 := Run(Node(c, [nested]), 0, 0);
    assert Step(s, Operator(c)) == s1;
    assert [Operand(x)] == [Operand(x)] + [];
    RunCons(s1, Operand(x), []);
    assert [nested] + [x] == [nested, x];
  }

  /** The parser puts an infix operator that binds inside the inner one there. */
  lemma ParseNestThenInfix<A>(a: Op, b: Op, c: Op, x: Tree<A>)
    requires Nests(a, b) && a.WellPowered() && b.WellPowered() && c.WellPowered() && x.Leaf?
    requires c.kind.Infix? && b.right < c.left
    ensures var tokens := Nest(a, b, x, [Operator(c), Operand(x)]);
            Phrase(tokens, true) && Meaning(tokens) == Applied(a, x, Applied(b, x, Node(c, [x, x])))
  {
    var rest := [Operator(c), Operand(x)];
    assert rest[1..] == [Operand(x)];
    ParseNest(a, b, x, rest);
    assert Parse(Under(c), [Operand(x)]) == (x, []);
    assert Climb(Under(b), x, rest) == (Node(c, [x, x]), []);
  }

  lemma InfixCrossingDisagrees<A>(a: Op, b: Op, c: Op, x: Tree<A>, T: set<Op>) returns (tokens: seq<Token<A>>)
    requires Table(T) && a in T && b in T && c in T && !ClearOfInfix(a, b, c) && x.Leaf?
    ensures Disagrees(tokens, T)
  {
    tokens := Nest(a, b, x, [Operator(c), Operand(x)]);
    NestOver(a, b, x, [Operator(c), Operand(x)], T);
    RunNestThenInfix(a, b, c, x);
    ParseNestThenInfix(a, b, c, x);
    assert Built(tokens).terms[0].Node? && (a.kind.Infix? ==> Meaning(tokens).terms[0] == x);
  }

  lemma SuffixCrossingDisagrees<A>(a: Op, b: Op, s: Op, x: Tree<A>, T: set<Op>) returns (tokens: seq<Token<A>>)
    requires Table(T) && a in T && b in T && s in T && x.Leaf?
    requires !ClearOfSuffix(a, b, s) || (a == b && !Untied(b, s))
    ensures Disagrees(tokens, T)
  {
    var rest := [Operator(s)];
    assert rest[1..] == [];
    tokens := Nest(a, b, x, rest);
    NestOver(a, b, x, rest, T);
    RunNest(a, b, x, rest);
    var inner := Applied(b, x, x);
    var nested := Applied(a, x, inner);
    var top := if b.kind.Infix? then 1 else 0;
    var before := Run(nested, top, 1);
    assert rest == [Operator(s)] + [];
    RunCons(before, Operator(s), []);
    ParseNest(a, b, x, rest);
    if b.kind.Infix? {
      assert nested.At(1) == inner;
      assert Built(tokens) == nested.Put(1, Node(s, [inner])) == nested.WithLast(Node(s, [inner]));
      assert Meaning(tokens) == Node(s, [nested]);
      assert Built(tokens).op == a && Meaning(tokens).op == s;
    } else if a.right <= s.left {
      assert Built(tokens) == nested.WithLast(Node(s, [inner]));
      assert Meaning(tokens) == Applied(a, x, Applied(b, x, Node(s, [x])));
      assert Built(tokens).Last().op != Meaning(tokens).Last().op;
    } else {
      assert Built(tokens) == Node(s, [nested]);
      assert Meaning(tokens).op == a && Built(tokens).op == s;
    }
  }

  /**
   The in-place insertion builds the recursive parser's tree on every phrase
   over a table exactly when the table is non-crossing.
   */
  lemma AgreementIsNonCrossing<A>(T: set<Op>, x: Tree<A>)
    requires Table(T) && x.Leaf?
    ensures NonCrossing(T) <==> forall tokens: seq<Token<A>> :: !Disagrees(tokens, T)
  {
    if NonCrossing(T) {
      forall tokens: seq<Token<A>>
        ensures !Disagrees(tokens, T)
      {
        if Phrase(tokens, true) && Over(tokens, T) {
          BuiltIsMeaning(tokens, T);
        }
      }
    } else if !InfixNonCrossing(T) {
      var a, b, c :| a in T && b in T && c in T && !ClearOfInfix(a, b, c);
      var tokens := InfixCrossingDisagrees(a, b, c, x, T);
    } else if exists b, s :: b in T && s in T && !Untied(b, s) {
      var b, s :| b in T && s in T && !Untied(b, s);
      var tokens := SuffixCrossingDisagrees(b, b, s, x, T);
    } else {
      var a, b, s :| a in T && b in T && s in T && !ClearOfSuffix(a, b, s);
      var tokens := SuffixCrossingDisagrees(a, b, s, x, T);
    }
  }
}
