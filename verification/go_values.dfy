/**
 The Go representation on values: every node has all its slots from the
 start, an unfilled one holding a sentinel, and every rule holds the root.
 */
module GoValues {
  import opened Operators
  import P = Pratt

  /** What a slot that is not a node holds. */
  datatype Slot<A> = Unfilled | Filled(atom: A)

  /** A sequence of sentinels. */
  function Sentinels<A>(n: nat): seq<Tree<Slot<A>>> {
    seq(n, _ => Leaf(Unfilled))
  }

  /** A new node: the given terms, and a sentinel in every other slot. */
  function Made<A>(op: Op, terms: seq<Tree<Slot<A>>>): Tree<Slot<A>> {
    Node(op, terms + Sentinels(if |terms| < op.Terms() then op.Terms() - |terms| else 0))
  }

  /** The Go form of an expression: sentinels in the missing slots. A group is held as it was built. */
  ghost function Pad<A>(t: Tree<A>): Tree<Slot<A>> {
    match t
    case Leaf(a) => Leaf(Filled(a))
    case Node(op, terms) => if op.Closed() then Node(op, Pads(t)) else Made(op, Pads(t))
  }

  ghost function Pads<A>(t: Tree<A>): seq<Tree<Slot<A>>>
    requires t.Node?
    decreases t, 0
  {
    seq(|t.terms|, k requires 0 <= k < |t.terms| => Pad(t.terms[k]))
  }

  /** Erase the sentinels: the plain expression a Go tree stands for. */
  ghost function Clean<A>(t: Tree<Slot<A>>): Tree<A>
    requires t.Node? || t.atom.Filled?
  {
    if t.Leaf? then Leaf(t.atom.atom) else Node(t.op, CleanFrom(t, 0))
  }

  ghost function CleanFrom<A>(t: Tree<Slot<A>>, k: nat): seq<Tree<A>>
    requires t.Node? && k <= |t.terms|
    decreases t, 0, |t.terms| - k
  {
    if k == |t.terms| then
      []
    else if t.terms[k] == Leaf(Unfilled) then
      CleanFrom(t, k + 1)
    else
      [Clean(t.terms[k])] + CleanFrom(t, k + 1)
  }

  /** How many slots of the operators outside groups are unfilled. */
  ghost function Holes<A>(t: Tree<Slot<A>>): nat {
    if t.Leaf? then (if t.atom.Unfilled? then 1 else 0)
    else if t.op.Closed() then 0
    else HolesFrom(t, 0)
  }

  ghost function HolesFrom<A>(t: Tree<Slot<A>>, k: nat): nat
    requires t.Node? && k <= |t.terms|
    decreases t, 0, |t.terms| - k
  {
    if k == |t.terms| then 0 else Holes(t.terms[k]) + HolesFrom(t, k + 1)
  }

  // ----- the Go operations -----

  datatype Found<T> = Missing | Found(value: T)

  /** Fill the first sentinel, children before the node's own slots. */
  ghost function Fill<A>(t: Tree<Slot<A>>, v: Tree<Slot<A>>): Found<Tree<Slot<A>>>
    decreases t, 1, 0
  {
    if t.Leaf? then
      Missing
    else
      match FillBelow(t, v, 0)
      case Found(u) => Found(u)
      case Missing => FillHere(t, v, 0)
  }

  ghost function FillBelow<A>(t: Tree<Slot<A>>, v: Tree<Slot<A>>, k: nat): Found<Tree<Slot<A>>>
    requires t.Node?
    decreases t, 0, if k <= |t.terms| then |t.terms| - k else 0
  {
    if k >= |t.terms| || k >= t.op.Terms() then
      Missing
    else
      match Fill(t.terms[k], v)
      case Found(u) => Found(Node(t.op, t.terms[k := u]))
      case Missing => FillBelow(t, v, k + 1)
  }

  ghost function FillHere<A>(t: Tree<Slot<A>>, v: Tree<Slot<A>>, k: nat): Found<Tree<Slot<A>>>
    requires t.Node?
    decreases if k <= |t.terms| then |t.terms| - k else 0
  {
    if k >= |t.terms| || k >= t.op.Terms() then Missing
    else if t.terms[k] == Leaf(Unfilled) then Found(Node(t.op, t.terms[k := v]))
    else FillHere(t, v, k + 1)
  }

  /** The root after a new operator is embedded: rewritten in place, except that a paren is wrapped by a new root. */
  ghost function GoPrattify<A>(t: Tree<Slot<A>>, op: Op): Tree<Slot<A>>
    requires t.Node? && (op.Spine() || op.kind.Suffix?)
    decreases t
  {
    if t.op.kind.Paren? then
      Made(op, [t])
    else if op.kind.Infix? then
      if t.op.kind.Suffix? || op.left <= t.op.right then
        Made(op, [t])
      else if t.op.Terms() <= |t.terms| then
        var last := t.terms[t.op.Terms() - 1];
        Node(t.op, t.terms[t.op.Terms() - 1 :=
          if last.Node? && !last.op.Closed() && last.op.right < op.left then GoPrattify(last, op) else Made(op, [last])])
      else
        t
    else if op.kind.Prefix? then
      match Fill(t, Made(op, []))
      case Found(u) => u
      case Missing => if t.op.Terms() <= |t.terms| then Node(t.op, t.terms[t.op.Terms() - 1 := Made(op, [])]) else t
    else
      if !t.op.kind.Suffix? && t.op.right <= op.left && t.op.Terms() <= |t.terms| then
        var last := t.terms[t.op.Terms() - 1];
        Node(t.op, t.terms[t.op.Terms() - 1 :=
          if last.Node? && last.op.Spine() && last.op.right < op.left then GoPrattify(last, op) else Made(op, [last])])
      else
        Made(op, [t])
  }

  // ----- the two representations agree -----

  /** No slot is unfilled anywhere, inside groups included. */
  ghost predicate Solid<A>(t: Tree<A>) {
    t.Node? ==> (t.op.Closed() || |t.terms| == t.op.Terms()) && forall k | 0 <= k < |t.terms| :: Solid(t.terms[k])
  }

  /** What is inside groups is solid. */
  ghost predicate SolidGroups<A>(t: Tree<A>) {
    t.Node? ==> forall k | 0 <= k < |t.terms| :: if t.op.Closed() then Solid(t.terms[k]) else SolidGroups(t.terms[k])
  }

  lemma {:induction false} WholeSolid<A>(t: Tree<A>)
    requires t.Whole() && SolidGroups(t)
    ensures Solid(t)
  {
    if t.Node? && !t.op.Closed() {
      forall k | 0 <= k < |t.terms|
        ensures Solid(t.terms[k])
      {
        WholeSolid(t.terms[k]);
      }
    }
  }

  lemma PadShape<A>(t: Tree<A>)
    requires t.Node?
    ensures Pad(t).Node? && Pad(t).op == t.op && |t.terms| <= |Pad(t).terms|
    ensures forall k | 0 <= k < |t.terms| :: Pad(t).terms[k] == Pad(t.terms[k])
    ensures forall k | |t.terms| <= k < |Pad(t).terms| :: Pad(t).terms[k] == Leaf(Unfilled)
    ensures t.op.Closed() ==> |Pad(t).terms| == |t.terms|
    ensures !t.op.Closed() && |t.terms| <= t.op.Terms() ==> |Pad(t).terms| == t.op.Terms()
  {
  }

  lemma {:induction false} PadFilled<A>(t: Tree<A>)
    ensures Pad(t) != Leaf(Unfilled)
  {
  }

  /** A finished expression has no slot to fill. */
  lemma {:induction false} FillSolid<A>(t: Tree<A>, v: Tree<Slot<A>>)
    requires Solid(t)
    ensures Fill(Pad(t), v) == Missing
    decreases t, 1
  {
    if t.Node? {
      PadShape(t);
      FillSolidBelow(t, v, 0);
      FillHereMissing(t, v, 0);
    }
  }

  lemma {:induction false} FillSolidBelow<A>(t: Tree<A>, v: Tree<Slot<A>>, k: nat)
    requires t.Node? && (t.op.Closed() || |t.terms| <= t.op.Terms())
    requires forall j | k <= j < |t.terms| :: Solid(t.terms[j])
    ensures FillBelow(Pad(t), v, k) == Missing
    decreases t, 0, t.op.Terms() - k
  {
    PadShape(t);
    if k < |Pad(t).terms| && k < t.op.Terms() {
      if k < |t.terms| {
        FillSolid(t.terms[k], v);
      }
      FillSolidBelow(t, v, k + 1);
    }
  }

  lemma {:induction false} FillHereMissing<A>(t: Tree<A>, v: Tree<Slot<A>>, k: nat)
    requires t.Node? && (t.op.Closed() || |t.terms| == t.op.Terms())
    ensures FillHere(Pad(t), v, k) == Missing
    decreases t.op.Terms() - k
  {
    PadShape(t);
    if k < |Pad(t).terms| && k < t.op.Terms() {
      PadFilled(t.terms[k]);
      FillHereMissing(t, v, k + 1);
    }
  }

  lemma LeadsSolid<A>(t: Tree<A>)
    requires t.Open() && SolidGroups(t)
    ensures forall k | 0 <= k < |t.terms| && k < t.op.Terms() - 1 :: Solid(t.terms[k])
    ensures |t.terms| == t.op.Terms() ==> SolidGroups(t.Last())
  {
    forall k | 0 <= k < |t.terms| && k < t.op.Terms() - 1
      ensures Solid(t.terms[k])
    {
      WholeSolid(t.terms[k]);
    }
  }

  /** The first term of an open node, if it has one, is passed over. */
  lemma FillSkips<A>(t: Tree<A>, v: Tree<Slot<A>>)
    requires t.Open() && SolidGroups(t)
    ensures FillBelow(Pad(t), v, 0) == FillBelow(Pad(t), v, t.op.Terms() - 1)
    ensures FillHere(Pad(t), v, 0) == FillHere(Pad(t), v, t.op.Terms() - 1)
  {
    LeadsSolid(t);
    PadShape(t);
    if t.op.kind.Infix? {
      FillSolid(t.terms[0], v);
      PadFilled(t.terms[0]);
    }
  }

  /** Filling the Go root puts the value exactly where the attachment point takes its next term. */
  lemma {:induction false} FillOpen<A>(t: Tree<A>, at: nat, v: Tree<A>)
    requires t.Open() && SolidGroups(t) && t.OnSpine(at) && P.Slot(t.At(at))
    ensures Fill(Pad(t), Pad(v)) == Found(Pad(t.Put(at, Node(t.At(at).op, t.At(at).terms + [v]))))
  {
    var full := Node(t.At(at).op, t.At(at).terms + [v]);
    var u := t.Put(at, full);
    var last := t.op.Terms() - 1;
    FillSkips(t, Pad(v));
    PadShape(t);
    PadShape(u);
    if at == 0 {
      assert FillBelow(Pad(t), Pad(v), last) == Missing;
      assert Fill(Pad(t), Pad(v)) == Found(Node(t.op, Pad(t).terms[last := Pad(v)]));
    } else {
      LeadsSolid(t);
      FillOpen(t.Last(), at - 1, v);
      assert Fill(Pad(t), Pad(v)) == Found(Node(t.op, Pad(t).terms[last := Pad(u.Last())]));
    }
    assert Pad(u).terms == Pad(t).terms[last := Pad(u.terms[last])];
  }

  lemma PadWithLast<A>(t: Tree<A>, x: Tree<A>)
    requires t.Node? && t.op.Spine() && |t.terms| == t.op.Terms()
    ensures Pad(t.WithLast(x)) == Node(t.op, Pad(t).terms[t.op.Terms() - 1 := Pad(x)])
    ensures |Pad(t).terms| == t.op.Terms() && Pad(t).terms[t.op.Terms() - 1] == Pad(t.Last())
  {
    PadShape(t);
    PadShape(t.WithLast(x));
    assert Pad(t.WithLast(x)).terms == Pad(t).terms[t.op.Terms() - 1 := Pad(x)];
  }

  lemma PadSingle<A>(op: Op, x: Tree<A>)
    requires !op.Closed()
    ensures Pad(Node(op, [x])) == Made(op, [Pad(x)])
  {
    assert Pads(Node(op, [x])) == [Pad(x)];
  }

  /** An infix operator embedded in the Go root gives the Go form of the tree the attachment-point core gives. */
  lemma {:induction false} PadInfix<A>(t: Tree<A>, op: Op)
    requires P.Applicable(t, op) && op.kind.Infix?
    ensures GoPrattify(Pad(t), op) == Pad(P.Prattify(t, op).0)
    decreases t
  {
    PadShape(t);
    PadSingle(op, t);
    if t.op.kind.Suffix? || op.left <= t.op.right {
    } else {
      var last := t.Last();
      PadWithLast(t, last);
      PadSingle(op, last);
      if last.Node? {
        PadShape(last);
      }
      if last.Node? && last.op.right < op.left {
        PadInfix(last, op);
        PadWithLast(t, P.Prattify(last, op).0);
      } else {
        PadWithLast(t, Node(op, [last]));
      }
    }
  }

  lemma PadPrefix<A>(op: Op)
    requires op.kind.Prefix?
    ensures Pad<A>(Node(op, [])) == Made(op, [])
  {
    assert Pads<A>(Node(op, [])) == [];
  }

  // ----- a run -----

  datatype Root<A> = NoRoot | Root(tree: Tree<Slot<A>>)

  /** One rule action: an operand fills the root's next slot, an operator is embedded in the root. */
  ghost function GoStep<A>(r: Root<A>, token: Token<A>): Root<A>
    requires token.Operator? ==> token.op.Spine() || token.op.kind.Suffix?
  {
    match token
    case Operand(x) =>
      if r.NoRoot? then Root(Pad(x))
      else (match Fill(r.tree, Pad(x)) case Found(u) => Root(u) case Missing => r)
    case Operator(op) =>
      if r.NoRoot? then Root(Made(op, []))
      else if r.tree.Leaf? then Root(Made(op, [r.tree]))
      else Root(GoPrattify(r.tree, op))
  }

  /** The Go root for a run state. */
  ghost function GoForm<A>(s: P.State<A>): Root<A> {
    if s.Start? then NoRoot else Root(Pad(s.root))
  }

  lemma {:induction false} PrattifyGroups<A>(t: Tree<A>, op: Op)
    requires P.Applicable(t, op) && SolidGroups(t)
    ensures SolidGroups(P.Prattify(t, op).0)
    decreases t
  {
    var u := P.Prattify(t, op).0;
    if op.kind.Prefix? {
    } else if u != Node(op, [t]) && u.Last() != Node(op, [t.Last()]) {
      PrattifyGroups(t.Last(), op);
    }
  }

  lemma {:induction false} PutGroups<A>(t: Tree<A>, depth: nat, u: Tree<A>)
    requires t.OnSpine(depth) && SolidGroups(t)
    ensures SolidGroups(t.At(depth)) && (SolidGroups(u) ==> SolidGroups(t.Put(depth, u)))
  {
    if depth > 0 {
      PutGroups(t.Last(), depth - 1, u);
    }
  }

  lemma StepGroups<A>(s: P.State<A>, token: Token<A>)
    requires P.Valid(s) && P.Accepts(s, token) && (s.Run? ==> SolidGroups(s.root))
    requires token.Operand? ==> SolidGroups(token.tree)
    ensures SolidGroups(P.Step(s, token).root)
  {
    if s.Run? {
      match token
      case Operand(x) =>
        var slot := s.root.At(s.at);
        PutGroups(s.root, s.at, Node(slot.op, slot.terms + [x]));
      case Operator(op) =>
        if s.root.Leaf? {
        } else if op.kind.Prefix? {
          PutGroups(s.root, s.at, P.Prattify(s.root.At(s.at), op).0);
          PrattifyGroups(s.root.At(s.at), op);
        } else if op.kind.Infix? {
          PrattifyGroups(s.root, op);
        } else {
          WholeAt(s.root, s.top);
          PutGroups(s.root, s.top, P.Prattify(s.root.At(s.top), op).0);
          PrattifyGroups(s.root.At(s.top), op);
        }
    }
  }

  /** For prefixes, infixes and operands, a Go step on the Go form is the Go form of the step. */
  lemma GoStepAgrees<A>(s: P.State<A>, token: Token<A>)
    requires P.Valid(s) && P.Accepts(s, token) && (s.Run? ==> SolidGroups(s.root))
    requires token.Operator? ==> token.op.Spine()
    ensures GoStep(GoForm(s), token) == GoForm(P.Step(s, token))
  {
    match token
    case Operand(x) =>
      if s.Run? {
        FillOpen(s.root, s.at, x);
      }
    case Operator(op) =>
      if s.Start? {
        PadPrefix<A>(op);
      } else if s.root.Leaf? {
        PadSingle(op, s.root);
      } else if op.kind.Prefix? {
        PadPrefix<A>(op);
        PadShape(s.root);
        FillOpen(s.root, s.at, Node(op, []));
      } else {
        PadInfix(s.root, op);
      }
  }

  ghost function GoRun<A>(r: Root<A>, tokens: seq<Token<A>>): Root<A>
    requires forall k | 0 <= k < |tokens| && tokens[k].Operator? :: tokens[k].op.Spine() || tokens[k].op.kind.Suffix?
    decreases |tokens|
  {
    if tokens == [] then r else GoRun(GoStep(r, tokens[0]), tokens[1..])
  }

  /** Prefixes, infixes and operands whose groups are filled. */
  ghost predicate SuffixFree<A>(tokens: seq<Token<A>>) {
    forall k | 0 <= k < |tokens| ::
      match tokens[k] case Operand(x) => SolidGroups(x) case Operator(op) => op.Spine()
  }

  lemma {:induction false} GoRunAgrees<A>(s: P.State<A>, tokens: seq<Token<A>>)
    requires P.Valid(s) && P.Phrase(tokens, P.Wanting(s)) && SuffixFree(tokens) && (s.Run? ==> SolidGroups(s.root))
    ensures GoRun(GoForm(s), tokens) == GoForm(P.RunFrom(s, tokens))
    decreases |tokens|
  {
    if tokens != [] {
      P.StepValid(s, tokens[0]);
      StepGroups(s, tokens[0]);
      GoStepAgrees(s, tokens[0]);
      GoRunAgrees(P.Step(s, tokens[0]), tokens[1..]);
    }
  }

  // ----- what the Go form says about slots -----

  /** No slot is unfilled after an operand or a suffix, and exactly one after a prefix or an infix operator. */
  lemma {:induction false} HolesPad<A>(t: Tree<A>)
    requires t.Whole() || t.Open()
    ensures Holes(Pad(t)) == if t.Whole() then 0 else 1
    decreases t
  {
    if t.Node? && !t.op.Closed() {
      PadShape(t);
      if t.Whole() {
        HolesWhole(t, 0);
      } else {
        var last := t.op.Terms() - 1;
        var u := Pad(t);
        assert HolesFrom(u, last) == Holes(u.terms[last]) + HolesFrom(u, last + 1);
        if |t.terms| == t.op.Terms() {
          HolesPad(t.Last());
          WholeNotOpen(t.Last());
        }
        if t.op.kind.Infix? {
          HolesPad(t.terms[0]);
          assert HolesFrom(u, 0) == Holes(u.terms[0]) + HolesFrom(u, 1);
        }
      }
    }
  }

  lemma WholeNotOpen<A>(t: Tree<A>)
    ensures t.Open() ==> !t.Whole()
  {
    if t.Whole() {
      P.WholeIsNotOpen(t);
    }
  }

  lemma {:induction false} HolesWhole<A>(t: Tree<A>, k: nat)
    requires t.Whole() && t.Node? && !t.op.Closed() && k <= |t.terms|
    ensures |Pad(t).terms| == |t.terms| && HolesFrom(Pad(t), k) == 0
    decreases t, 0, |t.terms| - k
  {
    PadShape(t);
    if k < |t.terms| {
      HolesPad(t.terms[k]);
      HolesWhole(t, k + 1);
    }
  }

  /** Erasing the sentinels of a Go form gives the expression itself. */
  lemma {:induction false} CleanPad<A>(t: Tree<A>)
    ensures (Pad(t).Node? || Pad(t).atom.Filled?) && Clean(Pad(t)) == t
    decreases t, 1, 0
  {
    if t.Node? {
      PadShape(t);
      CleanPadFrom(t, 0);
      assert t.terms[0..] == t.terms;
    }
  }

  lemma {:induction false} CleanPadFrom<A>(t: Tree<A>, k: nat)
    requires t.Node? && k <= |Pad(t).terms|
    ensures CleanFrom(Pad(t), k) == if k <= |t.terms| then t.terms[k..] else []
    decreases t, 0, |Pad(t).terms| - k
  {
    PadShape(t);
    if k < |Pad(t).terms| {
      CleanPadFrom(t, k + 1);
      if k < |t.terms| {
        PadFilled(t.terms[k]);
        CleanPad(t.terms[k]);
        assert t.terms[k..] == [t.terms[k]] + t.terms[k + 1..];
      }
    }
  }

  /**
   Go refines the canonical core: at every point of every run of prefixes,
   infixes and operands the Go root, its sentinels erased, is the canonical
   root, and it has one unfilled slot while an operand is wanted and none
   otherwise.
   */
  lemma GoRefines<A>(tokens: seq<Token<A>>, n: nat)
    requires P.Phrase(tokens, true) && SuffixFree(tokens) && 0 < n <= |tokens|
    ensures var (go, canonical) := (GoRun(NoRoot, tokens[..n]), P.After(P.Start, tokens, n));
            go.Root? && canonical.Run? && (go.tree.Node? || go.tree.atom.Filled?)
            && Clean(go.tree) == canonical.root
            && Holes(go.tree) == if tokens[n - 1].Operator? then 1 else 0
  {
    GoPrefixAgrees(P.Start, tokens, n);
    var root := P.After(P.Start, tokens, n).root;
    CleanPad(root);
    HolesPad(root);
    WholeNotOpen(root);
  }

  lemma {:induction false} GoPrefixAgrees<A>(s: P.State<A>, tokens: seq<Token<A>>, n: nat)
    requires P.Valid(s) && P.Phrase(tokens, P.Wanting(s)) && SuffixFree(tokens) && n <= |tokens|
    requires s.Run? ==> SolidGroups(s.root)
    ensures GoRun(GoForm(s), tokens[..n]) == GoForm(P.After(s, tokens, n))
    ensures var r := P.After(s, tokens, n);
            n > 0 ==> r.Run? && (r.root.Open() <==> tokens[n - 1].Operator?) && (r.root.Whole() <==> tokens[n - 1].Operand?)
    decreases n
  {
    if n > 0 {
      P.StepValid(s, tokens[0]);
      StepGroups(s, tokens[0]);
      GoStepAgrees(s, tokens[0]);
      GoPrefixAgrees(P.Step(s, tokens[0]), tokens[1..], n - 1);
      assert tokens[..n][0] == tokens[0] && tokens[..n][1..] == tokens[1..][..n - 1];
      assert n == 1 ==> P.After(s, tokens, n) == P.Step(s, tokens[0]);
    }
  }

  // ----- suffixes -----

  /** Whether Go's walk from the root lets the suffix down to the node the canonical core applies it to. */
  ghost predicate Passes<A>(t: Tree<A>, top: nat, s: Op)
    requires t.OnSpine(top)
  {
    top > 0 ==>
      && t.op.right <= s.left
      && (t.Last().Node? && t.Last().op.Spine() ==> t.Last().op.right != s.left)
      && Passes(t.Last(), top - 1, s)
  }

  /** Applied to the same node, the two agree. */
  lemma {:induction false} SuffixHere<A>(t: Tree<A>, s: Op)
    requires P.Applicable(t, s) && s.kind.Suffix? && P.TopIsInnermost(t, 0)
    ensures GoPrattify(Pad(t), s) == Pad(P.Prattify(t, s).0)
    decreases t
  {
    PadShape(t);
    PadSingle(s, t);
    if t.op.Spine() && t.op.right <= s.left {
      var last := t.Last();
      PadWithLast(t, last);
      PadSingle(s, last);
      if last.Node? {
        PadShape(last);
      }
      if last.Node? && last.op.kind.Prefix? && last.op.right < s.left {
        assert P.Prefixes(last);
        SuffixHere(last, s);
        PadWithLast(t, P.Prattify(last, s).0);
      } else {
        PadWithLast(t, Node(s, [last]));
      }
    }
  }

  /**
   A suffix leaves the Go tree equal to the canonical one exactly when every
   operator above the node the canonical core rewrites binds looser on its
   right than the suffix does on its left: otherwise Go stops at one of them.
   */
  lemma {:induction false} SuffixAgreesExactly<A>(t: Tree<A>, top: nat, s: Op)
    requires t.Whole() && t.OnSpine(top) && t.At(top).Node? && P.TopIsInnermost(t, top)
    requires s.kind.Suffix? && s.WellPowered()
    ensures t.At(top).Whole()
    ensures GoPrattify(Pad(t), s) == Pad(t.Put(top, P.Prattify(t.At(top), s).0)) <==> Passes(t, top, s)
    decreases t
  {
    WholeAt(t, top);
    if top == 0 {
      SuffixHere(t, s);
    } else {
      var last := t.Last();
      var inner := last.Put(top - 1, P.Prattify(t.At(top), s).0);
      PadShape(t);
      PadShape(last);
      PadWithLast(t, last);
      PadWithLast(t, inner);
      PadSingle(s, last);
      if last.op.Spine() && last.op.right < s.left {
        SuffixAgreesExactly(last, top - 1, s);
        UpdatesDiffer(Pad(t).terms, t.op.Terms() - 1, GoPrattify(Pad(last), s), Pad(inner));
      } else if top == 1 {
        WrapsHere(last, s);
        UpdatesDiffer(Pad(t).terms, t.op.Terms() - 1, Made(s, [Pad(last)]), Pad(inner));
      } else {
        assert inner == last.WithLast(inner.Last());
        PadShape(inner);
        assert Pad(inner) != Made(s, [Pad(last)]);
        UpdatesDiffer(Pad(t).terms, t.op.Terms() - 1, Made(s, [Pad(last)]), Pad(inner));
      }
    }
  }

  lemma UpdatesDiffer<T>(s: seq<T>, k: nat, x: T, y: T)
    requires k < |s|
    ensures s[k := x] == s[k := y] <==> x == y
  {
    assert s[k := x][k] == x && s[k := y][k] == y;
  }

  /** A node the suffix does not enter is wrapped, unless the powers are equal. */
  lemma WrapsHere<A>(t: Tree<A>, s: Op)
    requires P.Applicable(t, s) && s.kind.Suffix? && !(t.op.Spine() && t.op.right < s.left)
    ensures Pad(P.Prattify(t, s).0) == Made(s, [Pad(t)]) <==> !(t.op.Spine() && t.op.right == s.left)
  {
    PadSingle(s, t);
    PadShape(P.Prattify(t, s).0);
  }

  /** Go's walk goes on into a node's last term where the node binds looser; the root may also tie. */
  ghost predicate LetsIn<A>(t: Tree<A>, s: Op, root: bool) {
    t.Node? && t.op.Spine() && (t.op.right < s.left || (root && t.op.right == s.left))
  }

  /** Every node above this depth lets the suffix in, and the one there does not. */
  ghost predicate StopsAt<A>(t: Tree<A>, depth: nat, s: Op, root: bool)
    requires t.OnSpine(depth)
  {
    if depth == 0 then !LetsIn(t, s, root) else LetsIn(t, s, root) && StopsAt(t.Last(), depth - 1, s, false)
  }

  lemma {:induction false} StopsOnce<A>(t: Tree<A>, d: nat, e: nat, s: Op, root: bool)
    requires t.OnSpine(d) && t.OnSpine(e) && StopsAt(t, d, s, root) && StopsAt(t, e, s, root)
    ensures d == e
  {
    if d > 0 {
      StopsOnce(t.Last(), d - 1, e - 1, s, false);
    }
  }

  lemma {:induction false} SuffixPlaced<A>(t: Tree<A>, s: Op) returns (depth: nat)
    requires t.Whole() && t.Node? && s.kind.Suffix? && s.WellPowered()
    ensures t.OnSpine(depth) && StopsAt(t, depth, s, true)
    ensures GoPrattify(Pad(t), s) == Pad(t.Put(depth, Node(s, [t.At(depth)])))
    decreases t
  {
    PadShape(t);
    PadSingle(s, t);
    if !LetsIn(t, s, true) {
      depth := 0;
    } else {
      var last := t.Last();
      PadWithLast(t, last);
      PadSingle(s, last);
      if LetsIn(last, s, false) {
        PadShape(last);
        var below := SuffixPlaced(last, s);
        depth := below + 1;
        PadWithLast(t, last.Put(below, Node(s, [last.At(below)])));
      } else {
        depth := 1;
        if last.Node? {
          PadShape(last);
        }
        assert last.OnSpine(0) && t.At(1) == last;
        PadWithLast(t, Node(s, [last]));
      }
    }
  }

  /**
   Wherever the powers lead it, a Go suffix takes the one node on the right
   spine that the walk stops at, and so is read last.
   */
  lemma SuffixTakes<A>(t: Tree<A>, s: Op) returns (depth: nat)
    requires t.Whole() && t.Node? && s.kind.Suffix? && s.WellPowered()
    ensures t.OnSpine(depth) && StopsAt(t, depth, s, true)
    ensures GoPrattify(Pad(t), s) == Pad(t.Put(depth, Node(s, [t.At(depth)])))
    ensures Clean(GoPrattify(Pad(t), s)) == t.Put(depth, Node(s, [t.At(depth)]))
    ensures Reading(Clean(GoPrattify(Pad(t), s))) == Reading(t) + [Operator(s)]
  {
    depth := SuffixPlaced(t, s);
    SuffixRead(t, depth, s);
    CleanPad(t.Put(depth, Node(s, [t.At(depth)])));
  }

  lemma SuffixRead<A>(t: Tree<A>, depth: nat, s: Op)
    requires t.Whole() && t.OnSpine(depth) && s.kind.Suffix? && s.WellPowered()
    ensures var u := t.Put(depth, Node(s, [t.At(depth)])); u.Whole() && Reading(u) == Reading(t) + [Operator(s)]
  {
    var inner := Node(s, [t.At(depth)]);
    WholeAt(t, depth);
    PutShape(t, depth, inner);
    P.WrapReading(t.At(depth), s);
    var before := ReadingPut(t, depth, inner);
    Associative(before, Reading(t.At(depth)), [Operator(s)]);
  }

  /** The run over `x a x b x`, `b` tighter: a suffix that comes next goes to the node of `b`. */
  lemma TighterRun<A>(x: Tree<A>, a: Op, b: Op)
    requires x.Leaf? && a.WellPowered() && b.WellPowered() && a.kind.Infix? && b.kind.Infix? && a.right < b.left
    ensures var tokens := [Operand(x), Operator(a), Operand(x), Operator(b), Operand(x)];
            P.Phrase(tokens, true) && P.RunFrom(P.Start, tokens) == P.Run(Node(a, [x, Node(b, [x, x])]), 1, 1)
  {
    var tokens := [Operand(x), Operator(a), Operand(x), Operator(b), Operand(x)];
    assert tokens[1..] == [Operator(a), Operand(x), Operator(b), Operand(x)];
    assert tokens[1..][1..] == [Operand(x), Operator(b), Operand(x)];
    assert tokens[1..][1..][1..] == [Operator(b), Operand(x)];
    assert tokens[1..][1..][1..][1..] == [Operand(x)];
    assert tokens[1..][1..][1..][1..][1..] == [];
    var pair := Node(a, [x, x]);
    var s1, s2, s3 := P.Run(x, 0, 0), P.Run(Node(a, [x]), 0, 0), P.Run(pair, 0, 0);
    P.StepValid(P.Start, Operand(x));
    assert P.Step(P.Start, Operand(x)) == s1;
    P.StepValid(s1, Operator(a));
    assert P.Step(s1, Operator(a)) == s2;
    P.StepValid(s2, Operand(x));
    assert [x] + [x] == [x, x] && P.Step(s2, Operand(x)) == s3;
    TighterLast(x, a, b, s3, tokens[1..][1..][1..]);
    var end := P.Run(Node(a, [x, Node(b, [x, x])]), 1, 1);
    assert P.RunFrom(s2, tokens[1..][1..]) == end;
    assert P.RunFrom(s1, tokens[1..]) == end;
  }

  lemma TighterLast<A>(x: Tree<A>, a: Op, b: Op, s: P.State<A>, rest: seq<Token<A>>)
    requires x.Leaf? && a.WellPowered() && b.WellPowered() && a.kind.Infix? && b.kind.Infix? && a.right < b.left
    requires s == P.Run(Node(a, [x, x]), 0, 0) && P.Valid(s) && s.root.Whole() && rest == [Operator(b), Operand(x)]
    ensures P.Phrase(rest, P.Wanting(s)) && P.RunFrom(s, rest) == P.Run(Node(a, [x, Node(b, [x, x])]), 1, 1)
  {
    P.WholeIsNotOpen(s.root);
    assert rest[1..] == [Operand(x)] && rest[1..][1..] == [];
    var s4, s5 := P.Run(Node(a, [x, Node(b, [x])]), 1, 1), P.Run(Node(a, [x, Node(b, [x, x])]), 1, 1);
    P.StepValid(s, Operator(b));
    assert [x, x][1 := Node(b, [x])] == [x, Node(b, [x])];
    assert P.Step(s, Operator(b)) == s4;
    P.StepValid(s4, Operand(x));
    assert s4.root.Last() == Node(b, [x]) && [x] + [x] == [x, x];
    assert s4.root.At(1) == s4.root.Last().At(0) == Node(b, [x]);
    assert s4.root.Put(1, Node(b, [x, x])) == s4.root.WithLast(Node(b, [x, x]));
    assert [x, Node(b, [x])][1 := Node(b, [x, x])] == [x, Node(b, [x, x])];
    assert P.Step(s4, Operand(x)) == s5;
    RunTwo(s, s4, s5, Operator(b), Operand(x), rest);
  }

  lemma RunTwo<A>(s: P.State<A>, mid: P.State<A>, end: P.State<A>, first: Token<A>, second: Token<A>, rest: seq<Token<A>>)
    requires P.Valid(s) && rest == [first, second] && P.Phrase(rest, P.Wanting(s))
    requires P.Accepts(s, first) && P.Step(s, first) == mid && P.Valid(mid) && P.Accepts(mid, second) && P.Step(mid, second) == end
    ensures P.RunFrom(s, rest) == end
  {
    P.StepValid(s, first);
    P.StepValid(mid, second);
    assert rest[1..] == [second] && rest[1..][1..] == [];
    assert P.RunFrom(end, rest[1..][1..]) == end;
    assert P.RunFrom(mid, rest[1..]) == P.RunFrom(end, rest[1..][1..]);
  }

  /** `x a x b x s` with `a` below `b` and `s` below `a`: Go suffixes the whole, the canonical core only `x b x`. */
  lemma LooserSuffixDiffers<A>(x: Tree<A>, a: Op, b: Op, s: Op)
    requires x.Leaf? && a.WellPowered() && b.WellPowered() && s.WellPowered()
    requires a.kind.Infix? && b.kind.Infix? && s.kind.Suffix? && a.right < b.left && s.left < a.right
    ensures var t, tokens := Node(a, [x, Node(b, [x, x])]), [Operand(x), Operator(a), Operand(x), Operator(b), Operand(x)];
            && P.Phrase(tokens, true) && P.RunFrom(P.Start, tokens) == P.Run(t, 1, 1)
            && P.Valid(P.Run(t, 1, 1)) && P.Accepts(P.Run(t, 1, 1), Operator(s))
            && GoPrattify(Pad(t), s) != Pad(P.Step(P.Run(t, 1, 1), Operator(s)).root)
  {
    var t := Node(a, [x, Node(b, [x, x])]);
    TighterRun(x, a, b);
    P.RunIsWhole(P.Start, [Operand(x), Operator(a), Operand(x), Operator(b), Operand(x)]);
    assert t.Last() == Node(b, [x, x]);
    assert t.Last().OnSpine(0) && t.At(1) == t.Last();
    P.WholeIsNotOpen(t);
    SuffixAgreesExactly(t, 1, s);
  }
}
