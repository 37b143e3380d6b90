/**
 An operation is written as a list only where it has to be: written as an
 expression in its place, it would be read as part of another tree.
 */
module ListForms {
  import opened Operators
  import P = Pratt
  import C = Canonical
  import opened Tables
  import opened Rendering
  import opened RenderRuns
  import opened RenderSources
  import opened RoundTrip
  import opened RoundTripProof

  /** How tightly an expression binds. */
  function Loose(t: Tree<Datum>): Binding {
    if t.Node? && t.op.kind.Infix? then Level(t.op.src) else Atom
  }

  predicate FitsLeft(src: string, binding: Binding) {
    !(binding == Infix2 && Level(src) == Infix3)
  }

  predicate FitsRight(src: string, binding: Binding) {
    binding == Atom || (binding == Infix3 && Level(src) == Infix2)
  }

  lemma BindsAsIsLoose(t: Tree<Datum>, binding: Binding)
    requires Sound(t)
    ensures BindsAs(t, binding) <==> binding == Loose(t)
  {
  }

  /** What is under an infix operator of an expression. */
  lemma InfixTerms(t: Tree<Datum>)
    requires Sound(t) && Loose(t) != Atom
    ensures |t.terms| == 2 && Sound(t.terms[0]) && Sound(t.terms[1]) && InfixOf(t.op.src) == Some(t.op)
    ensures FitsLeft(t.op.src, Loose(t.terms[0])) && FitsRight(t.op.src, Loose(t.terms[1]))
  {
    assert t.op in DEFAULTS && t.Last() == t.terms[1];
    assert C.LeftFits(t.op, t.terms[0]) && C.RightFits(t.op, t.terms[1]);
  }

  lemma JoinsSound(src: string, a: Tree<Datum>, b: Tree<Datum>)
    requires InfixOf(src).Some? && Sound(a) && Sound(b) && FitsLeft(src, Loose(a)) && FitsRight(src, Loose(b))
    ensures var t := Node(InfixOf(src).value, [a, b]);
            Sound(t) && Loose(t) == Level(src) && Reading(t) == Reading(a) + [Operator(t.op)] + Reading(b)
  {
    BindsAsIsLoose(a, Loose(a));
    BindsAsIsLoose(b, Loose(b));
    SoundInfix(src, a, Loose(a), b, Loose(b));
    OpsBySource(src);
    C.InfixReading(Node(InfixOf(src).value, [a, b]));
  }

  // ----- what an expression in the wrong place is read as -----

  /** An infix operator between two expressions, the second left as an expression. */
  ghost function Over(src: string, a: Tree<Datum>, b: Tree<Datum>): Tree<Datum>
    requires InfixOf(src).Some?
    decreases b
  {
    if FitsRight(src, Loose(b)) || |b.terms| != 2 then Node(InfixOf(src).value, [a, b])
    else Node(b.op, [Over(src, a, b.terms[0]), b.terms[1]])
  }

  lemma {:induction false} OverIsRead(src: string, a: Tree<Datum>, b: Tree<Datum>)
    requires InfixOf(src).Some? && Sound(a) && Sound(b) && FitsLeft(src, Loose(a))
    ensures var t := Over(src, a, b);
            && Sound(t) && Reading(t) == Reading(a) + [Operator(InfixOf(src).value)] + Reading(b)
            && Loose(t) == if FitsRight(src, Loose(b)) then Level(src) else Loose(b)
    decreases b
  {
    if FitsRight(src, Loose(b)) {
      JoinsSound(src, a, b);
    } else {
      InfixTerms(b);
      OverIsRead(src, a, b.terms[0]);
      LeadMoves(Reading(a) + [Operator(InfixOf(src).value)], b, Over(src, a, b.terms[0]));
    }
  }

  /** What comes before an operation's first term comes before the operation. */
  lemma LeadMoves(lead: seq<Token<Datum>>, b: Tree<Datum>, first: Tree<Datum>)
    requires Sound(b) && Loose(b) != Atom && |b.terms| == 2
    requires Sound(first) && FitsLeft(b.op.src, Loose(first)) && Reading(first) == lead + Reading(b.terms[0])
    ensures var t := Node(b.op, [first, b.terms[1]]);
            Sound(t) && Loose(t) == Loose(b) && Reading(t) == lead + Reading(b)
  {
    InfixTerms(b);
    JoinsSound(b.op.src, first, b.terms[1]);
    C.InfixReading(b);
    FourReadings(lead, Reading(b.terms[0]), [Operator(b.op)], Reading(b.terms[1]));
  }

  lemma FourReadings<T>(a: seq<T>, b: seq<T>, c: seq<T>, d: seq<T>)
    ensures a + b + c + d == a + (b + c + d)
  {
  }

  /** A prefix operator before an expression left as an expression. */
  ghost function Ahead(src: string, t: Tree<Datum>): Tree<Datum>
    requires PrefixOf(src).Some?
    decreases t
  {
    if Loose(t) == Atom || |t.terms| != 2 then Node(PrefixOf(src).value, [t])
    else Node(t.op, [Ahead(src, t.terms[0]), t.terms[1]])
  }

  lemma {:induction false} AheadIsRead(src: string, t: Tree<Datum>)
    requires PrefixOf(src).Some? && Sound(t)
    ensures var u := Ahead(src, t);
            Sound(u) && Reading(u) == [Operator(PrefixOf(src).value)] + Reading(t) && Loose(u) == Loose(t)
    decreases t
  {
    OpsBySource(src);
    if Loose(t) == Atom {
      BindsAsIsLoose(t, Atom);
      SoundPrefix(src, t);
      C.PrefixReading(Node(PrefixOf(src).value, [t]));
    } else {
      InfixTerms(t);
      AheadIsRead(src, t.terms[0]);
      LeadMoves([Operator(PrefixOf(src).value)], t, Ahead(src, t.terms[0]));
    }
  }

  // ----- what a text is read as -----

  /** A document of this text alone reads as the value. */
  ghost predicate ReadsAs(text: Text, d: Datum) {
    ReadDocument(text + [Break]) == Some(Normal(d))
  }

  /** Whatever tree has the text's tokens is what is read, if it is canonical. */
  lemma ReadsTree(text: Text, t: Tree<Datum>, u: Tree<Datum>)
    requires ReadTokens(text + [Break], true) == Before(Reading(t), ReadTokens([Break], false))
    requires Sound(u) && Reading(u) == Reading(t)
    ensures ReadDocument(text + [Break]) == Some(ToDatum(u))
  {
    DefaultsAreNonCrossing();
    C.BuiltReadsBack(u, DEFAULTS);
    assert Reading(t) + [] == Reading(t);
  }

  lemma ProperPart(d: Datum, k: nat)
    requires d.List? && k < |d.items|
    ensures d.items[k] != d
  {
    assert d decreases to d.items[k];
  }

  /** The list form of a value and its expression form, whichever is asked for, is what is read before the rest. */
  lemma InfixText(l: Datum, asLeft: bool, src: string, r: Datum, asRight: bool)
    requires InfixOf(src).Some? && (asLeft || l.List?) && (asRight || r.List?)
    ensures ReadTokens(TermText(l, asLeft) + [Sign(src)] + TermText(r, asRight) + [Break], true)
         == Before(Reading(Node(InfixOf(src).value, [TermTree(l, asLeft), TermTree(r, asRight)])), ReadTokens([Break], false))
  {
    TermReads(l, asLeft, [Sign(src)] + (TermText(r, asRight) + [Break]));
    TermReads(r, asRight, [Break]);
    InfixPieces(TermText(l, asLeft), src, TermText(r, asRight), [Break], TermTree(l, asLeft), TermTree(r, asRight));
  }

  lemma TermLoose(d: Datum, asText: bool)
    ensures SoundTerm(d, asText) && Loose(TermTree(d, asText)) == TermBinding(d, asText)
    ensures TermBinding(d, asText) != Atom ==> asText && d.List?
  {
    TermIsSound(d, asText);
    BindsAsIsLoose(TermTree(d, asText), TermBinding(d, asText));
  }

  // ----- where a list is written -----

  /** The tree an infix operation's text, its terms written as asked, is read as. */
  ghost function InfixRead(src: string, a: Tree<Datum>, b: Tree<Datum>): Tree<Datum>
    requires InfixOf(src).Some?
  {
    if FitsLeft(src, Loose(a)) || |a.terms| != 2 then Over(src, a, b)
    else Node(a.op, [a.terms[0], Node(InfixOf(src).value, [a.terms[1], b])])
  }

  lemma InfixIsRead(src: string, a: Tree<Datum>, b: Tree<Datum>)
    requires InfixOf(src).Some? && Sound(a) && Sound(b) && (FitsLeft(src, Loose(a)) || FitsRight(src, Loose(b)))
    ensures Sound(InfixRead(src, a, b)) && Reading(InfixRead(src, a, b)) == Reading(Node(InfixOf(src).value, [a, b]))
  {
    C.InfixReading(Node(InfixOf(src).value, [a, b]));
    if FitsLeft(src, Loose(a)) {
      OverIsRead(src, a, b);
    } else {
      InfixTerms(a);
      TailMoves(src, a, b);
    }
  }

  /** What comes after an operation comes after its second term. */
  lemma TailMoves(src: string, a: Tree<Datum>, b: Tree<Datum>)
    requires InfixOf(src).Some? && Sound(a) && Sound(b) && !FitsLeft(src, Loose(a)) && FitsRight(src, Loose(b)) && |a.terms| == 2
    ensures var t := Node(a.op, [a.terms[0], Node(InfixOf(src).value, [a.terms[1], b])]);
            Sound(t) && Reading(t) == Reading(a) + [Operator(InfixOf(src).value)] + Reading(b)
  {
    InfixTerms(a);
    JoinsSound(src, a.terms[1], b);
    JoinsSound(a.op.src, a.terms[0], Node(InfixOf(src).value, [a.terms[1], b]));
    C.InfixReading(a);
    FourReadings(Reading(a.terms[0]) + [Operator(a.op)], Reading(a.terms[1]), [Operator(InfixOf(src).value)], Reading(b));
  }

  /** The operation itself is read exactly where both terms fit. */
  lemma ReadsItself(src: string, a: Tree<Datum>, b: Tree<Datum>)
    requires InfixOf(src).Some? && Sound(a) && Sound(b) && (FitsLeft(src, Loose(a)) || FitsRight(src, Loose(b)))
    ensures ToDatum(InfixRead(src, a, b)) == ToDatum(Node(InfixOf(src).value, [a, b]))
       <==> FitsLeft(src, Loose(a)) && FitsRight(src, Loose(b))
  {
    OpsBySource(src);
    if !FitsLeft(src, Loose(a)) {
      InfixTerms(a);
      assert ToDatum(InfixRead(src, a, b)).items[0] == Value(Str(a.op.src)) && a.op.src != src;
    } else if !FitsRight(src, Loose(b)) {
      InfixTerms(b);
      assert ToDatum(InfixRead(src, a, b)).items[2] == ToDatum(b).items[2];
      ProperPart(ToDatum(b), 2);
    }
  }

  /** An infix operation's text, each of its terms written either way as long as one of them fits, is read as it or as another tree. */
  lemma InfixReadsAs(ds: seq<Datum>, src: string, asLeft: bool, asRight: bool)
    requires ShapeOf(ds) == InfixShape(src) && (asLeft || ds[1].List?) && (asRight || ds[2].List?)
    requires FitsLeft(src, TermBinding(ds[1], asLeft)) || FitsRight(src, TermBinding(ds[2], asRight))
    ensures ReadsAs(TermText(ds[1], asLeft) + [Sign(src)] + TermText(ds[2], asRight), List(ds))
       <==> FitsLeft(src, TermBinding(ds[1], asLeft)) && FitsRight(src, TermBinding(ds[2], asRight))
  {
    var a, b := TermTree(ds[1], asLeft), TermTree(ds[2], asRight);
    TermLoose(ds[1], asLeft);
    TermLoose(ds[2], asRight);
    InfixText(ds[1], asLeft, src, ds[2], asRight);
    InfixIsRead(src, a, b);
    ReadsTree(TermText(ds[1], asLeft) + [Sign(src)] + TermText(ds[2], asRight), Node(InfixOf(src).value, [a, b]), InfixRead(src, a, b));
    NormalInfix(ds, src, a, b);
    ReadsItself(src, a, b);
  }

  /** The first element is a default operator's string, or an object whose last `src` is. */
  ghost predicate LedBy(ds: seq<Datum>, op: string) {
    && ds != [] && op in ["+", "-", "*", "/", "%", "("]
    && (ds[0] == Value(Str(op)) || (ds[0].Object? && exists k: nat :: SourceAt(ds[0].members, k) && Spells(ds[0].members[k].value, op)))
  }

  predicate Spells(d: Datum, op: string) {
    d == Value(Str(op)) || d == Value(Num(NotFinite(op)))
  }

  /** How many elements a list of each operator has where it is an operation. */
  predicate OperationSize(op: string, n: nat) {
    if op == "(" then n == 1 || n == 2 else n == 3 || (n == 2 && op in ["+", "-"])
  }

  lemma LedByHead(ds: seq<Datum>, op: string)
    ensures LedBy(ds, op) <==> HeadOf(ds) == TheOp(op)
  {
    if ds != [] && ds[0].Object? {
      DescribesMeans(ds[0].members, op);
      assert forall k: nat {:trigger Spells(ds[0].members[k].value, op)} | SourceAt(ds[0].members, k) ::
          Spells(ds[0].members[k].value, op) <==> ds[0].members[k].value in [Value(Str(op)), Value(Num(NotFinite(op)))];
    } else if ds != [] && ds[0].List? {
      ListedForm(ds[0].items);
    }
  }

  /** An infix operation's terms are written as expressions exactly where the operation is then read back. */
  lemma ListsInInfix(ds: seq<Datum>, src: string) returns (left: Text, right: Text)
    requires LedBy(ds, src) && |ds| == 3 && src != "("
    ensures Print(List(ds)) == left + [Sign(src)] + right
    ensures left == if ReadsAs(Print(ds[1]) + [Sign(src)] + right, List(ds)) then Print(ds[1]) else ItemOf(ds[1]).list
    ensures right == if ReadsAs(left + [Sign(src)] + Print(ds[2]), List(ds)) then Print(ds[2]) else ItemOf(ds[2]).list
  {
    LedByHead(ds, src);
    OpsBySource(src);
    assert ShapeOf(ds) == InfixShape(src);
    left, right := InfixTexts(ds, src);
  }

  lemma InfixTexts(ds: seq<Datum>, src: string) returns (left: Text, right: Text)
    requires ShapeOf(ds) == InfixShape(src)
    ensures Print(List(ds)) == left + [Sign(src)] + right
    ensures left == if ReadsAs(Print(ds[1]) + [Sign(src)] + right, List(ds)) then Print(ds[1]) else ItemOf(ds[1]).list
    ensures right == if ReadsAs(left + [Sign(src)] + Print(ds[2]), List(ds)) then Print(ds[2]) else ItemOf(ds[2]).list
  {
    var asLeft, asRight := LeftAsText(ItemOf(ds[1]), Level(src)), RightAsText(ItemOf(ds[2]), Level(src));
    left, right := TermText(ds[1], asLeft), TermText(ds[2], asRight);
    InfixForm(ds, src);
    TermLoose(ds[1], asLeft);
    TermLoose(ds[2], asRight);
    InfixReadsAs(ds, src, true, asRight);
    InfixReadsAs(ds, src, asLeft, true);
  }

  /** A prefix operation's term is written as an expression exactly where the operation is then read back. */
  lemma ListsInPrefix(ds: seq<Datum>, src: string) returns (term: Text)
    requires LedBy(ds, src) && |ds| == 2 && src in ["+", "-"]
    ensures Print(List(ds)) == [Sign(src)] + term
    ensures term == if ReadsAs([Sign(src)] + Print(ds[1]), List(ds)) then Print(ds[1]) else ItemOf(ds[1]).list
  {
    LedByHead(ds, src);
    OpsBySource(src);
    assert ShapeOf(ds) == PrefixShape(src);
    term := TermText(ds[1], ItemOf(ds[1]).binding == Atom);
    PrefixForm(ds, src);
    PrefixReadsAs(ds, src);
  }

  /** A group is written in parentheses, its term as an expression; a list is written as one where it is no operation. */
  lemma GroupsAndLists(ds: seq<Datum>)
    ensures LedBy(ds, "(") && |ds| == 1 ==> Print(List(ds)) == [LParen, RParen]
    ensures LedBy(ds, "(") && |ds| == 2 ==> Print(List(ds)) == [LParen] + Print(ds[1]) + [RParen]
    ensures Print(List(ds)) == ItemOf(List(ds)).list <==> forall op | LedBy(ds, op) :: !OperationSize(op, |ds|)
  {
    forall op
      ensures LedBy(ds, op) <==> HeadOf(ds) == TheOp(op)
    {
      LedByHead(ds, op);
    }
    if HeadOf(ds).TheOp? {
      OpsBySource(HeadOf(ds).src);
      assert LedBy(ds, HeadOf(ds).src);
    }
    GroupForm(ds);
    OperationIsNoList(ds);
  }

  /** The list form is read as one operand, and an operation's own text is not. */
  lemma OperationIsNoList(ds: seq<Datum>)
    ensures Print(List(ds)) == ItemOf(List(ds)).list <==> ShapeOf(ds).Listed?
  {
    var d := List(ds);
    ListedForm(ds);
    Reads(d, [Break]);
    ListReads(d, [Break]);
    TextBegins(d);
    OperandThen(ItemOf(d).list, [Break], Leaf(Normal(d)));
    GroupForm(ds);
    match ShapeOf(ds)
    case PrefixShape(src) =>
      PrefixForm(ds, src);
      C.PrefixReading(TreeOf(d));
    case InfixShape(src) =>
      InfixForm(ds, src);
      C.InfixReading(TreeOf(d));
      var k := |Reading(TreeOf(d).terms[0])|;
      assert Reading(TreeOf(d))[k] == Operator(TreeOf(d).op);
    case _ =>
  }

  lemma PrefixReadsAs(ds: seq<Datum>, src: string)
    requires ShapeOf(ds) == PrefixShape(src)
    ensures ReadsAs([Sign(src)] + Print(ds[1]), List(ds)) <==> ItemOf(ds[1]).binding == Atom
  {
    var t := TreeOf(ds[1]);
    PrefixIsRead(ds[1], src);
    PrefixReadsItself(src, t);
    NormalPrefix(ds, src);
  }

  lemma NormalPrefix(ds: seq<Datum>, src: string)
    requires ShapeOf(ds) == PrefixShape(src) && SoundTree(ds[1])
    ensures ToDatum(Node(PrefixOf(src).value, [TreeOf(ds[1])])) == Normal(List(ds))
  {
    OpsBySource(src);
    NormalOperation(ds, PrefixOf(src).value, [TreeOf(ds[1])]);
  }

  lemma PrefixIsRead(d: Datum, src: string)
    requires PrefixOf(src).Some?
    ensures ReadDocument([Sign(src)] + Print(d) + [Break]) == Some(ToDatum(Ahead(src, TreeOf(d))))
    ensures SoundTree(d) && Loose(TreeOf(d)) == ItemOf(d).binding
  {
    var t := TreeOf(d);
    TreeIsSound(d);
    BindsAsIsLoose(t, ItemOf(d).binding);
    Reads(d, [Break]);
    PrefixPieces(src, Print(d), [Break], t);
    AheadIsRead(src, t);
    C.PrefixReading(Node(PrefixOf(src).value, [t]));
    ReadsTree([Sign(src)] + Print(d), Node(PrefixOf(src).value, [t]), Ahead(src, t));
  }

  lemma PrefixReadsItself(src: string, t: Tree<Datum>)
    requires PrefixOf(src).Some? && Sound(t)
    ensures ToDatum(Ahead(src, t)) == ToDatum(Node(PrefixOf(src).value, [t])) <==> Loose(t) == Atom
  {
    if Loose(t) != Atom {
      InfixTerms(t);
      assert |ToDatum(Ahead(src, t)).items| == 3 && |ToDatum(Node(PrefixOf(src).value, [t])).items| == 2;
    }
  }
}
