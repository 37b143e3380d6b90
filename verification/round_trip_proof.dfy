/** Every rendered tree reads back. */
module RoundTripProof {
  import opened Operators
  import P = Pratt
  import C = Canonical
  import R = Reference
  import opened Tables
  import opened Rendering
  import opened RenderRuns
  import opened RenderSimulation
  import opened RenderTheorems
  import opened RoundTrip

  // ----- the expression a value is written as -----

  /** The operator of an expression that is an infix operation binds as its item says. */
  ghost predicate BindsAs(t: Tree<Datum>, binding: Binding) {
    match binding
    case Atom => t.Node? ==> !t.op.kind.Infix?
    case Infix2 => t.Node? && (t.op == ADDITION || t.op == SUBTRACTION)
    case Infix3 => t.Node? && (t.op == MULTIPLICATION || t.op == DIVISION || t.op == REMAINDER)
  }

  /** An expression that can be a tree's operand or term as it stands. */
  ghost predicate Sound(t: Tree<Datum>) {
    C.Expression(t, DEFAULTS) && C.Canon(t)
  }

  lemma NormalAt(ds: seq<Datum>, k: nat)
    requires k < |ds|
    ensures NormalItems(ds)[k] == if k == 0 && HeadOf(ds).TheOp? then Value(Str(HeadOf(ds).src)) else Normal(ds[k])
  {
    if k < |ds| - 1 {
      NormalAt(ds[..|ds| - 1], k);
      assert ds[..|ds| - 1][k] == ds[k];
    }
  }

  lemma NormalMemberAt(ms: seq<Member>, k: nat)
    requires k < |ms|
    ensures NormalMembers(ms)[k] == Member(ms[k].key, Normal(ms[k].value))
  {
    if k < |ms| - 1 {
      NormalMemberAt(ms[..|ms| - 1], k);
    }
  }

  lemma OpsBySource(src: string)
    ensures InfixOf(src).Some? ==> InfixOf(src).value.src == src && InfixOf(src).value in DEFAULTS
                                   && BindsAs(Node(InfixOf(src).value, []), Level(src))
    ensures PrefixOf(src).Some? ==> PrefixOf(src).value.src == src && PrefixOf(src).value in DEFAULTS
                                    && PrefixOf(src).value.kind.Prefix?
    ensures src in OPERATORS && src != "(" ==> InfixOf(src).Some?
    ensures PrefixOf(src).Some? <==> src == "+" || src == "-"
    ensures InfixOf(src).Some? ==> src != "("
  {
  }

  lemma SoundLeaf(d: Datum)
    ensures Sound(Leaf(d)) && BindsAs(Leaf(d), Atom)
  {
  }

  lemma SoundGroup(terms: seq<Tree<Datum>>)
    ensures Sound(Node(PAREN, terms)) && BindsAs(Node(PAREN, terms), Atom)
  {
  }

  lemma SoundPrefix(src: string, t: Tree<Datum>)
    requires PrefixOf(src).Some? && Sound(t) && BindsAs(t, Atom)
    ensures Sound(Node(PrefixOf(src).value, [t])) && BindsAs(Node(PrefixOf(src).value, [t]), Atom)
  {
    OpsBySource(src);
  }

  lemma SoundInfix(src: string, a: Tree<Datum>, ba: Binding, b: Tree<Datum>, bb: Binding)
    requires InfixOf(src).Some? && Sound(a) && Sound(b) && BindsAs(a, ba) && BindsAs(b, bb)
    requires !(ba == Infix2 && Level(src) != Infix2)
    requires bb == Atom || (bb == Infix3 && Level(src) == Infix2)
    ensures Sound(Node(InfixOf(src).value, [a, b])) && BindsAs(Node(InfixOf(src).value, [a, b]), Level(src))
  {
    OpsBySource(src);
    var t := Node(InfixOf(src).value, [a, b]);
    assert t.terms[0] == a && t.terms[1] == b && t.Last() == b;
    LeftFitsHere(src, a, ba);
  }

  lemma LeftFitsHere(src: string, a: Tree<Datum>, ba: Binding)
    requires InfixOf(src).Some? && C.Expression(a, DEFAULTS) && BindsAs(a, ba)
    requires !(ba == Infix2 && Level(src) != Infix2)
    ensures C.LeftFits(InfixOf(src).value, a)
  {
    if a.Node? && a.op.Spine() {
      assert a.op in DEFAULTS;
    }
  }

  // ----- the shapes of a held list -----

  lemma ItemsHere(ds: seq<Datum>)
    requires ds != []
    ensures Items(ds)[0].head == HeadOf(ds) && (HeadOf(ds).TheOp? ==> HeadOf(ds).src in OPERATORS)
    ensures forall k | 1 <= k < |ds| :: Items(ds)[k] == ItemOf(ds[k])
  {
    LeadHead(ds[0]);
    HeadsAreOperators(ds[0]);
    ItemsAt(ds, 0);
    forall k | 1 <= k < |ds|
      ensures Items(ds)[k] == ItemOf(ds[k])
    {
      ItemsAt(ds, k);
    }
  }

  /** Which operation a list is, by its head and its count. */
  datatype Shape = Listed | EmptyGroup | Group | PrefixShape(src: string) | InfixShape(src: string)

  function ShapeOf(ds: seq<Datum>): Shape {
    if HeadOf(ds).NoOp? then Listed
    else
      var src, n := HeadOf(ds).src, |ds|;
      if src == "(" && n == 1 then EmptyGroup
      else if src == "(" && n == 2 then Group
      else if n == 2 && PrefixOf(src).Some? then PrefixShape(src)
      else if n == 3 && InfixOf(src).Some? then InfixShape(src)
      else Listed
  }

  /** A term as its operation writes it: as an expression, or as a list. */
  ghost function TermTree(d: Datum, asText: bool): Tree<Datum> {
    if asText then TreeOf(d) else Leaf(Normal(d))
  }

  ghost function TermBinding(d: Datum, asText: bool): Binding {
    if asText then ItemOf(d).binding else Atom
  }

  /** A list that is no operation. */
  lemma ListedForm(ds: seq<Datum>)
    ensures ItemOf(List(ds)).list == ListText(Items(ds))
    ensures ShapeOf(ds).Listed? ==> ItemOf(List(ds)) == Item(ListText(Items(ds)), Atom, ListText(Items(ds)), NoOp)
    ensures ShapeOf(ds).Listed? ==> TreeOf(List(ds)) == Leaf(Normal(List(ds)))
  {
    if ds != [] {
      ItemsHere(ds);
      if HeadOf(ds).TheOp? {
        OpsBySource(HeadOf(ds).src);
      }
    }
  }

  lemma GroupForm(ds: seq<Datum>)
    ensures ShapeOf(ds).EmptyGroup? ==> Print(List(ds)) == [LParen, RParen] && TreeOf(List(ds)) == Node(PAREN, [])
    ensures ShapeOf(ds).Group? ==> Print(List(ds)) == [LParen] + Print(ds[1]) + [RParen]
                                   && TreeOf(List(ds)) == Node(PAREN, [TreeOf(ds[1])])
    ensures ShapeOf(ds).EmptyGroup? || ShapeOf(ds).Group? ==> ItemOf(List(ds)).binding == Atom
  {
    if ds != [] {
      ItemsHere(ds);
    }
  }

  lemma PrefixForm(ds: seq<Datum>, src: string)
    requires ShapeOf(ds) == PrefixShape(src)
    ensures var asText := ItemOf(ds[1]).binding == Atom;
            && ItemOf(List(ds)).text == [Sign(src)] + TermText(ds[1], asText) && ItemOf(List(ds)).binding == Atom
            && TreeOf(List(ds)) == Node(PrefixOf(src).value, [TermTree(ds[1], asText)])
  {
    ItemsHere(ds);
    OpsBySource(src);
  }

  lemma InfixForm(ds: seq<Datum>, src: string)
    requires ShapeOf(ds) == InfixShape(src)
    ensures var asLeft, asRight := LeftAsText(ItemOf(ds[1]), Level(src)), RightAsText(ItemOf(ds[2]), Level(src));
            && ItemOf(List(ds)).text == TermText(ds[1], asLeft) + [Sign(src)] + TermText(ds[2], asRight)
            && ItemOf(List(ds)).binding == Level(src)
            && TreeOf(List(ds)) == Node(InfixOf(src).value, [TermTree(ds[1], asLeft), TermTree(ds[2], asRight)])
  {
    ItemsHere(ds);
    OpsBySource(src);
    var items := Items(ds);
    assert ItemOf(List(ds)) == InfixItem(TheOp(src), items[1], items[2], ListText(items));
  }

  /** A term's text: as an expression, or as a list. */
  function TermText(d: Datum, asText: bool): Text {
    if asText then Print(d) else ItemOf(d).list
  }

  lemma NormalOperation(ds: seq<Datum>, op: Op, terms: seq<Tree<Datum>>)
    requires HeadOf(ds).TheOp? && op.src == HeadOf(ds).src && |terms| == |ds| - 1
    requires forall k | 0 <= k < |terms| :: ToDatum(terms[k]) == Normal(ds[k + 1])
    ensures ToDatum(Node(op, terms)) == Normal(List(ds))
  {
    forall k | 0 <= k < |ds|
      ensures NormalItems(ds)[k] == if k == 0 then Value(Str(op.src)) else ToDatum(terms[k - 1])
    {
      NormalAt(ds, k);
    }
  }

  /** What is proved of every value: its expression is canonical, binds as its item says, and is the value. */
  ghost predicate SoundTree(d: Datum) {
    Sound(TreeOf(d)) && BindsAs(TreeOf(d), ItemOf(d).binding) && ToDatum(TreeOf(d)) == Normal(d)
  }

  lemma {:induction false} TreeIsSound(d: Datum)
    ensures SoundTree(d)
    decreases d, 0
  {
    if d.List? {
      var ds := d.items;
      match ShapeOf(ds)
      case Listed =>
        ListedForm(ds);
        SoundLeaf(Normal(d));
      case EmptyGroup =>
        GroupIsSound(ds, []);
      case Group =>
        TreeIsSound(ds[1]);
        GroupIsSound(ds, [TreeOf(ds[1])]);
      case PrefixShape(src) =>
        TermIsSound(ds[1], ItemOf(ds[1]).binding == Atom);
        PrefixIsSound(ds, src);
      case InfixShape(src) =>
        TermIsSound(ds[1], LeftAsText(ItemOf(ds[1]), Level(src)));
        TermIsSound(ds[2], RightAsText(ItemOf(ds[2]), Level(src)));
        InfixIsSound(ds, src);
    } else if Negative(d) {
      NegativeIsSound(d);
    } else {
      SoundLeaf(Normal(d));
    }
  }

  lemma NegativeIsSound(d: Datum)
    requires Negative(d)
    ensures SoundTree(d)
  {
    var size := Value(Num(d.scalar.number.(minus := false)));
    SoundLeaf(size);
    SoundPrefix("-", Leaf(size));
    assert ToDatum(TreeOf(d)) == List([Value(Str("-")), size]);
  }

  lemma GroupIsSound(ds: seq<Datum>, terms: seq<Tree<Datum>>)
    requires ShapeOf(ds).EmptyGroup? || ShapeOf(ds).Group?
    requires ShapeOf(ds).EmptyGroup? ==> terms == []
    requires ShapeOf(ds).Group? ==> terms == [TreeOf(ds[1])] && SoundTree(ds[1])
    ensures SoundTree(List(ds))
  {
    GroupForm(ds);
    SoundGroup(terms);
    NormalOperation(ds, PAREN, terms);
  }

  ghost predicate SoundTerm(d: Datum, asText: bool) {
    && Sound(TermTree(d, asText)) && BindsAs(TermTree(d, asText), TermBinding(d, asText))
    && ToDatum(TermTree(d, asText)) == Normal(d)
  }

  lemma PrefixIsSound(ds: seq<Datum>, src: string)
    requires ShapeOf(ds) == PrefixShape(src) && SoundTerm(ds[1], ItemOf(ds[1]).binding == Atom)
    ensures SoundTree(List(ds))
  {
    var t := TermTree(ds[1], ItemOf(ds[1]).binding == Atom);
    PrefixForm(ds, src);
    OpsBySource(src);
    SoundPrefix(src, t);
    NormalOperation(ds, PrefixOf(src).value, [t]);
  }

  lemma InfixIsSound(ds: seq<Datum>, src: string)
    requires ShapeOf(ds) == InfixShape(src)
    requires SoundTerm(ds[1], LeftAsText(ItemOf(ds[1]), Level(src)))
    requires SoundTerm(ds[2], RightAsText(ItemOf(ds[2]), Level(src)))
    ensures SoundTree(List(ds))
  {
    var asLeft, asRight := LeftAsText(ItemOf(ds[1]), Level(src)), RightAsText(ItemOf(ds[2]), Level(src));
    var a, b := TermTree(ds[1], asLeft), TermTree(ds[2], asRight);
    var t := Node(InfixOf(src).value, [a, b]);
    assert Sound(t) && BindsAs(t, Level(src)) by {
      SoundInfix(src, a, TermBinding(ds[1], asLeft), b, TermBinding(ds[2], asRight));
    }
    NormalInfix(ds, src, a, b);
    InfixForm(ds, src);
  }

  lemma NormalInfix(ds: seq<Datum>, src: string, a: Tree<Datum>, b: Tree<Datum>)
    requires ShapeOf(ds) == InfixShape(src) && ToDatum(a) == Normal(ds[1]) && ToDatum(b) == Normal(ds[2])
    ensures ToDatum(Node(InfixOf(src).value, [a, b])) == Normal(List(ds))
  {
    OpsBySource(src);
    NormalOperation(ds, InfixOf(src).value, [a, b]);
  }

  lemma {:induction false} TermIsSound(d: Datum, asText: bool)
    ensures SoundTerm(d, asText)
    decreases d, 1
  {
    if asText {
      TreeIsSound(d);
    } else {
      SoundLeaf(Normal(d));
    }
  }

  // ----- reading pieces -----

  /** Tokens, then what is read after them. */
  ghost function Before(tokens: seq<Token<Datum>>, r: Option<Taken<seq<Token<Datum>>>>): Option<Taken<seq<Token<Datum>>>> {
    if r.None? then None else Some(Taken(tokens + r.value.what, r.value.rest))
  }

  lemma BeforeBoth(a: seq<Token<Datum>>, b: seq<Token<Datum>>, r: Option<Taken<seq<Token<Datum>>>>)
    ensures Before(a, Before(b, r)) == Before(a + b, r)
  {
    if r.Some? {
      Associative(a, b, r.value.what);
    }
  }

  lemma OperandThen(text: Text, rest: Text, t: Tree<Datum>)
    requires text != [] && !text[0].Sign? && t.Finished()
    requires ReadOperand(text + rest) == Some(Taken(t, rest))
    ensures ReadTokens(text + rest, true) == Before(Reading(t), ReadTokens(rest, false))
  {
    assert Reading(t) == [Operand(t)];
  }

  lemma SignThen(src: string, rest: Text)
    ensures PrefixOf(src).Some? ==>
              ReadTokens([Sign(src)] + rest, true) == Before([Operator(PrefixOf(src).value)], ReadTokens(rest, true))
    ensures InfixOf(src).Some? ==>
              ReadTokens([Sign(src)] + rest, false) == Before([Operator(InfixOf(src).value)], ReadTokens(rest, true))
  {
    assert ([Sign(src)] + rest)[1..] == rest;
  }

  predicate Closes(p: Piece) {
    p in {RBracket, RBrace, RParen, Comma, Colon, Break}
  }

  predicate Stops(rest: Text) {
    rest != [] && Closes(rest[0])
  }

  predicate Begins(text: Text) {
    text != [] && !Closes(text[0])
  }

  lemma JoinCons(t: Text, ts: seq<Text>)
    requires ts != []
    ensures Join([t] + ts) == t + [Comma] + Join(ts)
  {
    var init, last := ts[..|ts| - 1], ts[|ts| - 1];
    assert ([t] + ts)[..|ts|] == [t] + init;
    if init == [] {
      assert [t] + init == [t] && ts == [last];
    } else {
      JoinCons(t, init);
    }
  }

  /** Texts joined, from one of them on. */
  lemma JoinFrom(texts: seq<Text>, k: nat)
    requires k < |texts|
    ensures Join(texts[k..]) == if k == |texts| - 1 then texts[k] else texts[k] + [Comma] + Join(texts[k + 1..])
  {
    if k == |texts| - 1 {
      assert texts[k..] == [texts[k]];
    } else {
      assert texts[k..] == [texts[k]] + texts[k + 1..];
      JoinCons(texts[k], texts[k + 1..]);
    }
  }

  /** A value's text begins one, however it is written. */
  lemma {:induction false} TextBegins(d: Datum)
    ensures Begins(Print(d)) && Begins(ItemOf(d).list) && (ItemOf(d).list[0].Sign? <==> Negative(d))
    decreases d
  {
    if d.List? {
      var ds := d.items;
      ListedForm(ds);
      GroupForm(ds);
      if ShapeOf(ds).PrefixShape? {
        PrefixForm(ds, ShapeOf(ds).src);
      } else if ShapeOf(ds).InfixShape? {
        InfixForm(ds, ShapeOf(ds).src);
        TextBegins(ds[1]);
      }
    }
  }

  // ----- reading values -----

  lemma {:induction false} Reads(d: Datum, rest: Text)
    ensures ReadTokens(Print(d) + rest, true) == Before(Reading(TreeOf(d)), ReadTokens(rest, false))
    decreases d, 3
  {
    TextBegins(d);
    if Negative(d) {
      NegativeReads(d, rest);
    } else if !d.List? || ShapeOf(d.items).Listed? {
      ListReads(d, rest);
      if d.List? {
        ListedForm(d.items);
      }
      OperandThen(Print(d), rest, Leaf(Normal(d)));
    } else if ShapeOf(d.items).PrefixShape? {
      PrefixReads(d.items, ShapeOf(d.items).src, rest);
    } else if ShapeOf(d.items).InfixShape? {
      InfixReads(d.items, ShapeOf(d.items).src, rest);
    } else {
      GroupReads(d.items, rest);
    }
  }

  /** A negative number is read as the operator on its magnitude. */
  lemma NegativeReads(d: Datum, rest: Text)
    requires Negative(d)
    ensures ReadTokens(Print(d) + rest, true) == Before(Reading(TreeOf(d)), ReadTokens(rest, false))
  {
    var n := d.scalar.number;
    var t := Leaf(Value(Num(n.(minus := false))));
    assert ([Digits(n.digits, n.zero)] + rest)[1..] == rest;
    OperandThen([Digits(n.digits, n.zero)], rest, t);
    PrefixPieces("-", [Digits(n.digits, n.zero)], rest, t);
  }

  lemma {:induction false} TermReads(d: Datum, asText: bool, rest: Text)
    requires asText || !Negative(d)
    ensures ReadTokens(TermText(d, asText) + rest, true) == Before(Reading(TermTree(d, asText)), ReadTokens(rest, false))
    decreases d, 4
  {
    if asText {
      Reads(d, rest);
    } else {
      TextBegins(d);
      ListReads(d, rest);
      OperandThen(ItemOf(d).list, rest, Leaf(Normal(d)));
    }
  }

  lemma {:induction false} PrefixReads(ds: seq<Datum>, src: string, rest: Text)
    requires ShapeOf(ds) == PrefixShape(src)
    ensures ReadTokens(Print(List(ds)) + rest, true) == Before(Reading(TreeOf(List(ds))), ReadTokens(rest, false))
    decreases ds, 0
  {
    var asText := ItemOf(ds[1]).binding == Atom;
    TermReads(ds[1], asText, rest);
    PrefixPieces(src, TermText(ds[1], asText), rest, TermTree(ds[1], asText));
    PrefixForm(ds, src);
  }

  lemma PrefixPieces(src: string, term: Text, rest: Text, t: Tree<Datum>)
    requires PrefixOf(src).Some? && ReadTokens(term + rest, true) == Before(Reading(t), ReadTokens(rest, false))
    ensures ReadTokens([Sign(src)] + term + rest, true)
         == Before(Reading(Node(PrefixOf(src).value, [t])), ReadTokens(rest, false))
  {
    var op, after := PrefixOf(src).value, ReadTokens(rest, false);
    Associative([Sign(src)], term, rest);
    SignThen(src, term + rest);
    BeforeBoth([Operator(op)], Reading(t), after);
    assert Reading(Node(op, [t])) == [Operator(op)] + Reading(t) by {
      C.PrefixReading(Node(op, [t]));
    }
  }

  lemma {:induction false} InfixReads(ds: seq<Datum>, src: string, rest: Text)
    requires ShapeOf(ds) == InfixShape(src)
    ensures ReadTokens(Print(List(ds)) + rest, true) == Before(Reading(TreeOf(List(ds))), ReadTokens(rest, false))
    decreases ds, 0
  {
    var asLeft, asRight := LeftAsText(ItemOf(ds[1]), Level(src)), RightAsText(ItemOf(ds[2]), Level(src));
    var left, right := TermText(ds[1], asLeft), TermText(ds[2], asRight);
    TermReads(ds[1], asLeft, [Sign(src)] + (right + rest));
    TermReads(ds[2], asRight, rest);
    InfixPieces(left, src, right, rest, TermTree(ds[1], asLeft), TermTree(ds[2], asRight));
    InfixForm(ds, src);
  }

  lemma InfixPieces(left: Text, src: string, right: Text, rest: Text, a: Tree<Datum>, b: Tree<Datum>)
    requires InfixOf(src).Some?
    requires ReadTokens(left + ([Sign(src)] + (right + rest)), true)
          == Before(Reading(a), ReadTokens([Sign(src)] + (right + rest), false))
    requires ReadTokens(right + rest, true) == Before(Reading(b), ReadTokens(rest, false))
    ensures ReadTokens(left + [Sign(src)] + right + rest, true)
         == Before(Reading(Node(InfixOf(src).value, [a, b])), ReadTokens(rest, false))
  {
    var op, after := InfixOf(src).value, ReadTokens(rest, false);
    FourPieces(left, [Sign(src)], right, rest);
    SignThen(src, right + rest);
    BeforeBoth([Operator(op)], Reading(b), after);
    BeforeBoth(Reading(a), [Operator(op)] + Reading(b), after);
    assert Reading(Node(op, [a, b])) == Reading(a) + ([Operator(op)] + Reading(b)) by {
      C.InfixReading(Node(op, [a, b]));
      Associative(Reading(a), [Operator(op)], Reading(b));
    }
  }

  lemma FourPieces(a: Text, b: Text, c: Text, d: Text)
    ensures a + b + c + d == a + (b + (c + d))
  {
  }

  lemma {:induction false} GroupReads(ds: seq<Datum>, rest: Text)
    requires ShapeOf(ds).EmptyGroup? || ShapeOf(ds).Group?
    ensures ReadTokens(Print(List(ds)) + rest, true) == Before(Reading(TreeOf(List(ds))), ReadTokens(rest, false))
    decreases ds, 0
  {
    GroupForm(ds);
    if ShapeOf(ds).EmptyGroup? {
      assert ([LParen, RParen] + rest)[2..] == rest;
      OperandThen([LParen, RParen], rest, Node(PAREN, []));
    } else {
      TextBegins(ds[1]);
      ExpressionReads(ds[1], [RParen] + rest);
      GroupPieces(Print(ds[1]), rest, TreeOf(ds[1]));
      OperandThen([LParen] + Print(ds[1]) + [RParen], rest, Node(PAREN, [TreeOf(ds[1])]));
    }
  }

  lemma GroupPieces(inner: Text, rest: Text, t: Tree<Datum>)
    requires Begins(inner) && ReadExpression(inner + ([RParen] + rest)) == Some(Taken(t, [RParen] + rest))
    ensures ReadOperand([LParen] + inner + [RParen] + rest) == Some(Taken(Node(PAREN, [t]), rest))
  {
    FourPieces([LParen], inner, [RParen], rest);
    assert ([LParen] + (inner + ([RParen] + rest)))[1..] == inner + ([RParen] + rest);
    assert ([RParen] + rest)[1..] == rest;
  }

  /** The run rebuilds a value's expression from the tokens of its text. */
  lemma {:induction false} ExpressionReads(d: Datum, rest: Text)
    requires Stops(rest)
    ensures ReadExpression(Print(d) + rest) == Some(Taken(TreeOf(d), rest)) && ToDatum(TreeOf(d)) == Normal(d)
    decreases d, 4
  {
    Reads(d, rest);
    TreeIsSound(d);
    DefaultsAreNonCrossing();
    C.BuiltReadsBack(TreeOf(d), DEFAULTS);
    assert Reading(TreeOf(d)) + [] == Reading(TreeOf(d));
  }

  /** Anything written as a list, an object or a scalar is read as one operand. */
  lemma {:induction false} ListReads(d: Datum, rest: Text)
    requires !Negative(d)
    ensures ReadOperand(ItemOf(d).list + rest) == Some(Taken(Leaf(Normal(d)), rest))
    decreases d, 2
  {
    match d
    case Value(v) =>
      assert (ScalarText(v) + rest)[1..] == rest;
    case List(ds) =>
      if ds == [] {
        EmptyReads(rest);
      } else {
        ElementsRead(ds, 0, rest);
        ListPieces(ds, rest);
      }
    case Object(ms) =>
      if ms == [] {
        EmptyReads(rest);
      } else {
        MembersRead(ms, 0, rest);
        ObjectPieces(ms, rest);
      }
  }

  lemma EmptyReads(rest: Text)
    ensures ReadOperand(ItemOf(List([])).list + rest) == Some(Taken(Leaf(Normal(List([]))), rest))
    ensures ReadOperand(ItemOf(Object([])).list + rest) == Some(Taken(Leaf(Normal(Object([]))), rest))
  {
    ListedForm([]);
    assert Texts(Items([])) == [];
    assert ([LBracket, RBracket] + rest)[2..] == rest;
    assert ([LBrace, RBrace] + rest)[2..] == rest;
  }

  lemma ListPieces(ds: seq<Datum>, rest: Text)
    requires ds != []
    requires ReadElements(Join(Texts(Items(ds))[0..]) + ([RBracket] + rest)) == Some(Taken(NormalItems(ds)[0..], rest))
    ensures ReadOperand(ItemOf(List(ds)).list + rest) == Some(Taken(Leaf(Normal(List(ds))), rest))
  {
    ListedForm(ds);
    OpensElements(ds, rest);
  }

  lemma ObjectPieces(ms: seq<Member>, rest: Text)
    requires ms != []
    requires ReadMembers(Join(Parts(ms)[0..]) + ([RBrace] + rest)) == Some(Taken(NormalMembers(ms)[0..], rest))
    ensures ReadOperand(ItemOf(Object(ms)).list + rest) == Some(Taken(Leaf(Normal(Object(ms))), rest))
  {
    OpensMembers(ms, rest);
  }

  // ----- reading lists and objects -----

  /** The source that stands for a description at the head of a list. */
  lemma HeadReads(src: string, rest: Text)
    requires Stops(rest)
    ensures ReadExpression([Quoted(src)] + rest) == Some(Taken(Leaf(Value(Str(src))), rest))
  {
    var t := Leaf(Value(Str(src)));
    assert ([Quoted(src)] + rest)[1..] == rest;
    OperandThen([Quoted(src)], rest, t);
    DefaultsAreNonCrossing();
    C.BuiltReadsBack(t, DEFAULTS);
    assert Reading(t) + [] == Reading(t);
  }

  lemma ElementText(ds: seq<Datum>, k: nat)
    requires k < |ds|
    ensures Texts(Items(ds))[k] == if k == 0 && HeadOf(ds).TheOp? then [Quoted(HeadOf(ds).src)] else Print(ds[k])
  {
    ItemsAt(ds, k);
    HeadsAreOperators(ds[0]);
  }

  lemma {:induction false} ElementReads(ds: seq<Datum>, k: nat, rest: Text) returns (t: Tree<Datum>)
    requires k < |ds| && Stops(rest)
    ensures ReadExpression(Texts(Items(ds))[k] + rest) == Some(Taken(t, rest)) && ToDatum(t) == NormalItems(ds)[k]
    decreases ds, 0
  {
    ElementText(ds, k);
    NormalAt(ds, k);
    if k == 0 && HeadOf(ds).TheOp? {
      HeadReads(HeadOf(ds).src, rest);
      t := Leaf(Value(Str(HeadOf(ds).src)));
    } else {
      ExpressionReads(ds[k], rest);
      t := TreeOf(ds[k]);
    }
  }

  lemma ReadElementsStep(text: Text, t: Tree<Datum>, tail: Text)
    requires ReadExpression(text + tail) == Some(Taken(t, tail)) && tail != []
    ensures tail[0] == RBracket ==> ReadElements(text + tail) == Some(Taken([ToDatum(t)], tail[1..]))
    ensures tail[0] == Comma && ReadElements(tail[1..]).Some? ==>
              ReadElements(text + tail) == Some(Taken([ToDatum(t)] + ReadElements(tail[1..]).value.what,
                                                      ReadElements(tail[1..]).value.rest))
  {
  }

  lemma {:induction false} ElementsRead(ds: seq<Datum>, k: nat, rest: Text)
    requires k < |ds|
    ensures ReadElements(Join(Texts(Items(ds))[k..]) + ([RBracket] + rest)) == Some(Taken(NormalItems(ds)[k..], rest))
    decreases ds, |ds| - k
  {
    var texts, end := Texts(Items(ds)), [RBracket] + rest;
    if k == |ds| - 1 {
      var t := ElementReads(ds, k, end);
      ReadElementsStep(texts[k], t, end);
      JoinFrom(texts, k);
      assert NormalItems(ds)[k..] == [ToDatum(t)] && end[1..] == rest;
    } else {
      var tail := [Comma] + (Join(texts[k + 1..]) + end);
      var t := ElementReads(ds, k, tail);
      ElementsRead(ds, k + 1, rest);
      assert tail[1..] == Join(texts[k + 1..]) + end;
      ReadElementsStep(texts[k], t, tail);
      JoinedTail(texts, k, end);
      FirstOfRest(NormalItems(ds), k);
    }
  }

  lemma JoinedTail(texts: seq<Text>, k: nat, end: Text)
    requires k < |texts| - 1
    ensures Join(texts[k..]) + end == texts[k] + ([Comma] + (Join(texts[k + 1..]) + end))
  {
    JoinFrom(texts, k);
    Associative(texts[k], [Comma] + Join(texts[k + 1..]), end);
    Associative([Comma], Join(texts[k + 1..]), end);
  }

  lemma OpensElements(ds: seq<Datum>, rest: Text)
    requires ds != []
    ensures var text := ListText(Items(ds)) + rest;
            |text| > 1 && text[0] == LBracket && text[1] != RBracket
            && text[1..] == Join(Texts(Items(ds))[0..]) + ([RBracket] + rest)
    ensures NormalItems(ds)[0..] == NormalItems(ds)
  {
    var texts := Texts(Items(ds));
    ElementText(ds, 0);
    TextBegins(ds[0]);
    JoinFrom(texts, 0);
    assert texts[0..] == texts;
    OpensWith(LBracket, Join(texts), RBracket, rest);
  }

  lemma OpensWith(first: Piece, inner: Text, last: Piece, rest: Text)
    requires Begins(inner)
    ensures var text := [first] + inner + [last] + rest;
            |text| > 1 && text[0] == first && !Closes(text[1]) && text[1..] == inner + ([last] + rest)
  {
    FourPieces([first], inner, [last], rest);
    assert ([first] + (inner + ([last] + rest)))[1..] == inner + ([last] + rest);
  }

  lemma {:induction false} PartAt(ms: seq<Member>, k: nat)
    requires k < |ms|
    ensures Parts(ms)[k] == Part(ms[k].key, Print(ms[k].value))
  {
    if k < |ms| - 1 {
      PartAt(ms[..|ms| - 1], k);
    }
  }

  /** How a member's text begins: the key, the colon, then the value. */
  lemma PartPieces(key: string, text: Text, tail: Text)
    ensures var whole := Part(key, text) + tail;
            |whole| >= 2 && whole[0] == Quoted(key) && whole[1] == Colon && whole[2..] == text + tail
  {
    assert (Part(key, text) + tail)[2..] == text + tail;
  }

  lemma ReadLastMember(key: string, text: Text, t: Tree<Datum>, rest: Text)
    requires ReadExpression(text + ([RBrace] + rest)) == Some(Taken(t, [RBrace] + rest))
    ensures ReadMembers(Part(key, text) + ([RBrace] + rest)) == Some(Taken([Member(key, ToDatum(t))], rest))
  {
    PartPieces(key, text, [RBrace] + rest);
    assert ([RBrace] + rest)[1..] == rest;
  }

  lemma ReadOneMember(key: string, text: Text, t: Tree<Datum>, more: Text)
    requires ReadExpression(text + ([Comma] + more)) == Some(Taken(t, [Comma] + more)) && ReadMembers(more).Some?
    ensures ReadMembers(Part(key, text) + ([Comma] + more))
         == Some(Taken([Member(key, ToDatum(t))] + ReadMembers(more).value.what, ReadMembers(more).value.rest))
  {
    PartPieces(key, text, [Comma] + more);
    assert ([Comma] + more)[1..] == more;
  }

  lemma {:induction false} MembersRead(ms: seq<Member>, k: nat, rest: Text)
    requires k < |ms|
    ensures ReadMembers(Join(Parts(ms)[k..]) + ([RBrace] + rest)) == Some(Taken(NormalMembers(ms)[k..], rest))
    decreases ms, |ms| - k
  {
    var texts, end, m := Parts(ms), [RBrace] + rest, ms[k];
    PartAt(ms, k);
    NormalMemberAt(ms, k);
    if k == |ms| - 1 {
      ExpressionReads(m.value, end);
      ReadLastMember(m.key, Print(m.value), TreeOf(m.value), rest);
      JoinFrom(texts, k);
      assert NormalMembers(ms)[k..] == [NormalMembers(ms)[k]];
    } else {
      MembersRead(ms, k + 1, rest);
      ExpressionReads(m.value, [Comma] + (Join(texts[k + 1..]) + end));
      MembersJoin(ms, k, end, rest);
    }
  }

  lemma MembersJoin(ms: seq<Member>, k: nat, end: Text, rest: Text)
    requires k < |ms| - 1
    requires ReadMembers(Join(Parts(ms)[k + 1..]) + end) == Some(Taken(NormalMembers(ms)[k + 1..], rest))
    requires var tail := [Comma] + (Join(Parts(ms)[k + 1..]) + end);
             ReadExpression(Print(ms[k].value) + tail) == Some(Taken(TreeOf(ms[k].value), tail))
             && ToDatum(TreeOf(ms[k].value)) == Normal(ms[k].value)
    ensures ReadMembers(Join(Parts(ms)[k..]) + end) == Some(Taken(NormalMembers(ms)[k..], rest))
  {
    var more, m := Join(Parts(ms)[k + 1..]) + end, ms[k];
    ReadOneMember(m.key, Print(m.value), TreeOf(m.value), more);
    MembersFrom(ms, k, end);
  }

  lemma MembersFrom(ms: seq<Member>, k: nat, end: Text)
    requires k < |ms| - 1
    ensures Join(Parts(ms)[k..]) + end == Part(ms[k].key, Print(ms[k].value)) + ([Comma] + (Join(Parts(ms)[k + 1..]) + end))
    ensures NormalMembers(ms)[k..] == [Member(ms[k].key, Normal(ms[k].value))] + NormalMembers(ms)[k + 1..]
  {
    assert Join(Parts(ms)[k..]) + end == Part(ms[k].key, Print(ms[k].value)) + ([Comma] + (Join(Parts(ms)[k + 1..]) + end)) by {
      PartAt(ms, k);
      JoinedTail(Parts(ms), k, end);
    }
    NormalMemberAt(ms, k);
    FirstOfRest(NormalMembers(ms), k);
  }

  lemma FirstOfRest<T>(s: seq<T>, k: nat)
    requires k < |s|
    ensures s[k..] == [s[k]] + s[k + 1..]
  {
  }

  lemma OpensMembers(ms: seq<Member>, rest: Text)
    requires ms != []
    ensures var text := ObjectText(Parts(ms)) + rest;
            |text| > 1 && text[0] == LBrace && text[1] != RBrace
            && text[1..] == Join(Parts(ms)[0..]) + ([RBrace] + rest)
    ensures NormalMembers(ms)[0..] == NormalMembers(ms)
  {
    var texts := Parts(ms);
    PartAt(ms, 0);
    JoinFrom(texts, 0);
    assert texts[0..] == texts;
    OpensWith(LBrace, Join(texts), RBrace, rest);
  }

  // ----- trees that come back as they were -----

  /** No list is led by an object that describes an operator, and every number is finite and carries no sign. */
  ghost predicate Verbatim(d: Datum)
    decreases d
  {
    match d
    case Value(v) => v.Num? ==> v.number.Finite? && !v.number.minus
    case List(items) => !(items != [] && items[0].Object? && HeadOf(items).TheOp?) && forall k | 0 <= k < |items| :: Verbatim(items[k])
    case Object(members) => forall k | 0 <= k < |members| :: Verbatim(members[k].value)
  }

  /** Only descriptions and such numbers change: the tree read back is the tree exactly where there are none. */
  lemma {:induction false} NormalIsSame(d: Datum)
    ensures Normal(d) == d <==> Verbatim(d)
    decreases d, 1
  {
    match d
    case Value(_) =>
    case List(items) => NormalItemsSame(items);
    case Object(members) => NormalMembersSame(members);
  }

  lemma {:induction false} NormalItemsSame(ds: seq<Datum>)
    ensures NormalItems(ds) == ds <==> Verbatim(List(ds))
    decreases ds, 0
  {
    forall k | 0 <= k < |ds|
      ensures NormalItems(ds)[k] == ds[k] <==> !(k == 0 && ds[0].Object? && HeadOf(ds).TheOp?) && Verbatim(ds[k])
    {
      NormalAt(ds, k);
      NormalIsSame(ds[k]);
      HeadedBy(ds[0]);
    }
    if NormalItems(ds) == ds {
      assert forall k | 0 <= k < |ds| :: NormalItems(ds)[k] == ds[k];
    }
  }

  /** What is led by an operator is its text or an object. */
  lemma HeadedBy(d: Datum)
    ensures ItemOf(d).head.TheOp? && !d.Object? ==> d == Value(Str(ItemOf(d).head.src)) && Verbatim(d)
  {
    if d.List? {
      ListedForm(d.items);
    }
  }

  lemma {:induction false} NormalMembersSame(ms: seq<Member>)
    ensures NormalMembers(ms) == ms <==> Verbatim(Object(ms))
    decreases ms, 0
  {
    forall k | 0 <= k < |ms|
      ensures NormalMembers(ms)[k] == ms[k] <==> Verbatim(ms[k].value)
    {
      NormalMemberAt(ms, k);
      NormalIsSame(ms[k].value);
    }
    if NormalMembers(ms) == ms {
      assert forall k | 0 <= k < |ms| :: NormalMembers(ms)[k] == ms[k];
    }
  }

  // ----- the main result -----

  /**
   What the render writes of a tree's events is read back as the tree, with
   descriptions that lead lists written as their sources, numbers that are
   not finite as their names and negative ones as operations: as the very
   same tree exactly where there are none of these.
   */
  lemma RenderedReadsBack(d: Datum)
    requires Render(Events(d)).Written?
    ensures ReadDocument(Render(Events(d)).text) == Some(Normal(d))
    ensures ReadDocument(Render(Events(d)).text) == Some(d) <==> Verbatim(d)
  {
    RenderPrints(d);
    ExpressionReads(d, [Break]);
    NormalIsSame(d);
  }
}
