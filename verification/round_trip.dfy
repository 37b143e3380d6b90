/**
 Reading a rendered document back: brackets by descent, and every
 expression between them by the insertion run with the default operators.
 */
module RoundTrip {
  import opened Operators
  import P = Pratt
  import C = Canonical
  import R = Reference
  import opened Tables
  import opened Rendering
  import opened RenderRuns

  datatype Option<T> = None | Some(value: T)

  // ----- operators by their source -----

  function InfixOf(src: string): Option<Op> {
    match src
    case "+" => Some(ADDITION)
    case "-" => Some(SUBTRACTION)
    case "*" => Some(MULTIPLICATION)
    case "/" => Some(DIVISION)
    case "%" => Some(REMAINDER)
    case _ => None
  }

  function PrefixOf(src: string): Option<Op> {
    match src
    case "+" => Some(POSITIVE)
    case "-" => Some(NEGATIVE)
    case _ => None
  }

  /** The tree's own form of an expression: an operation is a list led by its operator's source. */
  function ToDatum(t: Tree<Datum>): Datum
    decreases t
  {
    match t
    case Leaf(d) => d
    case Node(op, terms) =>
      List([Value(Str(op.src))] + seq(|terms|, k requires 0 <= k < |terms| => ToDatum(terms[k])))
  }

  // ----- the reader -----

  datatype Taken<T> = Taken(what: T, rest: Text)

  /** The tokens of the longest phrase, from where an operand is wanted or one has been read. */
  ghost function ReadTokens(text: Text, wanting: bool): (r: Option<Taken<seq<Token<Datum>>>>)
    ensures r.Some? ==> P.Phrase(r.value.what, wanting)
    ensures r.Some? ==> if wanting then |r.value.rest| < |text| else |r.value.rest| <= |text|
    decreases |text|, 1
  {
    if wanting then
      if text == [] then None
      else if text[0].Sign? then
        match PrefixOf(text[0].src)
        case None => None
        case Some(op) => Onto(Operator(op), ReadTokens(text[1..], true))
      else
        match ReadOperand(text)
        case None => None
        case Some(operand) => Onto(Operand(operand.what), ReadTokens(operand.rest, false))
    else if text != [] && text[0].Sign? then
      match InfixOf(text[0].src)
      case None => None
      case Some(op) => Onto(Operator(op), ReadTokens(text[1..], true))
    else
      Some(Taken([], text))
  }

  ghost function Onto(token: Token<Datum>, tokens: Option<Taken<seq<Token<Datum>>>>): Option<Taken<seq<Token<Datum>>>> {
    if tokens.None? then None else Some(Taken([token] + tokens.value.what, tokens.value.rest))
  }

  /** One operand: a scalar, a list, an object or a group. */
  ghost function ReadOperand(text: Text): (r: Option<Taken<Tree<Datum>>>)
    requires text != []
    ensures r.Some? ==> r.value.what.Finished() && r.value.what.Whole() && |r.value.rest| < |text|
    decreases |text|, 0
  {
    match text[0]
    case Quoted(s) => Some(Taken(Leaf(Value(Str(s))), text[1..]))
    case Digits(digits, zero) => Some(Taken(Leaf(Value(Num(Finite(false, digits, zero)))), text[1..]))
    case Word(b) => Some(Taken(Leaf(Value(Truth(b))), text[1..]))
    case NullWord => Some(Taken(Leaf(Value(Null)), text[1..]))
    case LBracket =>
      if |text| > 1 && text[1] == RBracket then Some(Taken(Leaf(List([])), text[2..]))
      else
        (match ReadElements(text[1..])
         case None => None
         case Some(items) => Some(Taken(Leaf(List(items.what)), items.rest)))
    case LBrace =>
      if |text| > 1 && text[1] == RBrace then Some(Taken(Leaf(Object([])), text[2..]))
      else
        (match ReadMembers(text[1..])
         case None => None
         case Some(members) => Some(Taken(Leaf(Object(members.what)), members.rest)))
    case LParen =>
      if |text| > 1 && text[1] == RParen then Some(Taken(Node(PAREN, []), text[2..]))
      else
        (match ReadExpression(text[1..])
         case None => None
         case Some(inner) =>
           if inner.rest != [] && inner.rest[0] == RParen then Some(Taken(Node(PAREN, [inner.what]), inner.rest[1..]))
           else None)
    case _ => None
  }

  /** One expression: the run builds it from the tokens of its phrase. */
  ghost function ReadExpression(text: Text): (r: Option<Taken<Tree<Datum>>>)
    ensures r.Some? ==> |r.value.rest| < |text|
    decreases |text|, 2
  {
    match ReadTokens(text, true)
    case None => None
    case Some(tokens) => Some(Taken(P.Built(tokens.what), tokens.rest))
  }

  /** The elements of a list up to its closing bracket. */
  ghost function ReadElements(text: Text): (r: Option<Taken<seq<Datum>>>)
    ensures r.Some? ==> |r.value.rest| < |text|
    decreases |text|, 3
  {
    match ReadExpression(text)
    case None => None
    case Some(first) =>
      if first.rest != [] && first.rest[0] == RBracket then Some(Taken([ToDatum(first.what)], first.rest[1..]))
      else if first.rest != [] && first.rest[0] == Comma then
        (match ReadElements(first.rest[1..])
         case None => None
         case Some(others) => Some(Taken([ToDatum(first.what)] + others.what, others.rest)))
      else None
  }

  ghost function ReadMembers(text: Text): (r: Option<Taken<seq<Member>>>)
    ensures r.Some? ==> |r.value.rest| < |text|
    decreases |text|, 3
  {
    if |text| < 2 || !text[0].Quoted? || text[1] != Colon then None
    else
      match ReadExpression(text[2..])
      case None => None
      case Some(first) =>
        var member := Member(text[0].text, ToDatum(first.what));
        if first.rest != [] && first.rest[0] == RBrace then Some(Taken([member], first.rest[1..]))
        else if first.rest != [] && first.rest[0] == Comma then
          (match ReadMembers(first.rest[1..])
           case None => None
           case Some(others) => Some(Taken([member] + others.what, others.rest)))
        else None
  }

  /** A whole document: one expression and a line break. */
  ghost function ReadDocument(text: Text): Option<Datum> {
    match ReadExpression(text)
    case None => None
    case Some(whole) => if whole.rest == [Break] then Some(ToDatum(whole.what)) else None
  }

  // ----- what comes back -----

  /** A number that is not finite is its name, and a negative one the operator on its magnitude. */
  function NormalScalar(v: Scalar): Datum {
    match v
    case Num(NotFinite(name)) => Value(Str(name))
    case Num(Finite(true, digits, zero)) => List([Value(Str("-")), Value(Num(Finite(false, digits, zero)))])
    case _ => Value(v)
  }

  /** The tree with every description that leads a list written as the source it describes, and its numbers as they read. */
  function Normal(d: Datum): Datum
    decreases d
  {
    match d
    case Value(v) => NormalScalar(v)
    case List(items) => List(NormalItems(items))
    case Object(members) => Object(NormalMembers(members))
  }

  function NormalItems(ds: seq<Datum>): (r: seq<Datum>)
    ensures |r| == |ds|
    decreases ds
  {
    if ds == [] then []
    else
      var last := ds[|ds| - 1];
      NormalItems(ds[..|ds| - 1])
      + [if |ds| == 1 && ItemOf(last).head.TheOp? then Value(Str(ItemOf(last).head.src)) else Normal(last)]
  }

  function NormalMembers(ms: seq<Member>): (r: seq<Member>)
    ensures |r| == |ms|
    decreases ms
  {
    if ms == [] then []
    else
      var last := ms[|ms| - 1];
      NormalMembers(ms[..|ms| - 1]) + [Member(last.key, Normal(last.value))]
  }

  // ----- the expression a value is written as -----

  /** The operator and the number of terms of a list that is an operation. */
  function HeadOf(ds: seq<Datum>): Head {
    if ds == [] then NoOp else ItemOf(ds[0]).head
  }

  predicate Negative(d: Datum) {
    d.Value? && d.scalar.Num? && d.scalar.number.Finite? && d.scalar.number.minus
  }

  /** The expression whose tokens the item's text spells. */
  ghost function TreeOf(d: Datum): (t: Tree<Datum>)
    decreases d
  {
    if Negative(d) then
      Node(NEGATIVE, [Leaf(Value(Num(d.scalar.number.(minus := false))))])
    else if !d.List? || HeadOf(d.items).NoOp? then
      Leaf(Normal(d))
    else
      var src, n := HeadOf(d.items).src, |d.items|;
      if src == "(" && n == 1 then Node(PAREN, [])
      else if src == "(" && n == 2 then Node(PAREN, [TreeOf(d.items[1])])
      else if n == 2 && PrefixOf(src).Some? then
        Node(PrefixOf(src).value, [if ItemOf(d.items[1]).binding == Atom then TreeOf(d.items[1]) else Leaf(Normal(d.items[1]))])
      else if n == 3 && InfixOf(src).Some? then
        var a, b := d.items[1], d.items[2];
        Node(InfixOf(src).value,
             [if LeftAsText(ItemOf(a), Level(src)) then TreeOf(a) else Leaf(Normal(a)),
              if RightAsText(ItemOf(b), Level(src)) then TreeOf(b) else Leaf(Normal(b))])
      else
        Leaf(Normal(d))
  }

  predicate LeftAsText(item: Item, level: Binding) {
    !(item.binding == Infix2 && level != Infix2)
  }

  predicate RightAsText(item: Item, level: Binding) {
    match item.binding
    case Atom => true
    case Infix3 => level == Infix2
    case Infix2 => false
  }
}
