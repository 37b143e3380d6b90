/**
 The render: a pushdown transducer from a tree's events to the pieces of an
 expression document, definition by definition. Strings, digits and words
 are opaque pieces.
 */
module Rendering {

  /** A value of the tree. Digits are a lexeme without its sign; `zero` says whether they denote zero. */
  datatype Number = Finite(minus: bool, digits: string, zero: bool) | NotFinite(name: string)
  datatype Scalar = Str(text: string) | Num(number: Number) | Truth(b: bool) | Null
  datatype Datum = Value(scalar: Scalar) | List(items: seq<Datum>) | Object(members: seq<Member>)
  datatype Member = Member(key: string, value: Datum)

  datatype Event = Scalar(scalar: Scalar) | Key(name: string) | ObjectStart | ObjectEnd | ArrayStart | ArrayEnd

  /** What is written. */
  datatype Piece =
    | LBracket | RBracket | LBrace | RBrace | LParen | RParen | Comma | Colon | Break
    | Sign(src: string) | Quoted(text: string) | Digits(digits: string, zero: bool) | Word(b: bool) | NullWord

  type Text = seq<Piece>

  /** How tightly an item binds where it is a term; an atom, as tightly as a term can. */
  datatype Binding = Infix2 | Infix3 | Atom

  /** The operator a string is or an object describes. */
  datatype Head = NoOp | TheOp(src: string)

  datatype Item = Item(text: Text, binding: Binding, list: Text, head: Head)

  const OPERATORS: set<string> := {"+", "-", "*", "/", "%", "("}

  function ExprOp(s: Scalar): Head {
    if s.Str? && s.text in OPERATORS then TheOp(s.text) else NoOp
  }

  // ----- texts and items -----

  function NumberText(n: Number): Text {
    match n
    case Finite(minus, digits, zero) => (if minus then [Sign("-")] else []) + [Digits(digits, zero)]
    case NotFinite(name) => [Quoted(name)]
  }

  function ScalarText(s: Scalar): Text {
    match s
    case Str(text) => [Quoted(text)]
    case Num(n) => NumberText(n)
    case Truth(b) => [Word(b)]
    case Null => [NullWord]
  }

  function ScalarItem(s: Scalar): Item {
    Item(ScalarText(s), Atom, ScalarText(s), ExprOp(s))
  }

  /** A held member: its quoted key, a colon, and its value's text. */
  function Part(key: string, value: Text): Text {
    [Quoted(key), Colon] + value
  }

  predicate IsSrc(part: Text) {
    |part| >= 2 && part[0] == Quoted("src") && part[1] == Colon
  }

  function SrcOp(part: Text): Head {
    if |part| == 3 && IsSrc(part) && part[2].Quoted? && part[2].text in OPERATORS then TheOp(part[2].text) else NoOp
  }

  /** Whether a simplifier takes a list led by an object for an operation, its `src` being written so. */
  predicate SrcRead(text: Text) {
    !(text == [Quoted("")] || text == [Word(false)] || text == [NullWord]
      || (|text| == 1 && text[0].Digits? && text[0].zero))
  }

  datatype Described = NoSrc | SrcIs(src: string) | Foreign(text: Text)

  datatype SrcPart = NoPart | ThePart(part: Text)

  /** The last part that is a `src`: where a key repeats, the reader keeps the last. */
  function LastSrc(parts: seq<Text>): SrcPart {
    if parts == [] then NoPart
    else if IsSrc(parts[|parts| - 1]) then ThePart(parts[|parts| - 1])
    else LastSrc(parts[..|parts| - 1])
  }

  /** What a held object makes of a list it is the first element of. */
  function SrcOf(parts: seq<Text>): Described {
    match LastSrc(parts)
    case NoPart => NoSrc
    case ThePart(part) =>
      match SrcOp(part)
      case TheOp(op) => SrcIs(op)
      case NoOp => if |part| >= 2 && SrcRead(part[2..]) then Foreign(part[2..]) else NoSrc
  }

  /** An item as its list holds it: a first item that is an operator, as that operator's text. */
  function Lead(items: seq<Item>, item: Item): Item {
    if items == [] && item.head.TheOp? then ScalarItem(Str(item.head.src)) else item
  }

  function Level(op: string): Binding {
    if op == "+" || op == "-" then Infix2 else Infix3
  }

  function Join(texts: seq<Text>): Text {
    if texts == [] then []
    else if |texts| == 1 then texts[0]
    else Join(texts[..|texts| - 1]) + [Comma] + texts[|texts| - 1]
  }

  function Texts(items: seq<Item>): seq<Text> {
    seq(|items|, k requires 0 <= k < |items| => items[k].text)
  }

  function ListText(items: seq<Item>): Text {
    [LBracket] + Join(Texts(items)) + [RBracket]
  }

  function Left(item: Item, level: Binding): Text {
    if item.binding == Infix2 && level != Infix2 then item.list else item.text
  }

  function Right(item: Item, level: Binding): Text {
    match item.binding
    case Atom => item.text
    case Infix3 => if level == Infix2 then item.text else item.list
    case Infix2 => item.list
  }

  function Term(item: Item): Text {
    if item.binding == Atom then item.text else item.list
  }

  function InfixItem(op: Head, a: Item, b: Item, list: Text): Item {
    if op.NoOp? || op.src == "(" then
      Item(list, Atom, list, NoOp)
    else
      var level := Level(op.src);
      Item(Left(a, level) + [Sign(op.src)] + Right(b, level), level, list, NoOp)
  }

  /** A held list, ended. */
  function ArrayItem(items: seq<Item>): Item {
    var list := ListText(items);
    if |items| == 1 && items[0].head == TheOp("(") then
      Item([LParen, RParen], Atom, list, NoOp)
    else if |items| == 2 && items[0].head == TheOp("(") then
      Item([LParen] + items[1].text + [RParen], Atom, list, NoOp)
    else if |items| == 2 && items[0].head == TheOp("+") then
      Item([Sign("+")] + Term(items[1]), Atom, list, NoOp)
    else if |items| == 2 && items[0].head == TheOp("-") then
      Item([Sign("-")] + Term(items[1]), Atom, list, NoOp)
    else if |items| == 3 then
      InfixItem(items[0].head, items[1], items[2], list)
    else
      Item(list, Atom, list, NoOp)
  }

  function ObjectText(parts: seq<Text>): Text {
    [LBrace] + Join(parts) + [RBrace]
  }

  // ----- the state -----

  datatype Due = FirstKey | NextKey(after: string) | ValueOf(key: string)
  datatype HeldDue = HeldKey | HeldValue(key: string)

  datatype Marker =
    | Pending(hold: bool)
    | ListFirst
    | ListStream(index: string)
    | ListHold(items: seq<Item>)
    | MapStream(due: Due)
    | MapHold(parts: seq<Text>, heldDue: HeldDue)
    | Done

  type Stack = seq<Marker>

  /** The path to a value: keys of objects and indices of lists, an index as its digits. */
  datatype Step = Index(digits: string) | Name(key: string)

  datatype Outcome =
    | Transition(stack: Stack, out: seq<Text>)
    | ProtocolOrder
    | Refused(path: seq<Step>, src: Text)
    | NoCase

  function Top(s: Stack): Marker
    requires s != []
  {
    s[|s| - 1]
  }

  function Pop(s: Stack): Stack
    requires s != []
  {
    s[..|s| - 1]
  }

  function Mark(marker: Marker, s: Stack): Stack
    requires s != []
  {
    Pop(s) + [marker]
  }

  // ----- counting indices -----

  function DigitUp(d: char): char {
    match d
    case '0' => '1'
    case '1' => '2'
    case '2' => '3'
    case '3' => '4'
    case '4' => '5'
    case '5' => '6'
    case '6' => '7'
    case '7' => '8'
    case '8' => '9'
    case _ => d
  }

  /** How many digits come before the last that is not a nine, if any is. */
  function BeforeLastBar(digits: string): (r: int)
    ensures -1 <= r < |digits|
    ensures r >= 0 ==> digits[r] != '9'
    ensures forall k | r < k < |digits| :: digits[k] == '9'
  {
    if digits == "" then -1
    else if digits[|digits| - 1] != '9' then |digits| - 1
    else BeforeLastBar(digits[..|digits| - 1])
  }

  /** The digits after ones that end in a nine. */
  function Carry(digits: string): string {
    var up := BeforeLastBar(digits);
    if up == -1 then
      seq(|digits|, i => if i == 0 then '1' else '0') + "0"
    else
      seq(|digits|, i requires 0 <= i < |digits| => if i < up then digits[i] else if i == up then DigitUp(digits[i]) else '0')
  }

  function CountUp(digits: string): string {
    if digits == "" then digits
    else if digits[|digits| - 1] == '9' then Carry(digits)
    else digits[..|digits| - 1] + [DigitUp(digits[|digits| - 1])]
  }

  function DigitChar(d: nat): char
    requires d < 10
  {
    "0123456789"[d]
  }

  /** The decimal digits of a count. */
  function Decimal(n: nat): string {
    if n < 10 then [DigitChar(n)] else Decimal(n / 10) + [DigitChar(n % 10)]
  }

  // ----- the steps -----

  datatype Opens = Nothing | Opens(marker: Marker)

  function PushOrDone(s: Stack, inner: Opens, out: seq<Text>): Outcome {
    match inner
    case Nothing => if s == [] then Transition([Done], out + [[Break]]) else Transition(s, out)
    case Opens(marker) => Transition(s + [marker], out)
  }

  /** A value written where it is read. */
  function StreamValue(s: Stack, text: Text, inner: Opens): Outcome {
    if s == [] then
      PushOrDone([], inner, [text])
    else
      match Top(s)
      case ListStream(index) =>
        if index == "" then PushOrDone(Mark(ListStream("0"), s), inner, [text])
        else PushOrDone(Mark(ListStream(CountUp(index)), s), inner, [[Comma], text])
      case MapStream(ValueOf(k)) => PushOrDone(Mark(MapStream(NextKey(k)), s), inner, [text])
      case _ => NoCase
  }

  /** A value completed inside a held list or object. */
  function HoldValue(s: Stack, item: Item): Outcome
    requires s != []
  {
    match Top(s)
    case ListHold(items) => Transition(Mark(ListHold(items + [Lead(items, item)]), s), [])
    case MapHold(parts, HeldValue(k)) => Transition(Mark(MapHold(parts + [Part(k, item.text)], HeldKey), s), [])
    case _ => NoCase
  }

  /** A value written as it was read has ended. */
  function Closed(s: Stack, text: Text): Outcome {
    if s == [] then Transition([Done], [text, [Break]]) else Transition(s, [text])
  }

  /** A list whose first element, an object, has ended. */
  function FirstHeld(s: Stack, item: Item): Outcome
    requires s != []
  {
    match item.head
    case NoOp => Transition(Mark(ListStream("0"), s), [[LBracket], item.text])
    case TheOp(_) => Transition(Mark(ListHold([Lead([], item)]), s), [])
  }

  /** A held value has ended. */
  function Held(s: Stack, item: Item): Outcome {
    if s == [] then
      Closed(s, item.text)
    else
      match Top(s)
      case ListHold(_) => HoldValue(s, item)
      case MapHold(_, _) => HoldValue(s, item)
      case ListFirst => FirstHeld(s, item)
      case _ => Closed(s, item.text)
  }

  predicate Holding(s: Stack) {
    s != [] && (Top(s).ListHold? || Top(s).MapHold? || Top(s).ListFirst?)
  }

  /** A list whose first element is due decides on that element's first event. */
  function Decide(s: Stack, hold: bool, event: Event): (Stack, Text)
    requires s != []
  {
    if hold then (Mark(ListHold([]), s), [])
    else
      match event
      case Scalar(value) =>
        if ExprOp(value).NoOp? then (Mark(ListStream(""), s), [LBracket]) else (Mark(ListHold([]), s), [])
      case ObjectStart => (Mark(ListFirst, s), [])
      case _ => (Mark(ListStream(""), s), [LBracket])
  }

  /** A value where one is due: a scalar, or a container's start. */
  function ValueAt(s: Stack, event: Event): Outcome {
    if Holding(s) then
      match event
      case Scalar(value) => HoldValue(s, ScalarItem(value))
      case ObjectStart => Transition(s + [MapHold([], HeldKey)], [])
      case ArrayStart => Transition(s + [Pending(true)], [])
      case _ => NoCase
    else
      match event
      case Scalar(value) => StreamValue(s, ScalarText(value), Nothing)
      case ObjectStart => StreamValue(s, [LBrace], Opens(MapStream(FirstKey)))
      case ArrayStart => StreamValue(s, [], Opens(Pending(false)))
      case _ => NoCase
  }

  /** The first element of a list, once the list has decided. */
  function First(s: Stack, hold: bool, event: Event): Outcome
    requires s != []
  {
    var (s2, lead) := Decide(s, hold, event);
    match ValueAt(s2, event)
    case Transition(s3, out) =>
      if out == [] then Transition(s3, [lead])
      else if |out| == 1 then Transition(s3, [lead + out[0]])
      else NoCase
    case _ => NoCase
  }

  function KeyAt(s: Stack, name: string): Outcome {
    if s == [] then
      ProtocolOrder
    else
      match Top(s)
      case MapStream(FirstKey) => Transition(Mark(MapStream(ValueOf(name)), s), [[Quoted(name)], [Colon]])
      case MapStream(NextKey(_)) => Transition(Mark(MapStream(ValueOf(name)), s), [[Comma], [Quoted(name)], [Colon]])
      case MapHold(parts, HeldKey) => Transition(Mark(MapHold(parts, HeldValue(name)), s), [])
      case _ => ProtocolOrder
  }

  /** Whether an object ending here is the first element of a list. */
  predicate LeadsList(s: Stack) {
    s != [] && (Top(s) == ListFirst || Top(s) == ListHold([]))
  }

  datatype Path = NoPath | ThePath(steps: seq<Step>)

  /** The part of a path a marker stands for; none, where the source has no case. */
  function PathPart(m: Marker): seq<Step> {
    match m
    case ListFirst => [Index("0")]
    case ListStream(index) => [Index(index)]
    case ListHold(items) => [Index(Decimal(|items|))]
    case MapStream(NextKey(k)) => [Name(k)]
    case MapHold(_, HeldValue(k)) => [Name(k)]
    case _ => []
  }

  /** The path to the value being read, from the markers of the containers it is in. */
  function PathOf(s: Stack): Path {
    if s == [] then
      ThePath([])
    else
      match PathOf(Pop(s))
      case NoPath => NoPath
      case ThePath(steps) => if PathPart(Top(s)) == [] then NoPath else ThePath(steps + PathPart(Top(s)))
  }

  function Refuse(s: Stack, src: Text): Outcome {
    match PathOf(s)
    case ThePath(steps) => Refused(steps, src)
    case NoPath => NoCase
  }

  function EndObject(s: Stack): Outcome {
    if s == [] then
      ProtocolOrder
    else
      match Top(s)
      case MapStream(FirstKey) => Closed(Pop(s), [RBrace])
      case MapStream(NextKey(_)) => Closed(Pop(s), [RBrace])
      case MapHold(parts, HeldKey) =>
        var text := ObjectText(parts);
        (match SrcOf(parts)
         case Foreign(src) => if LeadsList(Pop(s)) then Refuse(Pop(s), src) else Held(Pop(s), Item(text, Atom, text, NoOp))
         case SrcIs(op) => Held(Pop(s), Item(text, Atom, text, TheOp(op)))
         case NoSrc => Held(Pop(s), Item(text, Atom, text, NoOp)))
      case _ => ProtocolOrder
  }

  function EndArray(s: Stack): Outcome {
    if s == [] then
      ProtocolOrder
    else
      match Top(s)
      case Pending(hold) =>
        if hold then Held(Pop(s), Item([LBracket, RBracket], Atom, [LBracket, RBracket], NoOp))
        else Closed(Pop(s), [LBracket, RBracket])
      case ListStream(_) => Closed(Pop(s), [RBracket])
      case ListHold(items) => Held(Pop(s), ArrayItem(items))
      case ListFirst => NoCase
      case _ => ProtocolOrder
  }

  /** Where a value is due: at the root, in a list, or after a key. */
  function DueAt(s: Stack, event: Event): Outcome {
    if s == [] then
      ValueAt(s, event)
    else
      match Top(s)
      case Pending(hold) => First(s, hold, event)
      case ListStream(_) => ValueAt(s, event)
      case ListHold(_) => ValueAt(s, event)
      case MapStream(ValueOf(_)) => ValueAt(s, event)
      case MapHold(_, HeldValue(_)) => ValueAt(s, event)
      case _ => ProtocolOrder
  }

  function StepOn(s: Stack, event: Event): Outcome {
    if s != [] && Top(s) == Done then
      ProtocolOrder
    else
      match event
      case Key(name) => KeyAt(s, name)
      case ObjectEnd => EndObject(s)
      case ArrayEnd => EndArray(s)
      case _ => DueAt(s, event)
  }

  datatype Rendered = Written(text: Text) | Failed(outcome: Outcome)

  function Concat(texts: seq<Text>): Text {
    if texts == [] then [] else Concat(texts[..|texts| - 1]) + texts[|texts| - 1]
  }

  /** Scan the events from a state, emitting what each step writes. */
  function RenderFrom(s: Stack, events: seq<Event>): Rendered
    decreases |events|
  {
    if events == [] then
      if s == [Done] then Written([]) else Failed(ProtocolOrder)
    else
      match StepOn(s, events[0])
      case Transition(s', out) =>
        (match RenderFrom(s', events[1..])
         case Written(text) => Written(Concat(out) + text)
         case Failed(outcome) => Failed(outcome))
      case outcome => Failed(outcome)
  }

  function Render(events: seq<Event>): Rendered {
    RenderFrom([], events)
  }
}
