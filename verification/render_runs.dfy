/**
 What the render does, told without its stack: a plain recursive printer of
 trees, and a machine that only rebuilds the tree its events are of. The
 stack is a function of what has been rebuilt, so every run is settled.
 */
module RenderRuns {
  import opened Rendering

  // ----- what an object describes -----

  datatype Source = NoSource | TheSource(value: Datum)

  /** The value of the last member named `src`. */
  function SourceOf(ms: seq<Member>): Source {
    if ms == [] then NoSource
    else if ms[|ms| - 1].key == "src" then TheSource(ms[|ms| - 1].value)
    else SourceOf(ms[..|ms| - 1])
  }

  /** The string a value is written as, if it is written as one. */
  function AsString(d: Datum): (r: (bool, string)) {
    match d
    case Value(Str(text)) => (true, text)
    case Value(Num(NotFinite(name))) => (true, name)
    case _ => (false, "")
  }

  /** A value that says nothing: the empty string, false, null, or zero without a sign. */
  predicate Empty(d: Datum) {
    || AsString(d) == (true, "")
    || d == Value(Truth(false)) || d == Value(Null)
    || (d.Value? && d.scalar.Num? && d.scalar.number.Finite? && !d.scalar.number.minus && d.scalar.number.zero)
  }

  /** The default operator a value names. */
  function Named(d: Datum): Head {
    var (written, s) := AsString(d);
    if written && (s == "+" || s == "-" || s == "*" || s == "/" || s == "%" || s == "(") then TheOp(s) else NoOp
  }

  /** The default operator an object describes. */
  function DescriptionOf(ms: seq<Member>): Head {
    if SourceOf(ms).TheSource? then Named(SourceOf(ms).value) else NoOp
  }

  /** An object a list it leads would be read as an operation for, though it names no default operator. */
  predicate Unreadable(d: Datum) {
    d.Object? && SourceOf(d.members).TheSource? && Named(SourceOf(d.members).value).NoOp? && !Empty(SourceOf(d.members).value)
  }

  // ----- the plain printer -----

  /** How a tree is written as a term, and as a list. */
  function ItemOf(d: Datum): Item
    decreases d
  {
    match d
    case Value(v) => ScalarItem(v)
    case List(items) => ArrayItem(Items(items))
    case Object(members) =>
      var text := ObjectText(Parts(members));
      Item(text, Atom, text, DescriptionOf(members))
  }

  function Items(ds: seq<Datum>): (r: seq<Item>)
    ensures |r| == |ds|
    decreases ds
  {
    if ds == [] then []
    else
      var init := Items(ds[..|ds| - 1]);
      init + [Lead(init, ItemOf(ds[|ds| - 1]))]
  }

  function Parts(ms: seq<Member>): (r: seq<Text>)
    ensures |r| == |ms|
    decreases ms
  {
    if ms == [] then [] else Parts(ms[..|ms| - 1]) + [Part(ms[|ms| - 1].key, ItemOf(ms[|ms| - 1].value).text)]
  }

  function Print(d: Datum): Text {
    ItemOf(d).text
  }

  // ----- events -----

  function Events(d: Datum): seq<Event>
    decreases d
  {
    match d
    case Value(v) => [Event.Scalar(v)]
    case List(items) => [ArrayStart] + ListEvents(items) + [ArrayEnd]
    case Object(members) => [ObjectStart] + MemberEvents(members) + [ObjectEnd]
  }

  function ListEvents(ds: seq<Datum>): seq<Event>
    decreases ds
  {
    if ds == [] then [] else ListEvents(ds[..|ds| - 1]) + Events(ds[|ds| - 1])
  }

  function MemberEvents(ms: seq<Member>): seq<Event>
    decreases ms
  {
    if ms == [] then []
    else MemberEvents(ms[..|ms| - 1]) + [Key(ms[|ms| - 1].key)] + Events(ms[|ms| - 1].value)
  }

  // ----- rebuilding the tree -----

  /** An open container: what it has so far, and for an object the key whose value is due. */
  datatype Frame = InList(done: seq<Datum>) | AtKey(members: seq<Member>) | AtValue(members: seq<Member>, key: string)

  datatype Built = Within(frames: seq<Frame>) | Complete(tree: Datum)

  predicate ValueDue(frames: seq<Frame>) {
    frames == [] || !Inner(frames).AtKey?
  }

  function Inner(frames: seq<Frame>): Frame
    requires frames != []
  {
    frames[|frames| - 1]
  }

  function Outer(frames: seq<Frame>): seq<Frame>
    requires frames != []
  {
    frames[..|frames| - 1]
  }

  /** Containers are open only where a value is due. */
  predicate Proper(b: Built) {
    b.Within? ==> forall k | 0 <= k < |b.frames| :: ValueDue(b.frames[..k])
  }

  function Add(frames: seq<Frame>, d: Datum): Built
    requires ValueDue(frames)
  {
    if frames == [] then Complete(d)
    else if Inner(frames).InList? then Within(Outer(frames) + [InList(Inner(frames).done + [d])])
    else Within(Outer(frames) + [AtKey(Inner(frames).members + [Member(Inner(frames).key, d)])])
  }

  /** The path to the value due. */
  function PathTo(frames: seq<Frame>): seq<Step> {
    if frames == [] then []
    else
      PathTo(Outer(frames)) +
      (match Inner(frames)
       case InList(done) => [Index(Decimal(|done|))]
       case AtValue(_, k) => [Name(k)]
       case AtKey(_) => [])
  }

  datatype Advanced = Onward(built: Built) | OutOfOrder | Refusal(path: seq<Step>, src: Text)

  function Advance(b: Built, event: Event): Advanced
    requires Proper(b)
  {
    if b.Complete? then OutOfOrder
    else
      var frames := b.frames;
      match event
      case Scalar(v) => if ValueDue(frames) then Onward(Add(frames, Value(v))) else OutOfOrder
      case ObjectStart => if ValueDue(frames) then Onward(Within(frames + [AtKey([])])) else OutOfOrder
      case ArrayStart => if ValueDue(frames) then Onward(Within(frames + [InList([])])) else OutOfOrder
      case Key(name) =>
        if frames != [] && Inner(frames).AtKey? then Onward(Within(Outer(frames) + [AtValue(Inner(frames).members, name)]))
        else OutOfOrder
      case ObjectEnd =>
        if frames != [] && Inner(frames).AtKey? then
          var d := Object(Inner(frames).members);
          if Unreadable(d) && Leads(Outer(frames)) then Refusal(PathTo(Outer(frames)), Print(SourceOf(d.members).value))
          else Onward(Add(Outer(frames), d))
        else OutOfOrder
      case ArrayEnd =>
        if frames != [] && Inner(frames).InList? then Onward(Add(Outer(frames), List(Inner(frames).done)))
        else OutOfOrder
  }

  /** Whether the value due is the first element of a list. */
  predicate Leads(frames: seq<Frame>) {
    frames != [] && Inner(frames) == InList([])
  }

  lemma AdvanceProper(b: Built, event: Event)
    requires Proper(b) && Advance(b, event).Onward?
    ensures Proper(Advance(b, event).built)
  {
    var b' := Advance(b, event).built;
    if b'.Within? {
      var n := if |b.frames| < |b'.frames| then |b.frames| else |b'.frames| - 1;
      assert b'.frames[..n] == b.frames[..n];
      assert b.frames[..|b.frames|] == b.frames;
      forall k | 0 <= k < |b'.frames|
        ensures ValueDue(b'.frames[..k])
      {
        assert k <= n && b'.frames[..k] == b.frames[..k];
      }
    }
  }

  // ----- the stack as a function of the frames -----

  /** What is open directly inside a frame. */
  datatype Child = NoChild | AList | AnObject

  function KindOf(f: Frame): Child {
    if f.InList? then AList else AnObject
  }

  function LastKey(ms: seq<Member>): Due {
    if ms == [] then FirstKey else NextKey(ms[|ms| - 1].key)
  }

  function FrameMark(hold: bool, f: Frame, child: Child): Marker {
    match f
    case InList(done) =>
      if done == [] then
        if child.NoChild? then Pending(hold)
        else if hold then ListHold([])
        else if child.AList? then ListStream("0")
        else ListFirst
      else if hold || ItemOf(done[0]).head.TheOp? then ListHold(Items(done))
      else ListStream(Decimal(if child.NoChild? then |done| - 1 else |done|))
    case AtKey(ms) =>
      if hold then MapHold(Parts(ms), HeldKey) else MapStream(LastKey(ms))
    case AtValue(ms, k) =>
      if hold then MapHold(Parts(ms), HeldValue(k))
      else if child.NoChild? then MapStream(ValueOf(k))
      else MapStream(NextKey(k))
  }

  function Marks(frames: seq<Frame>, child: Child): Stack {
    if frames == [] then []
    else
      var below := Marks(Outer(frames), KindOf(Inner(frames)));
      below + [FrameMark(Holding(below), Inner(frames), child)]
  }

  function StackOf(b: Built): Stack {
    if b.Complete? then [Done] else Marks(b.frames, NoChild)
  }

  // ----- the text as a function of the frames -----

  function CommaIf(some: bool): Text {
    if some then [Comma] else []
  }

  function Prints(ds: seq<Datum>): seq<Text>
  {
    seq(|ds|, k requires 0 <= k < |ds| => Print(ds[k]))
  }

  /** What a frame that is not inside a held one has written. */
  function FrameText(f: Frame, child: Child): Text {
    match f
    case InList(done) =>
      if done == [] then
        if child.AList? then [LBracket] else []
      else if ItemOf(done[0]).head.TheOp? then []
      else [LBracket] + Join(Prints(done)) + CommaIf(!child.NoChild?)
    case AtKey(ms) => [LBrace] + Join(Parts(ms))
    case AtValue(ms, k) => [LBrace] + Join(Parts(ms)) + CommaIf(ms != []) + [Quoted(k), Colon]
  }

  function Emitted(frames: seq<Frame>, child: Child): Text {
    if frames == [] then []
    else
      var kind := KindOf(Inner(frames));
      Emitted(Outer(frames), kind)
      + if Holding(Marks(Outer(frames), kind)) then [] else FrameText(Inner(frames), child)
  }

  function TextOf(b: Built): Text {
    if b.Complete? then Print(b.tree) + [Break] else Emitted(b.frames, NoChild)
  }
}
