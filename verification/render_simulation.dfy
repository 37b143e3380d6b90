/** Every state the render reaches, and all it has written there, follow from the tree rebuilt so far. */
module RenderSimulation {
  import opened Rendering
  import opened Counting
  import opened RenderRuns
  import opened RenderSources

  // ----- held lists -----

  lemma HeadsAreOperators(d: Datum)
    ensures ItemOf(d).head.TheOp? ==> ItemOf(d).head.src in OPERATORS
  {
  }

  lemma LeadHead(d: Datum)
    ensures Lead([], ItemOf(d)).head == ItemOf(d).head
  {
    HeadsAreOperators(d);
  }

  lemma {:induction false} ItemsAt(ds: seq<Datum>, k: nat)
    requires k < |ds|
    ensures Items(ds)[k] == if k == 0 then Lead([], ItemOf(ds[0])) else ItemOf(ds[k])
  {
    var init := ds[..|ds| - 1];
    if k < |init| {
      ItemsAt(init, k);
      assert init[k] == ds[k];
    } else if k == 0 {
      assert Items(init) == [];
    }
  }

  lemma ItemsTexts(ds: seq<Datum>)
    requires ds != [] ==> ItemOf(ds[0]).head.NoOp?
    ensures Texts(Items(ds)) == Prints(ds)
  {
    forall k | 0 <= k < |ds|
      ensures Items(ds)[k].text == Print(ds[k])
    {
      ItemsAt(ds, k);
    }
  }

  /** A list that no operator leads is written as a list. */
  lemma PlainList(ds: seq<Datum>)
    requires ds != [] ==> ItemOf(ds[0]).head.NoOp?
    ensures Print(List(ds)) == [LBracket] + Join(Prints(ds)) + [RBracket]
  {
    ItemsTexts(ds);
    if ds != [] {
      ItemsAt(ds, 0);
    }
  }

  lemma JoinSnoc(texts: seq<Text>, t: Text)
    ensures Join(texts + [t]) == Join(texts) + CommaIf(texts != []) + t
  {
    assert (texts + [t])[..|texts|] == texts;
    if texts == [] {
      assert Join([t]) == t;
    }
  }

  lemma PrintsSnoc(ds: seq<Datum>, d: Datum)
    ensures Prints(ds + [d]) == Prints(ds) + [Print(d)]
  {
  }

  lemma PartsSnoc(ms: seq<Member>, m: Member)
    ensures Parts(ms + [m]) == Parts(ms) + [Part(m.key, Print(m.value))]
  {
    assert (ms + [m])[..|ms|] == ms;
  }

  lemma ItemsSnoc(ds: seq<Datum>, d: Datum)
    ensures Items(ds + [d]) == Items(ds) + [Lead(Items(ds), ItemOf(d))]
  {
    assert (ds + [d])[..|ds|] == ds;
  }

  // ----- the stack and the text, one frame changed -----

  lemma MarksSnoc(frames: seq<Frame>, f: Frame, child: Child)
    ensures Marks(frames + [f], child)
         == Marks(frames, KindOf(f)) + [FrameMark(Holding(Marks(frames, KindOf(f))), f, child)]
    ensures Emitted(frames + [f], child)
         == Emitted(frames, KindOf(f)) + if Holding(Marks(frames, KindOf(f))) then [] else FrameText(f, child)
  {
    assert Outer(frames + [f]) == frames;
  }

  /** Marks and text by the innermost frame and those around it. */
  lemma Unfolded(frames: seq<Frame>, child: Child)
    requires frames != []
    ensures Marks(frames, child) == Marks(Outer(frames) + [Inner(frames)], child)
    ensures Emitted(frames, child) == Emitted(Outer(frames) + [Inner(frames)], child)
  {
    assert frames == Outer(frames) + [Inner(frames)];
  }

  /** The state after a value that was open inside `frames` is added to them. */
  ghost predicate Adds(frames: seq<Frame>, child: Child, d: Datum, outcome: Outcome, before: Text)
    requires ValueDue(frames)
  {
    && outcome.Transition?
    && outcome.stack == StackOf(Add(frames, d))
    && before + Concat(outcome.out) == TextOf(Add(frames, d))
  }

  lemma Concat1(t: Text)
    ensures Concat([t]) == t
  {
    assert Concat([]) + t == t;
  }

  lemma Concat2(t: Text, u: Text)
    ensures Concat([t, u]) == t + u
  {
    Concat1(t);
    assert [t, u][..1] == [t];
  }

  predicate IsKind(child: Child, d: Datum) {
    match child
    case AList => d.List?
    case AnObject => d.Object?
    case NoChild => d.Value?
  }

  lemma MarksEmpty(frames: seq<Frame>, child: Child)
    ensures Marks(frames, child) == [] <==> frames == []
  {
  }

  /** A container written as it was read ends. */
  lemma ClosesStream(frames: seq<Frame>, child: Child, d: Datum, before: Text, text: Text)
    requires ValueDue(frames) && !child.NoChild? && IsKind(child, d) && !Holding(Marks(frames, child))
    requires before + text == Emitted(frames, child) + Print(d)
    ensures Adds(frames, child, d, Closed(Marks(frames, child), text), before)
  {
    MarksEmpty(frames, child);
    if frames == [] {
      Concat2(text, [Break]);
      ClosesRoot(d, before, text);
    } else {
      Concat1(text);
      if Leads(frames) {
        LeadsOpen(frames, child);
      }
      StreamedAdd(frames, child, d);
    }
  }

  lemma ClosesRoot(d: Datum, before: Text, text: Text)
    requires before + text == [] + Print(d)
    ensures before + (text + [Break]) == TextOf(Complete(d))
  {
    assert before + (text + [Break]) == before + text + [Break];
    assert [] + Print(d) == Print(d);
  }

  /** A list whose first element is open is written as it is read only where that element is a list. */
  lemma LeadsOpen(frames: seq<Frame>, child: Child)
    requires Leads(frames) && !child.NoChild? && !Holding(Marks(frames, child))
    ensures child.AList?
  {
    Unfolded(frames, child);
    MarksTop(Outer(frames), Inner(frames), child);
  }

  lemma FirstElement(d: Datum)
    ensures Items([d]) == [Lead([], ItemOf(d))]
    ensures FrameText(InList([d]), NoChild) == if ItemOf(d).head.TheOp? then [] else [LBracket] + Print(d)
    ensures FrameMark(false, InList([d]), NoChild)
         == if ItemOf(d).head.TheOp? then ListHold([Lead([], ItemOf(d))]) else ListStream("0")
  {
    ItemsSnoc([], d);
    assert [] + [d] == [d];
    assert Prints([d]) == [Print(d)];
    assert Decimal(0) == "0";
  }

  /** What a list not inside a held one becomes, and has written, with one more element. */
  lemma StreamedElement(done: seq<Datum>, child: Child, d: Datum)
    requires !child.NoChild? && FrameMark(false, InList(done), child).ListStream?
    requires done == [] ==> ItemOf(d).head.NoOp?
    ensures FrameMark(false, InList(done), child) == FrameMark(false, InList(done + [d]), NoChild)
    ensures FrameText(InList(done), child) + Print(d) == FrameText(InList(done + [d]), NoChild)
  {
    if done == [] {
      FirstElement(d);
      assert [] + [d] == [d];
    } else {
      PrintsSnoc(done, d);
      JoinSnoc(Prints(done), Print(d));
      assert (done + [d])[0] == done[0];
      Appended([LBracket], Join(Prints(done)) + [Comma], Print(d));
    }
  }

  lemma StreamedMember(ms: seq<Member>, k: string, child: Child, d: Datum)
    requires !child.NoChild?
    ensures FrameMark(false, AtValue(ms, k), child) == FrameMark(false, AtKey(ms + [Member(k, d)]), NoChild)
    ensures FrameText(AtValue(ms, k), child) + Print(d) == FrameText(AtKey(ms + [Member(k, d)]), NoChild)
  {
    PartsSnoc(ms, Member(k, d));
    JoinSnoc(Parts(ms), Part(k, Print(d)));
    FivePieces([LBrace], Join(Parts(ms)), CommaIf(ms != []), [Quoted(k), Colon], Print(d));
  }

  lemma FivePieces(a: Text, b: Text, c: Text, d: Text, e: Text)
    ensures a + b + c + d + e == a + (b + c + (d + e))
  {
  }

  /** One frame gives way to another of its kind. */
  lemma FrameChanged(outer: seq<Frame>, f: Frame, child: Child, g: Frame, child': Child, t: Text)
    requires KindOf(f) == KindOf(g)
    requires if Holding(Marks(outer, KindOf(f))) then t == [] else FrameText(f, child) + t == FrameText(g, child')
    ensures Marks(outer + [g], child')
         == Pop(Marks(outer + [f], child)) + [FrameMark(Holding(Marks(outer, KindOf(f))), g, child')]
    ensures Emitted(outer + [f], child) + t == Emitted(outer + [g], child')
  {
    MarksSnoc(outer, f, child);
    MarksSnoc(outer, g, child');
    if !Holding(Marks(outer, KindOf(f))) {
      Appended(Emitted(outer, KindOf(f)), FrameText(f, child), t);
    }
  }

  lemma Appended(a: Text, b: Text, c: Text)
    ensures a + b + c == a + (b + c)
  {
  }


  /** What is open inside a held container is held. */
  lemma HoldInherits(outer: seq<Frame>, f: Frame, child: Child)
    requires !child.NoChild? && Holding(Marks(outer, KindOf(f)))
    ensures Holding(Marks(outer + [f], child))
  {
    MarksSnoc(outer, f, child);
  }

  lemma MarksTop(outer: seq<Frame>, f: Frame, child: Child)
    ensures Marks(outer + [f], child) != []
    ensures Pop(Marks(outer + [f], child)) == Marks(outer, KindOf(f))
    ensures Top(Marks(outer + [f], child)) == FrameMark(Holding(Marks(outer, KindOf(f))), f, child)
  {
    MarksSnoc(outer, f, child);
  }

  /** Inside what is written as it is read, adding a value appends its text. */
  lemma StreamedAdd(frames: seq<Frame>, child: Child, d: Datum)
    requires frames != [] && ValueDue(frames) && !child.NoChild? && !Holding(Marks(frames, child))
    requires Leads(frames) ==> ItemOf(d).head.NoOp?
    ensures Marks(frames, child) == StackOf(Add(frames, d))
    ensures Emitted(frames, child) + Print(d) == TextOf(Add(frames, d))
  {
    var outer, f := Outer(frames), Inner(frames);
    Unfolded(frames, child);
    if f.InList? {
      StreamedAddElement(outer, f.done, child, d);
    } else {
      StreamedAddMember(outer, f.members, f.key, child, d);
    }
  }

  lemma StreamedAddElement(outer: seq<Frame>, done: seq<Datum>, child: Child, d: Datum)
    requires !child.NoChild? && !Holding(Marks(outer + [InList(done)], child))
    requires done == [] ==> ItemOf(d).head.NoOp?
    ensures Marks(outer + [InList(done)], child) == Marks(outer + [InList(done + [d])], NoChild)
    ensures Emitted(outer + [InList(done)], child) + Print(d) == Emitted(outer + [InList(done + [d])], NoChild)
  {
    NotHeldAround(outer, InList(done), child);
    MarksTop(outer, InList(done), child);
    StreamedElement(done, child, d);
    FrameChanged(outer, InList(done), child, InList(done + [d]), NoChild, Print(d));
  }

  lemma StreamedAddMember(outer: seq<Frame>, ms: seq<Member>, k: string, child: Child, d: Datum)
    requires !child.NoChild? && !Holding(Marks(outer + [AtValue(ms, k)], child))
    ensures Marks(outer + [AtValue(ms, k)], child) == Marks(outer + [AtKey(ms + [Member(k, d)])], NoChild)
    ensures Emitted(outer + [AtValue(ms, k)], child) + Print(d) == Emitted(outer + [AtKey(ms + [Member(k, d)])], NoChild)
  {
    NotHeldAround(outer, AtValue(ms, k), child);
    MarksTop(outer, AtValue(ms, k), child);
    StreamedMember(ms, k, child, d);
    FrameChanged(outer, AtValue(ms, k), child, AtKey(ms + [Member(k, d)]), NoChild, Print(d));
  }

  /** What is open inside a container that is written is in one that is written. */
  lemma NotHeldAround(outer: seq<Frame>, f: Frame, child: Child)
    requires !child.NoChild? && !Holding(Marks(outer + [f], child))
    ensures !Holding(Marks(outer, KindOf(f)))
  {
    if Holding(Marks(outer, KindOf(f))) {
      HoldInherits(outer, f, child);
    }
  }

  /** Inside a held list, adding a value adds its item and writes nothing. */
  lemma HeldElement(hold: bool, done: seq<Datum>, child: Child, d: Datum)
    requires FrameMark(hold, InList(done), child).ListHold?
    ensures FrameMark(hold, InList(done), child).items == Items(done)
    ensures FrameMark(hold, InList(done + [d]), NoChild) == ListHold(Items(done) + [Lead(Items(done), ItemOf(d))])
    ensures !hold ==> FrameText(InList(done), child) == [] == FrameText(InList(done + [d]), NoChild)
  {
    ItemsSnoc(done, d);
    if done != [] {
      assert (done + [d])[0] == done[0];
    }
  }

  lemma HeldMember(ms: seq<Member>, k: string, child: Child, d: Datum)
    ensures FrameMark(true, AtValue(ms, k), child) == MapHold(Parts(ms), HeldValue(k))
    ensures FrameMark(true, AtKey(ms + [Member(k, d)]), NoChild) == MapHold(Parts(ms) + [Part(k, Print(d))], HeldKey)
  {
    PartsSnoc(ms, Member(k, d));
  }

  /** A value inside what is held is added to it. */
  lemma HeldAdd(frames: seq<Frame>, child: Child, d: Datum)
    requires frames != [] && ValueDue(frames) && Holding(Marks(frames, child)) && !Top(Marks(frames, child)).ListFirst?
    ensures HoldValue(Marks(frames, child), ItemOf(d)) == Transition(StackOf(Add(frames, d)), [])
    ensures Emitted(frames, child) == TextOf(Add(frames, d))
  {
    var outer, f := Outer(frames), Inner(frames);
    Unfolded(frames, child);
    var g := if f.InList? then InList(f.done + [d]) else AtKey(f.members + [Member(f.key, d)]);
    if f.InList? {
      HeldMark(outer, f, child);
      HeldAddElement(outer, f.done, child, d);
    } else {
      HeldMark(outer, f, child);
      HeldAddMember(outer, f.members, f.key, child, d);
    }
    assert Add(frames, d) == Within(outer + [g]);
  }

  /** A frame that holds what is read, other than a list waiting for its first object, is marked so. */
  lemma HeldMark(outer: seq<Frame>, f: Frame, child: Child)
    requires Holding(Marks(outer + [f], child)) && !Top(Marks(outer + [f], child)).ListFirst?
    ensures Top(Marks(outer + [f], child)).ListHold? == f.InList?
    ensures Top(Marks(outer + [f], child)).MapHold? == !f.InList?
  {
    MarksTop(outer, f, child);
  }

  lemma HeldAddElement(outer: seq<Frame>, done: seq<Datum>, child: Child, d: Datum)
    requires Top(Marks(outer + [InList(done)], child)).ListHold?
    ensures HoldValue(Marks(outer + [InList(done)], child), ItemOf(d))
         == Transition(Marks(outer + [InList(done + [d])], NoChild), [])
    ensures Emitted(outer + [InList(done)], child) == Emitted(outer + [InList(done + [d])], NoChild)
  {
    MarksTop(outer, InList(done), child);
    HeldElement(Holding(Marks(outer, AList)), done, child, d);
    FrameChanged(outer, InList(done), child, InList(done + [d]), NoChild, []);
  }

  lemma HeldAddMember(outer: seq<Frame>, ms: seq<Member>, k: string, child: Child, d: Datum)
    requires Top(Marks(outer + [AtValue(ms, k)], child)).MapHold?
    ensures HoldValue(Marks(outer + [AtValue(ms, k)], child), ItemOf(d))
         == Transition(Marks(outer + [AtKey(ms + [Member(k, d)])], NoChild), [])
    ensures Emitted(outer + [AtValue(ms, k)], child) == Emitted(outer + [AtKey(ms + [Member(k, d)])], NoChild)
  {
    MarksTop(outer, AtValue(ms, k), child);
    HeldMember(ms, k, child, d);
    FrameChanged(outer, AtValue(ms, k), child, AtKey(ms + [Member(k, d)]), NoChild, []);
  }

  /** The object a list waited for decides how the list is written. */
  lemma FirstHeldAdd(frames: seq<Frame>, d: Datum)
    requires frames != [] && ValueDue(frames) && Top(Marks(frames, AnObject)).ListFirst? && d.Object?
    ensures Adds(frames, AnObject, d, FirstHeld(Marks(frames, AnObject), ItemOf(d)), Emitted(frames, AnObject))
  {
    IsWaiting(frames);
    FirstHeldAt(Outer(frames), d);
    assert [] + [d] == [d];
  }

  lemma IsWaiting(frames: seq<Frame>)
    requires frames != [] && Top(Marks(frames, AnObject)).ListFirst?
    ensures Inner(frames) == InList([]) && !Holding(Marks(Outer(frames), AList))
    ensures Marks(frames, AnObject) == Marks(Outer(frames) + [InList([])], AnObject)
    ensures Emitted(frames, AnObject) == Emitted(Outer(frames) + [InList([])], AnObject)
  {
    Unfolded(frames, AnObject);
    MarksTop(Outer(frames), Inner(frames), AnObject);
  }

  lemma FirstHeldAt(outer: seq<Frame>, d: Datum)
    requires d.Object? && !Holding(Marks(outer, AList))
    ensures FirstHeld(Marks(outer + [InList([])], AnObject), ItemOf(d)).Transition?
    ensures FirstHeld(Marks(outer + [InList([])], AnObject), ItemOf(d)).stack == Marks(outer + [InList([d])], NoChild)
    ensures Emitted(outer + [InList([])], AnObject)
            + Concat(FirstHeld(Marks(outer + [InList([])], AnObject), ItemOf(d)).out) == Emitted(outer + [InList([d])], NoChild)
  {
    WaitedFor(outer, InList([d]));
    FirstHeldOn(Marks(outer + [InList([])], AnObject), d);
  }

  /** A list that has waited gives way to one that has not. */
  lemma WaitedFor(outer: seq<Frame>, g: Frame)
    requires g.InList? && !Holding(Marks(outer, AList))
    ensures Marks(outer + [InList([])], AnObject) != []
    ensures Marks(outer + [g], NoChild) == Pop(Marks(outer + [InList([])], AnObject)) + [FrameMark(false, g, NoChild)]
    ensures Emitted(outer + [InList([])], AnObject) + FrameText(g, NoChild) == Emitted(outer + [g], NoChild)
  {
    MarksTop(outer, InList([]), AnObject);
    assert [] + FrameText(g, NoChild) == FrameText(g, NoChild);
    FrameChanged(outer, InList([]), AnObject, g, NoChild, FrameText(g, NoChild));
  }

  /** What the first element of a waiting list makes of the marker, and what is written then. */
  lemma FirstHeldOn(s: Stack, d: Datum)
    requires s != []
    ensures FirstHeld(s, ItemOf(d)).Transition?
    ensures FirstHeld(s, ItemOf(d)).stack == Pop(s) + [FrameMark(false, InList([d]), NoChild)]
    ensures Concat(FirstHeld(s, ItemOf(d)).out) == FrameText(InList([d]), NoChild)
  {
    FirstElement(d);
    Concat2([LBracket], Print(d));
    assert Concat([]) == [];
  }

  /** A value whose item was made while it was open is added, held or written. */
  lemma HeldEnds(frames: seq<Frame>, child: Child, d: Datum)
    requires ValueDue(frames) && !child.NoChild? && IsKind(child, d)
    ensures Adds(frames, child, d, Held(Marks(frames, child), ItemOf(d)), Emitted(frames, child))
  {
    if !Holding(Marks(frames, child)) {
      ClosesStream(frames, child, d, Emitted(frames, child), Print(d));
    } else if Top(Marks(frames, child)).ListFirst? {
      WaitsForObject(frames, child);
      FirstHeldAdd(frames, d);
    } else {
      HeldWithin(frames, child, d);
    }
  }

  /** A value that ends inside a held container is added to it. */
  lemma HeldWithin(frames: seq<Frame>, child: Child, d: Datum)
    requires frames != [] && ValueDue(frames) && Holding(Marks(frames, child)) && !Top(Marks(frames, child)).ListFirst?
    ensures Adds(frames, child, d, Held(Marks(frames, child), ItemOf(d)), Emitted(frames, child))
  {
    HeldAdd(frames, child, d);
    assert Emitted(frames, child) + Concat([]) == Emitted(frames, child);
  }

  /** What a list waits for is an object. */
  lemma WaitsForObject(frames: seq<Frame>, child: Child)
    requires frames != [] && Marks(frames, child) != [] && Top(Marks(frames, child)).ListFirst?
    ensures child.AnObject?
  {
    Unfolded(frames, child);
    MarksTop(Outer(frames), Inner(frames), child);
  }

  // ----- one event -----

  /** A step leaves the stack and the text that belong to what is rebuilt then. */
  ghost predicate Steps(b: Built, outcome: Outcome, b': Built) {
    && outcome.Transition?
    && outcome.stack == StackOf(b')
    && TextOf(b) + Concat(outcome.out) == TextOf(b')
  }

  /** Two texts in a row, the first of them written by what is open. */
  lemma EndsStreamed(outer: seq<Frame>, f: Frame, d: Datum, tail: Text)
    requires ValueDue(outer) && IsKind(KindOf(f), d) && !Holding(Marks(outer, KindOf(f)))
    requires FrameText(f, NoChild) + tail == Print(d)
    ensures Steps(Within(outer + [f]), Closed(Marks(outer, KindOf(f)), tail), Add(outer, d))
  {
    MarksSnoc(outer, f, NoChild);
    Appended(Emitted(outer, KindOf(f)), FrameText(f, NoChild), tail);
    ClosesStream(outer, KindOf(f), d, Emitted(outer + [f], NoChild), tail);
  }

  lemma EndsHeld(outer: seq<Frame>, f: Frame, d: Datum)
    requires ValueDue(outer) && IsKind(KindOf(f), d)
    requires Holding(Marks(outer, KindOf(f))) || FrameText(f, NoChild) == []
    ensures Steps(Within(outer + [f]), Held(Marks(outer, KindOf(f)), ItemOf(d)), Add(outer, d))
  {
    assert TextOf(Within(outer + [f])) == Emitted(outer, KindOf(f)) by {
      MarksSnoc(outer, f, NoChild);
    }
    HeldEnds(outer, KindOf(f), d);
  }

  /** Whether a list that ends outside anything held was written as it was read. */
  predicate Streamed(done: seq<Datum>) {
    done != [] ==> ItemOf(done[0]).head.NoOp?
  }

  lemma EmptyItem()
    ensures ItemOf(List([])) == Item([LBracket, RBracket], Atom, [LBracket, RBracket], NoOp)
  {
    PlainList([]);
    assert Join(Prints([])) == [];
  }

  lemma EndArrayAt(below: Stack, hold: bool, done: seq<Datum>)
    ensures EndArray(below + [FrameMark(hold, InList(done), NoChild)])
         == if hold || !Streamed(done) then Held(below, ItemOf(List(done)))
            else Closed(below, if done == [] then [LBracket, RBracket] else [RBracket])
  {
    var s := below + [FrameMark(hold, InList(done), NoChild)];
    assert Pop(s) == below && Top(s) == FrameMark(hold, InList(done), NoChild);
    if done == [] {
      EmptyItem();
    }
  }

  lemma EndArrayIs(outer: seq<Frame>, done: seq<Datum>)
    ensures EndArray(Marks(outer + [InList(done)], NoChild))
         == if Holding(Marks(outer, AList)) || !Streamed(done) then Held(Marks(outer, AList), ItemOf(List(done)))
            else Closed(Marks(outer, AList), if done == [] then [LBracket, RBracket] else [RBracket])
  {
    MarksSnoc(outer, InList(done), NoChild);
    EndArrayAt(Marks(outer, AList), Holding(Marks(outer, AList)), done);
  }

  lemma EndsArray(outer: seq<Frame>, done: seq<Datum>)
    requires ValueDue(outer)
    ensures Steps(Within(outer + [InList(done)]), EndArray(Marks(outer + [InList(done)], NoChild)), Add(outer, List(done)))
  {
    EndArrayIs(outer, done);
    if Holding(Marks(outer, AList)) || !Streamed(done) {
      EndsHeld(outer, InList(done), List(done));
    } else {
      PlainList(done);
      EndsStreamed(outer, InList(done), List(done), if done == [] then [LBracket, RBracket] else [RBracket]);
    }
  }

  lemma EndObjectAt(below: Stack, hold: bool, ms: seq<Member>)
    requires !(Unreadable(Object(ms)) && LeadsList(below))
    ensures EndObject(below + [FrameMark(hold, AtKey(ms), NoChild)])
         == if hold then Held(below, ItemOf(Object(ms))) else Closed(below, [RBrace])
  {
    var s := below + [FrameMark(hold, AtKey(ms), NoChild)];
    assert Pop(s) == below && Top(s) == FrameMark(hold, AtKey(ms), NoChild);
    SourceWritten(ms);
  }

  lemma EndsObject(outer: seq<Frame>, ms: seq<Member>)
    requires ValueDue(outer) && !(Unreadable(Object(ms)) && Leads(outer))
    ensures Steps(Within(outer + [AtKey(ms)]), EndObject(Marks(outer + [AtKey(ms)], NoChild)), Add(outer, Object(ms)))
  {
    var below := Marks(outer, AnObject);
    LeadsTop(outer);
    assert EndObject(Marks(outer + [AtKey(ms)], NoChild))
        == if Holding(below) then Held(below, ItemOf(Object(ms))) else Closed(below, [RBrace]) by {
      MarksSnoc(outer, AtKey(ms), NoChild);
      EndObjectAt(below, Holding(below), ms);
    }
    if Holding(below) {
      EndsHeld(outer, AtKey(ms), Object(ms));
    } else {
      EndsStreamed(outer, AtKey(ms), Object(ms), [RBrace]);
    }
  }

  /** The stack tells whether an object is the first element of a list. */
  lemma LeadsTop(frames: seq<Frame>)
    ensures LeadsList(Marks(frames, AnObject)) ==> Leads(frames)
    ensures Leads(frames) ==> LeadsList(Marks(frames, AnObject))
  {
    if frames != [] {
      Unfolded(frames, AnObject);
      MarksTop(Outer(frames), Inner(frames), AnObject);
    }
  }

  // ----- a value begins -----

  /** A value that begins after another in a list, or after its key, marks the container around it. */
  lemma BeginsStreamed(frames: seq<Frame>, child: Child, text: Text, inner: Opens) returns (lead: seq<Text>)
    requires frames != [] && ValueDue(frames) && !Leads(frames) && !child.NoChild?
    requires !Holding(Marks(frames, NoChild))
    ensures !Holding(Marks(frames, child)) && Marks(frames, child) != []
    ensures StreamValue(Marks(frames, NoChild), text, inner) == PushOrDone(Marks(frames, child), inner, lead + [text])
    ensures Emitted(frames, NoChild) + Concat(lead) == Emitted(frames, child)
  {
    var outer, f := Outer(frames), Inner(frames);
    Unfolded(frames, NoChild);
    Unfolded(frames, child);
    lead := if f.InList? then [[Comma]] else [];
    BeginsIn(outer, f, child, lead);
    if f.InList? {
      DecimalCountsUp(|f.done| - 1);
    }
    StreamValueAt(Marks(outer, KindOf(f)), f, child, text, inner);
  }

  /** The container around a value that begins is marked, and separates it from what came before. */
  lemma BeginsIn(outer: seq<Frame>, f: Frame, child: Child, lead: seq<Text>)
    requires !f.AtKey? && f != InList([]) && !child.NoChild? && !Holding(Marks(outer + [f], NoChild))
    requires lead == if f.InList? then [[Comma]] else []
    ensures Marks(outer + [f], NoChild) == Marks(outer, KindOf(f)) + [FrameMark(false, f, NoChild)]
    ensures Marks(outer + [f], child) == Marks(outer, KindOf(f)) + [FrameMark(false, f, child)]
    ensures !Holding(Marks(outer + [f], child))
    ensures Emitted(outer + [f], NoChild) + Concat(lead) == Emitted(outer + [f], child)
  {
    BeginsMarks(outer, f, child);
    Concat1([Comma]);
    FrameChanged(outer, f, NoChild, f, child, Concat(lead));
  }

  lemma BeginsMarks(outer: seq<Frame>, f: Frame, child: Child)
    requires !f.AtKey? && f != InList([]) && !child.NoChild? && !Holding(Marks(outer + [f], NoChild))
    ensures !Holding(Marks(outer, KindOf(f)))
    ensures Marks(outer + [f], NoChild) == Marks(outer, KindOf(f)) + [FrameMark(false, f, NoChild)]
    ensures Marks(outer + [f], child) == Marks(outer, KindOf(f)) + [FrameMark(false, f, child)]
    ensures !Holding(Marks(outer + [f], child))
    ensures f.InList? ==> !ItemOf(f.done[0]).head.TheOp?
  {
    var below := Marks(outer, KindOf(f));
    MarksSnoc(outer, f, NoChild);
    MarksSnoc(outer, f, child);
    HoldingTop(below, FrameMark(Holding(below), f, NoChild));
    HoldingTop(below, FrameMark(Holding(below), f, child));
  }

  lemma HoldingTop(below: Stack, m: Marker)
    ensures Holding(below + [m]) <==> m.ListHold? || m.MapHold? || m.ListFirst?
  {
    assert Top(below + [m]) == m;
  }

  /** What is written for a value that begins next in a frame, and how the frame is marked while it is open. */
  lemma StreamValueAt(below: Stack, f: Frame, child: Child, text: Text, inner: Opens)
    requires !f.AtKey? && !child.NoChild? && FrameMark(false, f, NoChild) != Pending(false)
    requires !Holding(below + [FrameMark(false, f, NoChild)])
    requires f.InList? ==> |f.done| > 0 && CountUp(Decimal(|f.done| - 1)) == Decimal(|f.done|) && Decimal(|f.done| - 1) != ""
    ensures StreamValue(below + [FrameMark(false, f, NoChild)], text, inner)
         == PushOrDone(below + [FrameMark(false, f, child)], inner, (if f.InList? then [[Comma]] else []) + [text])
  {
    var s := below + [FrameMark(false, f, NoChild)];
    assert Pop(s) == below && Top(s) == FrameMark(false, f, NoChild);
    if f.InList? {
      assert [[Comma]] + [text] == [[Comma], text];
    } else {
      assert [] + [text] == [text];
    }
  }

  /** A value that begins inside what is held changes nothing around it. */
  lemma BeginsHeld(frames: seq<Frame>, child: Child)
    requires frames != [] && ValueDue(frames) && !Leads(frames) && !child.NoChild?
    requires Holding(Marks(frames, NoChild))
    ensures Marks(frames, child) == Marks(frames, NoChild)
    ensures Emitted(frames, child) == Emitted(frames, NoChild)
  {
    var outer, f := Outer(frames), Inner(frames);
    Unfolded(frames, NoChild);
    Unfolded(frames, child);
    MarksTop(outer, f, NoChild);
    MarksTop(outer, f, child);
    FrameChanged(outer, f, NoChild, f, child, []);
  }

  predicate Starts(event: Event) {
    event.Scalar? || event.ObjectStart? || event.ArrayStart?
  }

  /** What is rebuilt once a value has begun; a scalar ends where it begins. */
  function Started(frames: seq<Frame>, event: Event): Built
    requires ValueDue(frames) && Starts(event)
  {
    if event.Scalar? then Add(frames, Value(event.scalar))
    else if event.ObjectStart? then Within(frames + [AtKey([])])
    else Within(frames + [InList([])])
  }

  function Starting(event: Event): Child {
    if event.ObjectStart? then AnObject else AList
  }

  function StartText(event: Event): Text
    requires Starts(event)
  {
    if event.Scalar? then ScalarText(event.scalar) else if event.ObjectStart? then [LBrace] else []
  }

  function StartOpens(event: Event): Opens
    requires Starts(event)
  {
    if event.Scalar? then Nothing
    else if event.ObjectStart? then Opens(MapStream(FirstKey))
    else Opens(Pending(false))
  }

  /** A list waits only for an object. */
  lemma WaitsForObjects(frames: seq<Frame>)
    requires frames != []
    ensures Marks(frames, AList) != [] && !Top(Marks(frames, AList)).ListFirst?
  {
    var outer, f := Outer(frames), Inner(frames);
    Unfolded(frames, AList);
    MarksTop(outer, f, AList);
  }

  lemma HeldScalar(frames: seq<Frame>, v: Scalar)
    requires frames != [] && ValueDue(frames) && Holding(Marks(frames, AList))
    ensures HoldValue(Marks(frames, AList), ScalarItem(v)) == Transition(StackOf(Add(frames, Value(v))), [])
    ensures Emitted(frames, AList) == TextOf(Add(frames, Value(v)))
  {
    WaitsForObjects(frames);
    HeldAdd(frames, AList, Value(v));
  }

  /** A container that begins inside what is held is held, and writes nothing. */
  lemma HeldOpens(frames: seq<Frame>, f: Frame)
    requires Holding(Marks(frames, KindOf(f)))
    ensures Marks(frames + [f], NoChild) == Marks(frames, KindOf(f)) + [FrameMark(true, f, NoChild)]
    ensures Emitted(frames + [f], NoChild) == Emitted(frames, KindOf(f))
  {
    MarksSnoc(frames, f, NoChild);
  }

  /** A value that begins inside what is held. */
  lemma HeldStarts(frames: seq<Frame>, event: Event)
    requires frames != [] && ValueDue(frames) && Starts(event) && Holding(Marks(frames, Starting(event)))
    ensures ValueAt(Marks(frames, Starting(event)), event) == Transition(StackOf(Started(frames, event)), [])
    ensures Emitted(frames, Starting(event)) == TextOf(Started(frames, event))
  {
    if event.Scalar? {
      HeldScalar(frames, event.scalar);
    } else if event.ObjectStart? {
      HeldOpens(frames, AtKey([]));
    } else {
      HeldOpens(frames, InList([]));
    }
  }

  /** A value that begins where it is written as it is read. */
  lemma StreamStarts(frames: seq<Frame>, event: Event, before: Text, lead: seq<Text>)
    requires ValueDue(frames) && Starts(event) && !Holding(Marks(frames, Starting(event)))
    requires Leads(frames) && event.Scalar? ==> ExprOp(event.scalar).NoOp?
    requires before + Concat(lead) == Emitted(frames, Starting(event))
    ensures PushOrDone(Marks(frames, Starting(event)), StartOpens(event), lead + [StartText(event)])
         == Transition(StackOf(Started(frames, event)), StartOut(frames, event, lead))
    ensures before + Concat(StartOut(frames, event, lead)) == TextOf(Started(frames, event))
  {
    StreamPushes(frames, event, lead);
    StreamStartsText(frames, event);
    StartOutText(frames, event, lead);
    Appended(before, Concat(lead), StartText(event) + BreakIf(Started(frames, event)));
  }

  lemma StreamPushes(frames: seq<Frame>, event: Event, lead: seq<Text>)
    requires ValueDue(frames) && Starts(event) && !Holding(Marks(frames, Starting(event)))
    requires Leads(frames) && event.Scalar? ==> ExprOp(event.scalar).NoOp?
    ensures PushOrDone(Marks(frames, Starting(event)), StartOpens(event), lead + [StartText(event)])
         == Transition(StackOf(Started(frames, event)), StartOut(frames, event, lead))
  {
    StreamStartsText(frames, event);
    MarksEmpty(frames, Starting(event));
    assert Marks(frames, Starting(event)) + [] == Marks(frames, Starting(event));
    assert lead + [StartText(event)] + [] == lead + [StartText(event)];
  }

  function StartOut(frames: seq<Frame>, event: Event, lead: seq<Text>): seq<Text>
    requires Starts(event)
  {
    lead + [StartText(event)] + if event.Scalar? && frames == [] then [[Break]] else []
  }

  lemma StartOutText(frames: seq<Frame>, event: Event, lead: seq<Text>)
    requires ValueDue(frames) && Starts(event)
    ensures Concat(StartOut(frames, event, lead)) == Concat(lead) + (StartText(event) + BreakIf(Started(frames, event)))
  {
    OutText(lead, StartText(event), event.Scalar? && frames == []);
  }

  lemma OutText(lead: seq<Text>, text: Text, ends: bool)
    ensures Concat(lead + [text] + if ends then [[Break]] else []) == Concat(lead) + (text + if ends then [Break] else [])
  {
    ConcatSnoc(lead, text);
    if ends {
      ConcatSnoc(lead + [text], [Break]);
      Appended(Concat(lead), text, [Break]);
    } else {
      assert lead + [text] + [] == lead + [text];
      assert text + [] == text;
    }
  }

  function BreakIf(b: Built): Text {
    if b.Complete? then [Break] else []
  }

  lemma ConcatSnoc(texts: seq<Text>, t: Text)
    ensures Concat(texts + [t]) == Concat(texts) + t
  {
    assert (texts + [t])[..|texts|] == texts;
  }

  lemma StreamStartsText(frames: seq<Frame>, event: Event)
    requires ValueDue(frames) && Starts(event) && !Holding(Marks(frames, Starting(event)))
    requires Leads(frames) && event.Scalar? ==> ExprOp(event.scalar).NoOp?
    ensures StackOf(Started(frames, event)) == if event.Scalar? && frames == [] then [Done]
            else Marks(frames, Starting(event)) + (if event.Scalar? then [] else [StartOpens(event).marker])
    ensures Emitted(frames, Starting(event)) + (StartText(event) + BreakIf(Started(frames, event)))
         == TextOf(Started(frames, event))
  {
    match event
    case Scalar(v) => StreamScalar(frames, v);
    case ObjectStart =>
      StreamOpens(frames, AtKey([]));
      assert FrameText(AtKey([]), NoChild) == [LBrace] + [];
      StartsAlone(Emitted(frames, AnObject), [LBrace]);
    case ArrayStart =>
      StreamOpens(frames, InList([]));
      StartsAlone(Emitted(frames, AList), []);
  }

  /** A scalar that is written where it begins. */
  lemma StreamScalar(frames: seq<Frame>, v: Scalar)
    requires ValueDue(frames) && !Holding(Marks(frames, AList)) && (Leads(frames) ==> ExprOp(v).NoOp?)
    ensures StackOf(Add(frames, Value(v))) == if frames == [] then [Done] else Marks(frames, AList) + []
    ensures Emitted(frames, AList) + (ScalarText(v) + BreakIf(Add(frames, Value(v)))) == TextOf(Add(frames, Value(v)))
  {
    if frames == [] {
      assert [] + (ScalarText(v) + [Break]) == ScalarText(v) + [Break];
    } else {
      StreamedAdd(frames, AList, Value(v));
      StartsAlone(Emitted(frames, AList), ScalarText(v));
    }
  }

  lemma StartsAlone(before: Text, text: Text)
    ensures before + (text + []) == before + text
  {
    assert text + [] == text;
  }

  /** A container that begins where it is written. */
  lemma StreamOpens(frames: seq<Frame>, f: Frame)
    requires !Holding(Marks(frames, KindOf(f)))
    ensures Marks(frames + [f], NoChild) == Marks(frames, KindOf(f)) + [FrameMark(false, f, NoChild)]
    ensures Emitted(frames + [f], NoChild) == Emitted(frames, KindOf(f)) + FrameText(f, NoChild)
  {
    MarksSnoc(frames, f, NoChild);
  }

  lemma ValueAtStreams(s: Stack, event: Event)
    requires Starts(event) && !Holding(s)
    ensures ValueAt(s, event) == StreamValue(s, StartText(event), StartOpens(event))
  {
  }

  lemma ValueSteps(frames: seq<Frame>, event: Event)
    requires ValueDue(frames) && !Leads(frames) && Starts(event)
    ensures Steps(Within(frames), ValueAt(Marks(frames, NoChild), event), Started(frames, event))
  {
    MarksEmpty(frames, NoChild);
    if frames == [] {
      ValueAtStreams([], event);
      StreamStarts([], event, [], []);
    } else if Holding(Marks(frames, NoChild)) {
      BeginsHeld(frames, Starting(event));
      HeldStarts(frames, event);
    } else {
      ValueAtStreams(Marks(frames, NoChild), event);
      var lead := BeginsStreamed(frames, Starting(event), StartText(event), StartOpens(event));
      StreamStarts(frames, event, Emitted(frames, NoChild), lead);
    }
  }

  /** What a list, its first element begun, is marked with, and what is open inside it then. */
  function FirstMarks(hold: bool, event: Event): Stack
    requires Starts(event)
  {
    match event
    case Scalar(v) => [FrameMark(hold, InList([Value(v)]), NoChild)]
    case ObjectStart => [FrameMark(hold, InList([]), AnObject), MapHold([], HeldKey)]
    case _ => [FrameMark(hold, InList([]), AList), Pending(hold)]
  }

  function FirstText(hold: bool, event: Event): Text
    requires Starts(event)
  {
    if hold then []
    else
      match event
      case Scalar(v) => FrameText(InList([Value(v)]), NoChild)
      case ObjectStart => []
      case _ => [LBracket]
  }

  lemma FirstOperator(below: Stack, v: Scalar)
    requires ExprOp(v).TheOp?
    ensures First(below + [Pending(false)], false, Event.Scalar(v))
         == Transition(below + FirstMarks(false, Event.Scalar(v)), [FirstText(false, Event.Scalar(v))])
  {
    var held := below + [ListHold([])];
    assert Pop(held) == below;
    assert Mark(ListHold([]), below + [Pending(false)]) == held;
    assert [] + [Lead([], ScalarItem(v))] == [Lead([], ScalarItem(v))];
    FirstElement(Value(v));
  }

  lemma FirstStreams(below: Stack, event: Event)
    requires Starts(event) && !event.ObjectStart? && (event.Scalar? ==> ExprOp(event.scalar).NoOp?)
    ensures First(below + [Pending(false)], false, event)
         == Transition(below + FirstMarks(false, event), [FirstText(false, event)])
  {
    var s2 := below + [ListStream("")];
    assert Pop(s2) == below && Mark(ListStream(""), below + [Pending(false)]) == s2;
    ValueAtStreams(s2, event);
    if event.Scalar? {
      FirstElement(Value(event.scalar));
    } else {
      assert [LBracket] + [] == [LBracket];
      assert below + [ListStream("0")] + [Pending(false)] == below + FirstMarks(false, event);
    }
  }

  lemma FirstHeldOrWaits(below: Stack, hold: bool, event: Event)
    requires Starts(event) && (hold || event.ObjectStart?)
    ensures First(below + [Pending(hold)], hold, event)
         == Transition(below + FirstMarks(hold, event), [FirstText(hold, event)])
  {
    var s2 := below + [if hold then ListHold([]) else ListFirst];
    assert Pop(s2) == below && Pop(below + [Pending(hold)]) == below;
    if event.Scalar? {
      FirstElement(Value(event.scalar));
      assert [] + [Lead([], ScalarItem(event.scalar))] == [Lead([], ScalarItem(event.scalar))];
      assert FrameMark(true, InList([Value(event.scalar)]), NoChild) == ListHold(Items([Value(event.scalar)]));
    } else if event.ObjectStart? {
      assert s2 + [MapHold([], HeldKey)] == below + FirstMarks(hold, event);
    } else {
      assert s2 + [Pending(true)] == below + FirstMarks(hold, event);
    }
  }

  lemma FirstLocally(below: Stack, hold: bool, event: Event)
    requires Starts(event)
    ensures First(below + [Pending(hold)], hold, event)
         == Transition(below + FirstMarks(hold, event), [FirstText(hold, event)])
  {
    if hold || event.ObjectStart? {
      FirstHeldOrWaits(below, hold, event);
    } else if event.Scalar? && ExprOp(event.scalar).TheOp? {
      FirstOperator(below, event.scalar);
    } else {
      FirstStreams(below, event);
    }
  }

  /** A container that opens as the first element of a list. */
  lemma FirstStackOpens(outer: seq<Frame>, f: Frame)
    requires f == AtKey([]) || f == InList([])
    ensures var below, kind := Marks(outer, AList), KindOf(f);
            var m := FrameMark(Holding(below), InList([]), kind);
            var inside := Holding(below) || f.AtKey?;
            && Marks(outer + [InList([])] + [f], NoChild) == below + [m, FrameMark(inside, f, NoChild)]
            && Emitted(outer + [InList([])] + [f], NoChild)
               == Emitted(outer, AList) + (if inside then [] else FrameText(InList([]), kind) + FrameText(f, NoChild))
  {
    var below, kind := Marks(outer, AList), KindOf(f);
    var m := FrameMark(Holding(below), InList([]), kind);
    MarksSnoc(outer, InList([]), kind);
    MarksSnoc(outer + [InList([])], f, NoChild);
    HoldingTop(below, m);
    TwoMore(below, m, FrameMark(Holding(below + [m]), f, NoChild));
    Appended(Emitted(outer, AList), if Holding(below) then [] else FrameText(InList([]), kind),
             if Holding(below + [m]) then [] else FrameText(f, NoChild));
  }

  lemma TwoMore(s: Stack, a: Marker, b: Marker)
    ensures s + [a] + [b] == s + [a, b]
  {
  }

  lemma FirstStackScalar(outer: seq<Frame>, v: Scalar)
    ensures Add(outer + [InList([])], Value(v)) == Within(outer + [InList([Value(v)])])
    ensures Marks(outer + [InList([Value(v)])], NoChild)
         == Marks(outer, AList) + [FrameMark(Holding(Marks(outer, AList)), InList([Value(v)]), NoChild)]
    ensures Emitted(outer + [InList([Value(v)])], NoChild)
         == Emitted(outer, AList) + (if Holding(Marks(outer, AList)) then [] else FrameText(InList([Value(v)]), NoChild))
  {
    assert [] + [Value(v)] == [Value(v)];
    assert Outer(outer + [InList([])]) == outer;
    MarksSnoc(outer, InList([Value(v)]), NoChild);
  }

  lemma FirstStack(outer: seq<Frame>, event: Event)
    requires Starts(event)
    ensures StackOf(Started(outer + [InList([])], event))
         == Marks(outer, AList) + FirstMarks(Holding(Marks(outer, AList)), event)
    ensures TextOf(Started(outer + [InList([])], event))
         == Emitted(outer, AList) + FirstText(Holding(Marks(outer, AList)), event)
  {
    if event.Scalar? {
      FirstStackScalar(outer, event.scalar);
    } else if event.ObjectStart? {
      FirstStackOpens(outer, AtKey([]));
    } else {
      FirstStackOpens(outer, InList([]));
      assert [LBracket] + [] == [LBracket];
    }
  }

  /** The first element of a list. */
  lemma FirstSteps(outer: seq<Frame>, event: Event)
    requires Starts(event)
    ensures Steps(Within(outer + [InList([])]),
                  First(Marks(outer + [InList([])], NoChild), Holding(Marks(outer, AList)), event),
                  Started(outer + [InList([])], event))
  {
    var below := Marks(outer, AList);
    var hold := Holding(below);
    assert Marks(outer + [InList([])], NoChild) == below + [Pending(hold)]
        && Emitted(outer + [InList([])], NoChild) == Emitted(outer, AList) by {
      MarksSnoc(outer, InList([]), NoChild);
    }
    FirstLocally(below, hold, event);
    FirstStack(outer, event);
    Concat1(FirstText(hold, event));
  }

  /** The outcome that goes with what rebuilding the tree makes of an event. */
  ghost predicate Follows(b: Built, event: Event)
    requires Proper(b)
  {
    var outcome := StepOn(StackOf(b), event);
    match Advance(b, event)
    case Onward(b') => Steps(b, outcome, b')
    case OutOfOrder => outcome == ProtocolOrder
    case Refusal(path, src) => outcome == Refused(path, src)
  }

  lemma PathExtends(below: Stack, m: Marker, steps: seq<Step>)
    requires PathOf(below) == ThePath(steps) && PathPart(m) != []
    ensures PathOf(below + [m]) == ThePath(steps + PathPart(m))
  {
    assert Pop(below + [m]) == below;
  }

  /** The markers of the open containers spell the path to the value due. */
  lemma {:induction false} PathIsTo(frames: seq<Frame>, child: Child)
    requires Proper(Within(frames)) && ValueDue(frames) && !child.NoChild?
    ensures PathOf(Marks(frames, child)) == ThePath(PathTo(frames))
  {
    if frames != [] {
      var outer, f := Outer(frames), Inner(frames);
      ProperOuter(frames);
      PathIsTo(outer, KindOf(f));
      var below := Marks(outer, KindOf(f));
      var m := FrameMark(Holding(below), f, child);
      PathFrame(Holding(below), f, child);
      PathExtends(below, m, PathTo(outer));
      assert Marks(frames, child) == below + [m];
    }
  }

  lemma ProperOuter(frames: seq<Frame>)
    requires Proper(Within(frames)) && frames != []
    ensures Proper(Within(Outer(frames))) && ValueDue(Outer(frames))
  {
    var outer := Outer(frames);
    assert ValueDue(frames[..|frames| - 1]);
    forall k | 0 <= k < |outer|
      ensures ValueDue(outer[..k])
    {
      assert outer[..k] == frames[..k];
    }
  }

  lemma PathFrame(hold: bool, f: Frame, child: Child)
    requires !child.NoChild? && !f.AtKey?
    ensures PathPart(FrameMark(hold, f, child)) == [if f.InList? then Index(Decimal(|f.done|)) else Name(f.key)]
  {
    assert Decimal(0) == "0";
  }

  lemma KeyText(ms: seq<Member>, name: string)
    ensures FrameText(AtKey(ms), NoChild) + (CommaIf(ms != []) + [Quoted(name), Colon]) == FrameText(AtValue(ms, name), NoChild)
    ensures Concat([[Comma], [Quoted(name)], [Colon]]) == [Comma] + [Quoted(name), Colon]
    ensures Concat([[Quoted(name)], [Colon]]) == [] + [Quoted(name), Colon]
  {
    Appended([LBrace] + Join(Parts(ms)), CommaIf(ms != []), [Quoted(name), Colon]);
    Concat2([Quoted(name)], [Colon]);
    ConcatSnoc([[Comma], [Quoted(name)]], [Colon]);
    Concat2([Comma], [Quoted(name)]);
    assert [[Comma], [Quoted(name)]] + [[Colon]] == [[Comma], [Quoted(name)], [Colon]];
  }

  lemma KeyAtTop(below: Stack, hold: bool, ms: seq<Member>, name: string)
    ensures var outcome := KeyAt(below + [FrameMark(hold, AtKey(ms), NoChild)], name);
            && outcome.Transition?
            && outcome.stack == below + [FrameMark(hold, AtValue(ms, name), NoChild)]
            && Concat(outcome.out) == KeyWritten(hold, ms, name)
  {
    var s := below + [FrameMark(hold, AtKey(ms), NoChild)];
    assert Pop(s) == below && Top(s) == FrameMark(hold, AtKey(ms), NoChild);
    KeyText(ms, name);
  }

  function KeyWritten(hold: bool, ms: seq<Member>, name: string): Text {
    if hold then [] else CommaIf(ms != []) + [Quoted(name), Colon]
  }

  lemma KeyMarks(outer: seq<Frame>, f: Frame)
    requires f.AtKey? || f.AtValue?
    ensures Marks(outer + [f], NoChild) == Marks(outer, AnObject) + [FrameMark(Holding(Marks(outer, AnObject)), f, NoChild)]
  {
    MarksSnoc(outer, f, NoChild);
  }

  lemma KeyEmits(outer: seq<Frame>, ms: seq<Member>, name: string)
    ensures Emitted(outer + [AtKey(ms)], NoChild) + KeyWritten(Holding(Marks(outer, AnObject)), ms, name)
         == Emitted(outer + [AtValue(ms, name)], NoChild)
  {
    KeyText(ms, name);
    FrameChanged(outer, AtKey(ms), NoChild, AtValue(ms, name), NoChild, KeyWritten(Holding(Marks(outer, AnObject)), ms, name));
  }

  /** A key, in an object that waits for one. */
  lemma KeyStarts(outer: seq<Frame>, ms: seq<Member>, name: string)
    ensures Steps(Within(outer + [AtKey(ms)]), KeyAt(Marks(outer + [AtKey(ms)], NoChild), name),
                  Within(outer + [AtValue(ms, name)]))
  {
    KeyMarks(outer, AtKey(ms));
    KeyMarks(outer, AtValue(ms, name));
    KeyEmits(outer, ms, name);
    KeyAtTop(Marks(outer, AnObject), Holding(Marks(outer, AnObject)), ms, name);
  }

  lemma KeySteps(b: Built, name: string)
    requires Proper(b)
    ensures Follows(b, Key(name))
  {
    if b.Within? && b.frames != [] {
      Unfolded(b.frames, NoChild);
      if Inner(b.frames).AtKey? {
        NotDone(b.frames);
        KeyStarts(Outer(b.frames), Inner(b.frames).members, name);
      } else {
        NoKeyDue(Outer(b.frames), Inner(b.frames), name);
      }
    }
  }

  lemma NoKeyDue(outer: seq<Frame>, f: Frame, name: string)
    requires !f.AtKey?
    ensures StepOn(Marks(outer + [f], NoChild), Key(name)) == ProtocolOrder
  {
    var below := Marks(outer, KindOf(f));
    MarksSnoc(outer, f, NoChild);
    NoKeyMark(Holding(below), f);
    assert Top(below + [FrameMark(Holding(below), f, NoChild)]) == FrameMark(Holding(below), f, NoChild);
  }

  lemma NoKeyMark(hold: bool, f: Frame)
    requires !f.AtKey?
    ensures match FrameMark(hold, f, NoChild)
            case MapStream(due) => due.ValueOf?
            case MapHold(_, due) => due.HeldValue?
            case _ => true
  {
  }

  lemma NotDone(frames: seq<Frame>)
    ensures Marks(frames, NoChild) != [] ==> Top(Marks(frames, NoChild)) != Done
  {
    if frames != [] {
      MarksTop(Outer(frames), Inner(frames), NoChild);
      Unfolded(frames, NoChild);
    }
  }

  lemma ObjectEndSteps(b: Built)
    requires Proper(b)
    ensures Follows(b, ObjectEnd)
  {
    if b.Within? && b.frames != [] {
      var outer, f := Outer(b.frames), Inner(b.frames);
      Unfolded(b.frames, NoChild);
      NotDone(b.frames);
      ProperOuter(b.frames);
      if !f.AtKey? {
        MarksTop(outer, f, NoChild);
      } else if Unreadable(Object(f.members)) && Leads(outer) {
        RefusesObject(outer, f.members);
      } else {
        EndsObject(outer, f.members);
      }
    }
  }

  lemma RefusesObject(outer: seq<Frame>, ms: seq<Member>)
    requires Proper(Within(outer)) && ValueDue(outer) && Unreadable(Object(ms)) && Leads(outer)
    ensures EndObject(Marks(outer + [AtKey(ms)], NoChild)) == Refused(PathTo(outer), Print(SourceOf(ms).value))
  {
    SourceWritten(ms);
    MarksTop(outer, AtKey(ms), NoChild);
    LeadsTop(outer);
    PathIsTo(outer, AnObject);
    LeadsHold(outer);
  }

  /** The first element of a list is held while it is an object. */
  lemma LeadsHold(frames: seq<Frame>)
    requires Leads(frames)
    ensures Holding(Marks(frames, AnObject))
  {
    MarksTop(Outer(frames), Inner(frames), AnObject);
    Unfolded(frames, AnObject);
  }

  lemma ArrayEndSteps(b: Built)
    requires Proper(b)
    ensures Follows(b, ArrayEnd)
  {
    if b.Within? && b.frames != [] {
      var outer, f := Outer(b.frames), Inner(b.frames);
      Unfolded(b.frames, NoChild);
      NotDone(b.frames);
      ProperOuter(b.frames);
      if f.InList? {
        EndsArray(outer, f.done);
      } else {
        NoListDue(outer, f);
      }
    }
  }

  /** The marker of an open object is none that a list ends at. */
  lemma NoListDue(outer: seq<Frame>, f: Frame)
    requires !f.InList?
    ensures StepOn(Marks(outer + [f], NoChild), ArrayEnd) == ProtocolOrder
  {
    MarksTop(outer, f, NoChild);
    NoListMark(Holding(Marks(outer, KindOf(f))), f);
    NoListEnds(Marks(outer + [f], NoChild));
  }

  lemma NoListEnds(s: Stack)
    requires s != [] && (Top(s).MapStream? || Top(s).MapHold?)
    ensures StepOn(s, ArrayEnd) == ProtocolOrder
  {
  }

  lemma NoListMark(hold: bool, f: Frame)
    requires !f.InList?
    ensures FrameMark(hold, f, NoChild).MapStream? || FrameMark(hold, f, NoChild).MapHold?
  {
  }

  predicate TakesValue(m: Marker) {
    match m
    case ListStream(_) => true
    case ListHold(_) => true
    case MapStream(due) => due.ValueOf?
    case MapHold(_, due) => due.HeldValue?
    case _ => false
  }

  lemma StartsAtMark(s: Stack, event: Event)
    requires Starts(event) && s != []
    ensures StepOn(s, event) == if Top(s).Pending? then First(s, Top(s).hold, event)
                                else if TakesValue(Top(s)) then ValueAt(s, event)
                                else ProtocolOrder
  {
  }

  lemma MarkTakes(hold: bool, f: Frame)
    ensures f == InList([]) <==> FrameMark(hold, f, NoChild).Pending?
    ensures f == InList([]) ==> FrameMark(hold, f, NoChild).hold == hold
    ensures !f.AtKey? && f != InList([]) <==> TakesValue(FrameMark(hold, f, NoChild))
  {
  }

  /** How a stack takes the first event of a value. */
  lemma StartsAtFrames(frames: seq<Frame>, event: Event)
    requires Starts(event)
    ensures StepOn(Marks(frames, NoChild), event)
         == if !ValueDue(frames) then ProtocolOrder
            else if Leads(frames) then First(Marks(frames, NoChild), Holding(Marks(Outer(frames), AList)), event)
            else ValueAt(Marks(frames, NoChild), event)
  {
    if frames != [] {
      Unfolded(frames, NoChild);
      StartsAtFrame(Outer(frames), Inner(frames), event);
    }
  }

  lemma StartsAtFrame(outer: seq<Frame>, f: Frame, event: Event)
    requires Starts(event)
    ensures StepOn(Marks(outer + [f], NoChild), event)
         == if f.AtKey? then ProtocolOrder
            else if f == InList([]) then First(Marks(outer + [f], NoChild), Holding(Marks(outer, AList)), event)
            else ValueAt(Marks(outer + [f], NoChild), event)
  {
    MarksTop(outer, f, NoChild);
    MarkTakes(Holding(Marks(outer, KindOf(f))), f);
    StartsAtMark(Marks(outer + [f], NoChild), event);
  }

  /** The first element of a list begins. */
  lemma LeadSteps(frames: seq<Frame>, event: Event)
    requires Leads(frames) && Starts(event)
    ensures Steps(Within(frames), First(Marks(frames, NoChild), Holding(Marks(Outer(frames), AList)), event), Started(frames, event))
  {
    Unfolded(frames, NoChild);
    StartedUnfolded(frames, event);
    FirstSteps(Outer(frames), event);
  }

  lemma StartedUnfolded(frames: seq<Frame>, event: Event)
    requires frames != [] && ValueDue(frames) && Starts(event)
    ensures ValueDue(Outer(frames) + [Inner(frames)]) && Started(frames, event) == Started(Outer(frames) + [Inner(frames)], event)
  {
    assert frames == Outer(frames) + [Inner(frames)];
  }

  lemma StartSteps(b: Built, event: Event)
    requires Proper(b) && Starts(event)
    ensures Follows(b, event)
  {
    if b.Within? {
      StartsAtFrames(b.frames, event);
      if Leads(b.frames) {
        LeadSteps(b.frames, event);
      } else if ValueDue(b.frames) {
        ValueSteps(b.frames, event);
      }
    }
  }

  /** Every step follows what is rebuilt: its stack, its text, its failure, its path, and it always has a case. */
  lemma EveryStepFollows(b: Built, event: Event)
    requires Proper(b)
    ensures Follows(b, event)
  {
    match event
    case Key(name) => KeySteps(b, name);
    case ObjectEnd => ObjectEndSteps(b);
    case ArrayEnd => ArrayEndSteps(b);
    case _ => StartSteps(b, event);
  }
}
