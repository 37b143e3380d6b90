/** What the render does on every sequence of events. */
module RenderTheorems {
  import opened Rendering
  import opened RenderRuns
  import opened RenderSimulation

  datatype Verdict = Ends(built: Built) | Misordered | RefusedAt(path: seq<Step>, src: Text)

  /** Rebuild a tree from events. */
  function Rebuild(b: Built, events: seq<Event>): Verdict
    requires Proper(b)
    decreases |events|
  {
    if events == [] then Ends(b)
    else
      match Advance(b, events[0])
      case OutOfOrder => Misordered
      case Refusal(path, src) => RefusedAt(path, src)
      case Onward(b') => AdvanceProper(b, events[0]); Rebuild(b', events[1..])
  }

  /** A run of the render, stack and text, is settled by what is rebuilt. */
  lemma {:induction false} RenderFollows(b: Built, events: seq<Event>)
    requires Proper(b)
    ensures match Rebuild(b, events)
            case Ends(b') =>
              if b'.Complete? then RenderFrom(StackOf(b), events).Written?
                                   && TextOf(b) + RenderFrom(StackOf(b), events).text == TextOf(b')
              else RenderFrom(StackOf(b), events) == Failed(ProtocolOrder)
            case Misordered => RenderFrom(StackOf(b), events) == Failed(ProtocolOrder)
            case RefusedAt(path, src) => RenderFrom(StackOf(b), events) == Failed(Refused(path, src))
    decreases |events|
  {
    if events == [] {
      if b.Within? {
        NotDone(b.frames);
        assert StackOf(b) != [Done];
      } else {
        assert TextOf(b) + [] == TextOf(b);
      }
    } else {
      EveryStepFollows(b, events[0]);
      if Advance(b, events[0]).Onward? {
        AdvanceProper(b, events[0]);
        var b' := Advance(b, events[0]).built;
        RenderFollows(b', events[1..]);
        var outcome := StepOn(StackOf(b), events[0]);
        if RenderFrom(StackOf(b'), events[1..]).Written? {
          Appended(TextOf(b), Concat(outcome.out), RenderFrom(StackOf(b'), events[1..]).text);
        }
      }
    }
  }

  // ----- the events of trees -----

  /** An object that makes its list unreadable, by its path and its `src` as written. */
  datatype Offence = Offence(path: seq<Step>, src: Text)

  function Under(step: Step, offences: seq<Offence>): (r: seq<Offence>)
    ensures |r| == |offences|
  {
    seq(|offences|, k requires 0 <= k < |offences| => Offence([step] + offences[k].path, offences[k].src))
  }

  /** The lists of a tree that no document reads back, each by its first element, in the order those end. */
  function Offences(d: Datum, leads: bool): seq<Offence>
    decreases d
  {
    match d
    case Value(_) => []
    case List(items) => ListOffences(items)
    case Object(members) =>
      MemberOffences(members)
      + if leads && Unreadable(d) then [Offence([], Print(SourceOf(members).value))] else []
  }

  function ListOffences(ds: seq<Datum>): seq<Offence>
    decreases ds
  {
    if ds == [] then []
    else
      var n := |ds| - 1;
      ListOffences(ds[..n]) + Under(Index(Decimal(n)), Offences(ds[n], n == 0))
  }

  function MemberOffences(ms: seq<Member>): seq<Offence>
    decreases ms
  {
    if ms == [] then []
    else
      var n := |ms| - 1;
      MemberOffences(ms[..n]) + Under(Name(ms[n].key), Offences(ms[n].value, false))
  }

  /** The verdict a run comes to once the events of a part of the tree are in. */
  ghost function Passing(frames: seq<Frame>, offences: seq<Offence>, after: Verdict): Verdict {
    if offences == [] then after else RefusedAt(PathTo(frames) + offences[0].path, offences[0].src)
  }

  lemma AddProper(frames: seq<Frame>, d: Datum)
    requires Proper(Within(frames)) && ValueDue(frames)
    ensures Proper(Add(frames, d))
  {
    AdvanceProper(Within(frames), Event.Scalar(Null));
    var b, b' := Add(frames, Value(Null)), Add(frames, d);
    if b'.Within? {
      assert forall k | 0 <= k < |b'.frames| :: b'.frames[..k] == b.frames[..k];
    }
  }

  lemma SnocProper(frames: seq<Frame>, f: Frame)
    requires Proper(Within(frames)) && ValueDue(frames)
    ensures Proper(Within(frames + [f]))
    ensures Outer(frames + [f]) == frames && Inner(frames + [f]) == f
  {
    assert forall k | 0 <= k < |frames| :: (frames + [f])[..k] == frames[..k];
    assert (frames + [f])[..|frames|] == frames;
  }

  lemma PathSnoc(frames: seq<Frame>, f: Frame)
    requires !f.AtKey?
    ensures PathTo(frames + [f]) == PathTo(frames) + [if f.InList? then Index(Decimal(|f.done|)) else Name(f.key)]
  {
    assert Outer(frames + [f]) == frames;
  }

  /** An offence inside an element is one of the container around it, a step further down. */
  lemma PassingUnder(frames: seq<Frame>, f: Frame, earlier: seq<Offence>, inner: seq<Offence>, after: Verdict)
    requires !f.AtKey?
    ensures var step := if f.InList? then Index(Decimal(|f.done|)) else Name(f.key);
            Passing(frames, earlier, Passing(frames + [f], inner, after)) == Passing(frames, earlier + Under(step, inner), after)
  {
    PathSnoc(frames, f);
    var step := if f.InList? then Index(Decimal(|f.done|)) else Name(f.key);
    if earlier == [] && inner != [] {
      assert (earlier + Under(step, inner))[0] == Under(step, inner)[0];
      assert PathTo(frames) + [step] + inner[0].path == PathTo(frames) + ([step] + inner[0].path);
    }
  }

  lemma EventsGroup(a: seq<Event>, b: seq<Event>, c: seq<Event>)
    ensures a + b + c == a + (b + c)
  {
  }

  /** One event, then the others. */
  lemma RebuildOn(b: Built, event: Event, rest: seq<Event>)
    requires Proper(b) && Advance(b, event).Onward?
    ensures Proper(Advance(b, event).built)
    ensures Rebuild(b, [event] + rest) == Rebuild(Advance(b, event).built, rest)
  {
    AdvanceProper(b, event);
    assert ([event] + rest)[1..] == rest;
  }

  /** The events of a tree, where a value is due, add the tree, or stop at its first offence. */
  lemma {:induction false} RebuildTree(frames: seq<Frame>, d: Datum, rest: seq<Event>)
    requires Proper(Within(frames)) && ValueDue(frames)
    ensures Proper(Add(frames, d))
    ensures Rebuild(Within(frames), Events(d) + rest) == Passing(frames, Offences(d, Leads(frames)), Rebuild(Add(frames, d), rest))
    decreases d, 1
  {
    AddProper(frames, d);
    match d
    case Value(v) =>
      assert Events(d) + rest == [Event.Scalar(v)] + rest;
    case List(items) =>
      RebuildList(frames, items, rest);
    case Object(members) =>
      RebuildObject(frames, members, rest);
  }

  lemma {:induction false} RebuildList(frames: seq<Frame>, items: seq<Datum>, rest: seq<Event>)
    requires Proper(Within(frames)) && ValueDue(frames)
    ensures Proper(Add(frames, List(items)))
    ensures Rebuild(Within(frames), Events(List(items)) + rest)
         == Passing(frames, ListOffences(items), Rebuild(Add(frames, List(items)), rest))
    decreases items, 1
  {
    AddProper(frames, List(items));
    SnocProper(frames, InList([]));
    SnocProper(frames, InList(items));
    var tail := ListEvents(items) + ([ArrayEnd] + rest);
    assert Events(List(items)) + rest == [ArrayStart] + tail;
    RebuildOn(Within(frames), ArrayStart, tail);
    RebuildElements(frames, items, [ArrayEnd] + rest);
    RebuildOn(Within(frames + [InList(items)]), ArrayEnd, rest);
  }

  lemma {:induction false} RebuildElements(outer: seq<Frame>, ds: seq<Datum>, rest: seq<Event>)
    requires Proper(Within(outer)) && ValueDue(outer)
    ensures Proper(Within(outer + [InList([])])) && Proper(Within(outer + [InList(ds)]))
    ensures Rebuild(Within(outer + [InList([])]), ListEvents(ds) + rest)
         == Passing(outer, ListOffences(ds), Rebuild(Within(outer + [InList(ds)]), rest))
    decreases ds, 0
  {
    SnocProper(outer, InList([]));
    SnocProper(outer, InList(ds));
    if ds == [] {
      assert ListEvents(ds) + rest == rest;
    } else {
      var n := |ds| - 1;
      var init, last := ds[..n], ds[n];
      var after := Rebuild(Within(outer + [InList(ds)]), rest);
      assert init + [last] == ds;
      RebuildElement(outer, init, last, rest);
      RebuildElements(outer, init, Events(last) + rest);
      ElementsSplit(init, last, rest);
      PassingUnder(outer, InList(init), ListOffences(init), Offences(last, init == []), after);
    }
  }

  /** One more element of an open list. */
  lemma {:induction false} RebuildElement(outer: seq<Frame>, init: seq<Datum>, last: Datum, rest: seq<Event>)
    requires Proper(Within(outer)) && ValueDue(outer)
    ensures Proper(Within(outer + [InList(init)])) && Proper(Within(outer + [InList(init + [last])]))
    ensures Rebuild(Within(outer + [InList(init)]), Events(last) + rest)
         == Passing(outer + [InList(init)], Offences(last, init == []), Rebuild(Within(outer + [InList(init + [last])]), rest))
    decreases last, 2
  {
    SnocProper(outer, InList(init));
    SnocProper(outer, InList(init + [last]));
    RebuildTree(outer + [InList(init)], last, rest);
  }

  lemma ElementsSplit(init: seq<Datum>, last: Datum, rest: seq<Event>)
    ensures ListEvents(init + [last]) + rest == ListEvents(init) + (Events(last) + rest)
    ensures ListOffences(init + [last]) == ListOffences(init) + Under(Index(Decimal(|init|)), Offences(last, init == []))
  {
    assert (init + [last])[..|init|] == init;
    EventsGroup(ListEvents(init), Events(last), rest);
  }

  lemma {:induction false} RebuildObject(frames: seq<Frame>, members: seq<Member>, rest: seq<Event>)
    requires Proper(Within(frames)) && ValueDue(frames)
    ensures Proper(Add(frames, Object(members)))
    ensures Rebuild(Within(frames), Events(Object(members)) + rest)
         == Passing(frames, Offences(Object(members), Leads(frames)), Rebuild(Add(frames, Object(members)), rest))
    decreases members, 1
  {
    AddProper(frames, Object(members));
    SnocProper(frames, AtKey([]));
    SnocProper(frames, AtKey(members));
    var tail := MemberEvents(members) + ([ObjectEnd] + rest);
    assert Events(Object(members)) + rest == [ObjectStart] + tail;
    RebuildOn(Within(frames), ObjectStart, tail);
    RebuildMembers(frames, members, [ObjectEnd] + rest);
    if !(Unreadable(Object(members)) && Leads(frames)) {
      RebuildOn(Within(frames + [AtKey(members)]), ObjectEnd, rest);
    }
    assert PathTo(frames) + [] == PathTo(frames);
  }

  lemma {:induction false} RebuildMembers(outer: seq<Frame>, ms: seq<Member>, rest: seq<Event>)
    requires Proper(Within(outer)) && ValueDue(outer)
    ensures Proper(Within(outer + [AtKey([])])) && Proper(Within(outer + [AtKey(ms)]))
    ensures Rebuild(Within(outer + [AtKey([])]), MemberEvents(ms) + rest)
         == Passing(outer, MemberOffences(ms), Rebuild(Within(outer + [AtKey(ms)]), rest))
    decreases ms, 0
  {
    SnocProper(outer, AtKey([]));
    SnocProper(outer, AtKey(ms));
    if ms == [] {
      assert MemberEvents(ms) + rest == rest;
    } else {
      var n := |ms| - 1;
      var init, last := ms[..n], ms[n];
      var tail := [Key(last.key)] + (Events(last.value) + rest);
      var after := Rebuild(Within(outer + [AtKey(ms)]), rest);
      assert init + [last] == ms;
      RebuildMember(outer, init, last, rest);
      RebuildMembers(outer, init, tail);
      MembersSplit(init, last, rest);
      PassingUnder(outer, AtValue(init, last.key), MemberOffences(init), Offences(last.value, false), after);
    }
  }

  /** One more member of an open object. */
  lemma {:induction false} RebuildMember(outer: seq<Frame>, init: seq<Member>, last: Member, rest: seq<Event>)
    requires Proper(Within(outer)) && ValueDue(outer)
    ensures Proper(Within(outer + [AtKey(init)])) && Proper(Within(outer + [AtKey(init + [last])]))
    ensures Rebuild(Within(outer + [AtKey(init)]), [Key(last.key)] + (Events(last.value) + rest))
         == Passing(outer + [AtValue(init, last.key)], Offences(last.value, false),
                    Rebuild(Within(outer + [AtKey(init + [last])]), rest))
    decreases last, 2
  {
    SnocProper(outer, AtKey(init));
    SnocProper(outer, AtKey(init + [last]));
    SnocProper(outer, AtValue(init, last.key));
    var tail := [Key(last.key)] + (Events(last.value) + rest);
    assert tail[0] == Key(last.key) && tail[1..] == Events(last.value) + rest;
    RebuildTree(outer + [AtValue(init, last.key)], last.value, rest);
  }

  lemma MembersSplit(init: seq<Member>, last: Member, rest: seq<Event>)
    ensures MemberEvents(init + [last]) + rest == MemberEvents(init) + ([Key(last.key)] + (Events(last.value) + rest))
    ensures MemberOffences(init + [last]) == MemberOffences(init) + Under(Name(last.key), Offences(last.value, false))
  {
    assert (init + [last])[..|init|] == init;
  }

  // ----- what was read, from what is rebuilt -----

  function FrameEvents(f: Frame): seq<Event> {
    match f
    case InList(done) => [ArrayStart] + ListEvents(done)
    case AtKey(ms) => [ObjectStart] + MemberEvents(ms)
    case AtValue(ms, k) => [ObjectStart] + MemberEvents(ms) + [Key(k)]
  }

  function ReadSoFar(frames: seq<Frame>): seq<Event> {
    if frames == [] then [] else ReadSoFar(Outer(frames)) + FrameEvents(Inner(frames))
  }

  function EventsOf(b: Built): seq<Event> {
    if b.Complete? then Events(b.tree) else ReadSoFar(b.frames)
  }

  lemma ReadSnoc(frames: seq<Frame>, f: Frame)
    ensures ReadSoFar(frames + [f]) == ReadSoFar(frames) + FrameEvents(f)
  {
    assert Outer(frames + [f]) == frames;
  }

  lemma ListEventsSnoc(ds: seq<Datum>, d: Datum)
    ensures ListEvents(ds + [d]) == ListEvents(ds) + Events(d)
  {
    assert (ds + [d])[..|ds|] == ds;
  }

  lemma MemberEventsSnoc(ms: seq<Member>, m: Member)
    ensures MemberEvents(ms + [m]) == MemberEvents(ms) + [Key(m.key)] + Events(m.value)
  {
    assert (ms + [m])[..|ms|] == ms;
  }

  lemma AddEvents(frames: seq<Frame>, d: Datum)
    requires ValueDue(frames)
    ensures EventsOf(Add(frames, d)) == ReadSoFar(frames) + Events(d)
  {
    if frames != [] {
      var outer, f := Outer(frames), Inner(frames);
      if f.InList? {
        ListEventsSnoc(f.done, d);
        EventsGroup([ArrayStart], ListEvents(f.done), Events(d));
        ReadMore(outer, f, InList(f.done + [d]), Events(d));
      } else {
        MemberFrameSnoc(f.members, f.key, d);
        ReadMore(outer, f, AtKey(f.members + [Member(f.key, d)]), Events(d));
      }
    }
  }

  lemma MemberFrameSnoc(ms: seq<Member>, key: string, d: Datum)
    ensures FrameEvents(AtKey(ms + [Member(key, d)])) == FrameEvents(AtValue(ms, key)) + Events(d)
  {
    MemberEventsSnoc(ms, Member(key, d));
    EventsGroup([ObjectStart], MemberEvents(ms) + [Key(key)], Events(d));
    EventsGroup([ObjectStart], MemberEvents(ms), [Key(key)]);
  }

  /** The innermost frame takes more events in. */
  lemma ReadMore(outer: seq<Frame>, f: Frame, g: Frame, more: seq<Event>)
    requires FrameEvents(g) == FrameEvents(f) + more
    ensures ReadSoFar(outer + [g]) == ReadSoFar(outer) + FrameEvents(f) + more
  {
    ReadSnoc(outer, g);
    EventsGroup(ReadSoFar(outer), FrameEvents(f), more);
  }

  lemma AdvanceReads(b: Built, event: Event)
    requires Proper(b) && Advance(b, event).Onward?
    ensures EventsOf(Advance(b, event).built) == EventsOf(b) + [event]
  {
    match event
    case Scalar(v) => AddEvents(b.frames, Value(v));
    case ObjectStart => ReadSnoc(b.frames, AtKey([]));
    case ArrayStart => ReadSnoc(b.frames, InList([]));
    case Key(name) => KeyReads(b, name);
    case ObjectEnd => ObjectEndReads(b);
    case ArrayEnd => ArrayEndReads(b);
  }

  lemma ObjectEndReads(b: Built)
    requires Proper(b) && Advance(b, ObjectEnd).Onward?
    ensures EventsOf(Advance(b, ObjectEnd).built) == EventsOf(b) + [ObjectEnd]
  {
    DueAround(b.frames);
    ReadEnds(b.frames, Object(Inner(b.frames).members), ObjectEnd);
  }

  lemma ArrayEndReads(b: Built)
    requires Proper(b) && Advance(b, ArrayEnd).Onward?
    ensures EventsOf(Advance(b, ArrayEnd).built) == EventsOf(b) + [ArrayEnd]
  {
    DueAround(b.frames);
    ReadEnds(b.frames, List(Inner(b.frames).done), ArrayEnd);
  }

  lemma DueAround(frames: seq<Frame>)
    requires Proper(Within(frames)) && frames != []
    ensures ValueDue(Outer(frames))
  {
  }

  lemma KeyReads(b: Built, name: string)
    requires Proper(b) && Advance(b, Key(name)).Onward?
    ensures EventsOf(Advance(b, Key(name)).built) == EventsOf(b) + [Key(name)]
  {
    var ms := Inner(b.frames).members;
    EventsGroup([ObjectStart], MemberEvents(ms), [Key(name)]);
    ReadMore(Outer(b.frames), AtKey(ms), AtValue(ms, name), [Key(name)]);
  }

  /** The innermost container ends. */
  lemma ReadEnds(frames: seq<Frame>, d: Datum, event: Event)
    requires frames != [] && ValueDue(Outer(frames)) && Events(d) == FrameEvents(Inner(frames)) + [event]
    ensures EventsOf(Add(Outer(frames), d)) == ReadSoFar(frames) + [event]
  {
    AddEvents(Outer(frames), d);
    EventsGroup(ReadSoFar(Outer(frames)), FrameEvents(Inner(frames)), [event]);
  }

  /** What is rebuilt keeps every event that was read. */
  lemma {:induction false} RebuildReads(b: Built, events: seq<Event>)
    requires Proper(b) && Rebuild(b, events).Ends?
    ensures EventsOf(Rebuild(b, events).built) == EventsOf(b) + events
    decreases |events|
  {
    if events != [] {
      AdvanceReads(b, events[0]);
      AdvanceProper(b, events[0]);
      RebuildReads(Advance(b, events[0]).built, events[1..]);
      assert [events[0]] + events[1..] == events;
      EventsGroup(EventsOf(b), [events[0]], events[1..]);
    }
  }

  // ----- which trees are written -----

  /** No list of the tree is led by an object whose `src` would be read as the list's operator. */
  ghost predicate Readable(d: Datum) {
    match d
    case Value(_) => true
    case List(items) => (items != [] ==> !Unreadable(items[0])) && forall k | 0 <= k < |items| :: Readable(items[k])
    case Object(members) => forall k | 0 <= k < |members| :: Readable(members[k].value)
  }

  lemma {:induction false} ReadableHasNoOffence(d: Datum, leads: bool)
    ensures Offences(d, leads) == [] <==> Readable(d) && !(leads && Unreadable(d))
    decreases d, 1
  {
    match d
    case Value(_) =>
    case List(items) => ReadableElements(items);
    case Object(members) => ReadableMembers(members);
  }

  lemma {:induction false} ReadableElements(ds: seq<Datum>)
    ensures ListOffences(ds) == [] <==>
            (ds != [] ==> !Unreadable(ds[0])) && forall k | 0 <= k < |ds| :: Readable(ds[k])
    decreases ds, 0
  {
    if ds != [] {
      var n := |ds| - 1;
      var init := ds[..n];
      ReadableElements(init);
      ReadableHasNoOffence(ds[n], init == []);
      assert ds == init + [ds[n]];
      ElementsSplit(init, ds[n], []);
      ReadableSnoc(init, ds[n]);
    }
  }

  lemma ReadableSnoc(init: seq<Datum>, last: Datum)
    ensures var ds := init + [last];
            (forall k | 0 <= k < |ds| :: Readable(ds[k])) <==> (forall k | 0 <= k < |init| :: Readable(init[k])) && Readable(last)
  {
    var ds := init + [last];
    assert ds[|init|] == last && forall k | 0 <= k < |init| :: ds[k] == init[k];
    if forall k | 0 <= k < |ds| :: Readable(ds[k]) {
      assert forall k | 0 <= k < |init| :: Readable(ds[k]);
    }
  }

  lemma {:induction false} ReadableMembers(ms: seq<Member>)
    ensures MemberOffences(ms) == [] <==> forall k | 0 <= k < |ms| :: Readable(ms[k].value)
    decreases ms, 0
  {
    if ms != [] {
      var n := |ms| - 1;
      ReadableMembers(ms[..n]);
      ReadableHasNoOffence(ms[n].value, false);
      assert forall k | 0 <= k < n :: ms[..n][k] == ms[k];
    }
  }

  // ----- where an offence is -----

  /** A path leads from a tree to one of its values. */
  ghost predicate LeadsTo(d: Datum, path: seq<Step>, target: Datum)
    decreases |path|
  {
    if path == [] then d == target
    else
      match path[0]
      case Index(digits) =>
        d.List? && exists k | 0 <= k < |d.items| :: Decimal(k) == digits && LeadsTo(d.items[k], path[1..], target)
      case Name(key) =>
        d.Object? && exists k | 0 <= k < |d.members| ::
          d.members[k].key == key && LeadsTo(d.members[k].value, path[1..], target)
  }

  /** An offence's path leads to an object with the `src` it names, the first element of its list. */
  ghost predicate Found(d: Datum, leads: bool, o: Offence) {
    && (exists target :: LeadsTo(d, o.path, target) && Unreadable(target) && Print(SourceOf(target.members).value) == o.src)
    && (if o.path == [] then leads else o.path[|o.path| - 1] == Index("0"))
  }

  lemma {:induction false} OffencesFound(d: Datum, leads: bool)
    ensures forall k | 0 <= k < |Offences(d, leads)| :: Found(d, leads, Offences(d, leads)[k])
    decreases d, 1
  {
    match d
    case Value(_) =>
    case List(items) =>
      ElementsFound(items, d);
    case Object(members) =>
      MembersFound(members, d);
      if leads && Unreadable(d) {
        assert LeadsTo(d, [], d);
      }
  }

  lemma FoundUnder(d: Datum, step: Step, inner: Datum, leads: bool, offences: seq<Offence>)
    requires forall k | 0 <= k < |offences| :: Found(inner, leads, offences[k])
    requires leads ==> step == Index("0")
    requires forall path, target :: LeadsTo(inner, path, target) ==> LeadsTo(d, [step] + path, target)
    ensures forall k | 0 <= k < |offences| :: Found(d, false, Under(step, offences)[k])
  {
    forall k | 0 <= k < |offences|
      ensures Found(d, false, Under(step, offences)[k])
    {
      FoundOneUnder(d, step, inner, leads, offences[k]);
    }
  }

  lemma FoundOneUnder(d: Datum, step: Step, inner: Datum, leads: bool, o: Offence)
    requires Found(inner, leads, o) && (leads ==> step == Index("0"))
    requires forall path, target :: LeadsTo(inner, path, target) ==> LeadsTo(d, [step] + path, target)
    ensures Found(d, false, Offence([step] + o.path, o.src))
  {
    var target :| LeadsTo(inner, o.path, target) && Unreadable(target) && Print(SourceOf(target.members).value) == o.src;
    assert LeadsTo(d, [step] + o.path, target);
  }

  lemma {:induction false} ElementsFound(ds: seq<Datum>, d: Datum)
    requires d.List? && ds <= d.items
    ensures forall k | 0 <= k < |ListOffences(ds)| :: Found(d, false, ListOffences(ds)[k])
    decreases ds, 0
  {
    if ds != [] {
      var n := |ds| - 1;
      ElementsFound(ds[..n], d);
      OffencesFound(ds[n], n == 0);
      forall path, target | LeadsTo(ds[n], path, target)
        ensures LeadsTo(d, [Index(Decimal(n))] + path, target)
      {
        var whole := [Index(Decimal(n))] + path;
        assert whole[1..] == path && d.items[n] == ds[n];
      }
      FoundUnder(d, Index(Decimal(n)), ds[n], n == 0, Offences(ds[n], n == 0));
    }
  }

  lemma {:induction false} MembersFound(ms: seq<Member>, d: Datum)
    requires d.Object? && ms <= d.members
    ensures forall k | 0 <= k < |MemberOffences(ms)| :: Found(d, false, MemberOffences(ms)[k])
    decreases ms, 0
  {
    if ms != [] {
      var n := |ms| - 1;
      MembersFound(ms[..n], d);
      OffencesFound(ms[n].value, false);
      forall path, target | LeadsTo(ms[n].value, path, target)
        ensures LeadsTo(d, [Name(ms[n].key)] + path, target)
      {
        var whole := [Name(ms[n].key)] + path;
        assert whole[1..] == path && d.members[n] == ms[n];
      }
      FoundUnder(d, Name(ms[n].key), ms[n].value, false, Offences(ms[n].value, false));
    }
  }

  // ----- the main results -----

  /** A tree's events are written as the plain printer writes the tree, or refused at its first offence. */
  lemma RenderPrints(d: Datum)
    ensures Offences(d, false) == [] <==> Readable(d)
    ensures Render(Events(d)) == if Offences(d, false) == [] then Written(Print(d) + [Break])
                                 else Failed(Refused(Offences(d, false)[0].path, Offences(d, false)[0].src))
  {
    ReadableHasNoOffence(d, false);
    RebuildTree([], d, []);
    assert Events(d) + [] == Events(d);
    RenderFollows(Within([]), Events(d));
    if Readable(d) {
      assert Rebuild(Within([]), Events(d)) == Ends(Complete(d));
      assert [] + RenderFrom([], Events(d)).text == RenderFrom([], Events(d)).text;
    } else {
      assert [] + Offences(d, false)[0].path == Offences(d, false)[0].path;
    }
  }

  /** The render finishes exactly on the events of one readable tree. */
  lemma RenderAccepts(events: seq<Event>)
    ensures Render(events).Written? <==> exists d :: Readable(d) && events == Events(d)
  {
    if Render(events).Written? {
      RenderFollows(Within([]), events);
      RebuildReads(Within([]), events);
      var d := Rebuild(Within([]), events).built.tree;
      assert [] + events == events;
      RenderPrints(d);
    }
    if d :| Readable(d) && events == Events(d) {
      RenderPrints(d);
    }
  }

  /** Every other sequence fails for a stated reason: no reachable stack is without a case. */
  lemma RenderAlwaysHasACase(events: seq<Event>)
    ensures Render(events).Failed? ==> Render(events).outcome.ProtocolOrder? || Render(events).outcome.Refused?
  {
    RenderFollows(Within([]), events);
  }

  // ----- refusals of any sequence -----

  /** The tree in which every open container ends where the value due is the one given. */
  function Closing(frames: seq<Frame>, d: Datum): Datum
    requires Proper(Within(frames)) && ValueDue(frames)
    decreases |frames|
  {
    if frames == [] then d
    else
      ProperOuter(frames);
      Closing(Outer(frames), if Inner(frames).InList? then List(Inner(frames).done + [d])
                             else Object(Inner(frames).members + [Member(Inner(frames).key, d)]))
  }

  /** One container ended around a value. */
  lemma ClosingOne(f: Frame, d: Datum)
    requires !f.AtKey?
    ensures f.InList? ==> Events(List(f.done + [d])) == FrameEvents(f) + Events(d) + [ArrayEnd]
    ensures f.AtValue? ==> Events(Object(f.members + [Member(f.key, d)])) == FrameEvents(f) + Events(d) + [ObjectEnd]
  {
    if f.InList? {
      ListEventsSnoc(f.done, d);
      EventsGroup([ArrayStart], ListEvents(f.done), Events(d));
    } else {
      MemberEventsSnoc(f.members, Member(f.key, d));
      EventsGroup([ObjectStart], MemberEvents(f.members) + [Key(f.key)], Events(d));
      EventsGroup([ObjectStart], MemberEvents(f.members), [Key(f.key)]);
    }
  }

  lemma {:induction false} ClosingEvents(frames: seq<Frame>, d: Datum) returns (tail: seq<Event>)
    requires Proper(Within(frames)) && ValueDue(frames)
    ensures Events(Closing(frames, d)) == ReadSoFar(frames) + Events(d) + tail
    decreases |frames|
  {
    if frames == [] {
      tail := [];
      assert [] + Events(d) + [] == Events(d);
    } else {
      ProperOuter(frames);
      var f := Inner(frames);
      var next, end := if f.InList? then List(f.done + [d]) else Object(f.members + [Member(f.key, d)]),
                       if f.InList? then ArrayEnd else ObjectEnd;
      ClosingOne(f, d);
      var rest := ClosingEvents(Outer(frames), next);
      tail := [end] + rest;
      ClosingGroups(ReadSoFar(Outer(frames)), FrameEvents(f), Events(d), [end], rest);
    }
  }

  lemma ClosingGroups(a: seq<Event>, b: seq<Event>, c: seq<Event>, d: seq<Event>, e: seq<Event>)
    ensures a + (b + c + d) + e == a + b + c + (d + e)
  {
  }

  lemma {:induction false} RefusalStands(b: Built, events: seq<Event>, more: seq<Event>)
    requires Proper(b) && Rebuild(b, events).RefusedAt?
    ensures Rebuild(b, events + more) == Rebuild(b, events)
    decreases |events|
  {
    if Advance(b, events[0]).Onward? {
      AdvanceProper(b, events[0]);
      RefusalStands(Advance(b, events[0]).built, events[1..], more);
      assert (events + more)[1..] == events[1..] + more;
    }
  }

  lemma TakesRest(events: seq<Event>, n: nat)
    requires n + 1 < |events|
    ensures events[..n + 1] == [events[0]] + events[1..][..n]
    ensures events[..n + 2][0] == events[0] && events[..n + 2][1..] == events[1..][..n + 1]
  {
  }

  /** What was read before a refusal, up to the end of the object refused. */
  lemma {:induction false} RefusedWhere(b: Built, events: seq<Event>) returns (n: nat, frames: seq<Frame>)
    requires Proper(b) && Rebuild(b, events).RefusedAt?
    ensures n < |events| && events[n] == ObjectEnd && Proper(Within(frames)) && frames != [] && Inner(frames).AtKey?
    ensures ReadSoFar(frames) == EventsOf(b) + events[..n]
    ensures Rebuild(b, events[..n + 1]) == Rebuild(b, events)
    decreases |events|
  {
    if Advance(b, events[0]).Refusal? {
      n, frames := 0, b.frames;
      RefusedNow(b, events);
    } else {
      var b' := Advance(b, events[0]).built;
      AdvanceProper(b, events[0]);
      n, frames := RefusedWhere(b', events[1..]);
      RefusedLater(b, events, n, ReadSoFar(frames));
      n := n + 1;
    }
  }

  lemma RefusedNow(b: Built, events: seq<Event>)
    requires Proper(b) && events != [] && Advance(b, events[0]).Refusal?
    ensures events[0] == ObjectEnd && b.Within? && b.frames != [] && Inner(b.frames).AtKey?
    ensures ReadSoFar(b.frames) == EventsOf(b) + events[..0] && Rebuild(b, events[..1]) == Rebuild(b, events)
  {
    assert events[..0] == [] && EventsOf(b) + [] == EventsOf(b);
  }

  lemma RefusedLater(b: Built, events: seq<Event>, n: nat, read: seq<Event>)
    requires Proper(b) && n + 1 < |events| && Advance(b, events[0]).Onward? && Proper(Advance(b, events[0]).built)
    requires read == EventsOf(Advance(b, events[0]).built) + events[1..][..n]
    requires Rebuild(Advance(b, events[0]).built, events[1..][..n + 1]) == Rebuild(Advance(b, events[0]).built, events[1..])
    ensures read == EventsOf(b) + events[..n + 1] && Rebuild(b, events[..n + 2]) == Rebuild(b, events)
  {
    AdvanceReads(b, events[0]);
    TakesRest(events, n);
    EventsGroup(EventsOf(b), [events[0]], events[1..][..n]);
  }

  /**
   Whatever events are refused begin the events of some tree, and the path
   refused is that of the tree's first offence: it leads from the root to
   the first object, in the order objects end, that makes its list unreadable.
   */
  lemma RefusalIsFirstOffence(events: seq<Event>) returns (n: nat, d: Datum)
    requires Render(events).Failed? && Render(events).outcome.Refused?
    ensures n <= |events| && events[..n] <= Events(d) && Offences(d, false) != []
    ensures Render(events).outcome == Refused(Offences(d, false)[0].path, Offences(d, false)[0].src)
    ensures Found(d, false, Offences(d, false)[0])
  {
    var frames;
    RenderFollows(Within([]), events);
    n, frames := RefusedWhere(Within([]), events);
    d := CompletedFrom(events, n, frames);
    n := n + 1;
    RefusedSoRefused(events, n, d);
    OffencesFound(d, false);
  }

  lemma RefusedSoRefused(events: seq<Event>, n: nat, d: Datum)
    requires n <= |events| && events[..n] <= Events(d)
    requires Rebuild(Within([]), events[..n]).RefusedAt?
    ensures Offences(d, false) != []
    ensures Rebuild(Within([]), events[..n]) == RefusedAt(Offences(d, false)[0].path, Offences(d, false)[0].src)
  {
    var tail := Events(d)[n..];
    assert Events(d) == events[..n] + tail;
    RefusalStands(Within([]), events[..n], tail);
    RebuildTree([], d, []);
    assert Events(d) + [] == Events(d);
    if Offences(d, false) != [] {
      assert [] + Offences(d, false)[0].path == Offences(d, false)[0].path;
    }
  }

  lemma CompletedFrom(events: seq<Event>, n: nat, frames: seq<Frame>) returns (d: Datum)
    requires n < |events| && events[n] == ObjectEnd && Proper(Within(frames)) && frames != [] && Inner(frames).AtKey?
    requires ReadSoFar(frames) == [] + events[..n]
    ensures events[..n + 1] <= Events(d)
  {
    var outer, members := Outer(frames), Inner(frames).members;
    ProperOuter(frames);
    d := Closing(outer, Object(members));
    var tail := ClosingEvents(outer, Object(members));
    EndsWithObject(ReadSoFar(outer), members, tail);
    OneMore(events, n);
  }

  lemma OneMore(events: seq<Event>, n: nat)
    requires n < |events|
    ensures events[..n + 1] == [] + events[..n] + [events[n]]
  {
  }

  lemma EndsWithObject(around: seq<Event>, members: seq<Member>, tail: seq<Event>)
    ensures around + FrameEvents(AtKey(members)) + [ObjectEnd] <= around + Events(Object(members)) + tail
  {
    assert Events(Object(members)) == FrameEvents(AtKey(members)) + [ObjectEnd];
    EventsGroup(around, FrameEvents(AtKey(members)), [ObjectEnd]);
  }
}
