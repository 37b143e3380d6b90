/** What the `src` of an object makes of it, told from the tree and not from what is written. */
module RenderSources {
  import opened Rendering
  import opened RenderRuns

  predicate Written(item: Item) {
    item.text != [] && item.list != []
  }

  /** Nothing is written as no text, and a list or an object as more than one piece. */
  lemma {:induction false} WrittenLength(d: Datum)
    ensures Written(ItemOf(d)) && (!d.Value? ==> |ItemOf(d).text| > 1)
    decreases d, 1
  {
    match d
    case Value(_) =>
    case List(items) => ArrayLength(items);
    case Object(_) =>
  }

  lemma {:induction false} ArrayLength(ds: seq<Datum>)
    ensures Written(ArrayItem(Items(ds))) && |ArrayItem(Items(ds)).text| > 1
    decreases ds, 1
  {
    var items := Items(ds);
    ItemsWritten(ds);
    if |items| == 3 {
      assert Written(items[1]) && Written(items[2]);
    } else if |items| == 2 {
      assert Written(items[1]);
    }
  }

  lemma {:induction false} ItemsWritten(ds: seq<Datum>)
    ensures forall k | 0 <= k < |ds| :: Written(Items(ds)[k])
    decreases ds, 0
  {
    if ds != [] {
      ItemsWritten(ds[..|ds| - 1]);
      WrittenLength(ds[|ds| - 1]);
    }
  }

  /** The part a member is held as is a `src` exactly where its key says so. */
  lemma {:induction false} LastSource(ms: seq<Member>)
    ensures LastSrc(Parts(ms)) ==
              if SourceOf(ms).NoSource? then NoPart else ThePart(Part("src", Print(SourceOf(ms).value)))
  {
    if ms != [] {
      var last := ms[|ms| - 1];
      assert Parts(ms)[|ms| - 1] == Part(last.key, Print(last.value));
      assert Parts(ms)[..|ms| - 1] == Parts(ms[..|ms| - 1]);
      LastSource(ms[..|ms| - 1]);
    }
  }

  /** A `src` is written so that it is taken for an operator, or for none, as its value says. */
  lemma ValueWritten(d: Datum)
    ensures SrcOp(Part("src", Print(d))) == Named(d)
    ensures SrcRead(Print(d)) <==> !Empty(d)
  {
    WrittenLength(d);
    var part := Part("src", Print(d));
    assert part[2..] == Print(d);
  }

  /** What the held parts of an object make of a list it leads, by its members. */
  lemma SourceWritten(ms: seq<Member>)
    ensures SrcOf(Parts(ms)) ==
              match SourceOf(ms)
              case NoSource => NoSrc
              case TheSource(value) =>
                if Named(value).TheOp? then SrcIs(Named(value).src) else if Empty(value) then NoSrc else Foreign(Print(value))
    ensures SrcOf(Parts(ms)).Foreign? <==> Unreadable(Object(ms))
    ensures DescriptionOf(ms) == if SrcOf(Parts(ms)).SrcIs? then TheOp(SrcOf(Parts(ms)).src) else NoOp
  {
    LastSource(ms);
    if SourceOf(ms).TheSource? {
      var value := SourceOf(ms).value;
      ValueWritten(value);
      assert Part("src", Print(value))[2..] == Print(value);
    }
  }

  // ----- in terms of the members alone -----

  /** The k-th member is the last that is a `src`. */
  predicate SourceAt(ms: seq<Member>, k: nat) {
    k < |ms| && ms[k].key == "src" && forall j | k < j < |ms| :: ms[j].key != "src"
  }

  lemma {:induction false} SourceIsLast(ms: seq<Member>)
    ensures SourceOf(ms).NoSource? <==> forall k | 0 <= k < |ms| :: ms[k].key != "src"
    ensures forall k: nat | SourceAt(ms, k) :: SourceOf(ms) == TheSource(ms[k].value)
    ensures SourceOf(ms).TheSource? ==> exists k: nat :: SourceAt(ms, k)
  {
    if ms != [] {
      var init, n := ms[..|ms| - 1], |ms| - 1;
      SourceIsLast(init);
      if ms[n].key == "src" {
        assert SourceAt(ms, n);
      } else {
        assert forall k: nat :: SourceAt(ms, k) <==> SourceAt(init, k);
      }
    }
  }

  /**
   A list an object leads is refused exactly when the object's last `src`
   is a value other than the empty string, false, null and an unsigned zero
   that is not the string of a default operator. A number that is not
   finite is written as the string that names it.
   */
  lemma UnreadableMeans(ms: seq<Member>)
    ensures Unreadable(Object(ms)) <==>
            exists k: nat :: SourceAt(ms, k) &&
              match ms[k].value
              case Value(Str(s)) => s !in ["", "+", "-", "*", "/", "%", "("]
              case Value(Num(NotFinite(s))) => s !in ["", "+", "-", "*", "/", "%", "("]
              case Value(Num(Finite(minus, _, zero))) => minus || !zero
              case Value(Truth(b)) => b
              case Value(Null) => false
              case List(_) => true
              case Object(_) => true
  {
    SourceIsLast(ms);
  }

  /** An object stands for an operator exactly when its last `src` is that operator's string. */
  lemma DescribesMeans(ms: seq<Member>, op: string)
    ensures DescriptionOf(ms) == TheOp(op) <==>
            exists k: nat :: SourceAt(ms, k) && op in ["+", "-", "*", "/", "%", "("]
                             && (ms[k].value == Value(Str(op)) || ms[k].value == Value(Num(NotFinite(op))))
  {
    SourceIsLast(ms);
  }
}
