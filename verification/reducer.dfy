/**
 Reducing a parse with a callback. An implicit list is reduced in place as
 its members close and again as a whole; a set of values already produced
 keeps every operation's callback from running twice.
 */
module Reducer {

  /** Which object a value is: one the parse made, or one made by reducing. */
  datatype Id = Parsed(n: nat) | Made(n: nat)

  /** A value: an operator array and a plain array hold values, any other object is left as it is. */
  datatype Value =
    | Undefined | Null | Scalar(n: int)
    | Thing(id: Id)
    | Operation(id: Id, op: int, terms: seq<Value>)
    | Array(id: Id, items: seq<Value>)
  {
    predicate IsObject() {
      Thing? || Operation? || Array?
    }
  }

  /** One call of the callback. */
  datatype Call = Call(op: int, terms: seq<Value>)

  /** The callback may depend on all its calls so far, and may make objects, numbered from `next` on. */
  type Evaluate = (seq<Call>, nat) -> (Value, nat)

  datatype Store = Store(calls: seq<Call>, next: nat, done: set<Id>) {

    function Mark(v: Value): Store {
      if v.IsObject() then this.(done := done + {v.id}) else this
    }

    predicate Has(v: Value) {
      v.IsObject() && v.id in done
    }
  }

  // ----- the reduction -----

  function Reduce(evaluate: Evaluate, s: Store, expr: Value): (r: (Value, Store))
    decreases expr
  {
    if expr.Undefined? || expr.Null? then (Null, s)
    else if s.Has(expr) then (expr, s)
    else
      match expr
      case Operation(_, op, terms) =>
        var (reduced, s1) := ReduceAll(evaluate, s, terms);
        var calls := s1.calls + [Call(op, reduced)];
        var (out, next) := evaluate(calls, s1.next);
        (out, Store(calls, next, s1.done).Mark(out))
      case Array(_, items) =>
        var (reduced, s1) := ReduceAll(evaluate, s, items);
        var out := Array(Made(s1.next), reduced);
        (out, s1.(next := s1.next + 1).Mark(out))
      case _ => (expr, s.Mark(expr))
  }

  function ReduceAll(evaluate: Evaluate, s: Store, exprs: seq<Value>): (r: (seq<Value>, Store))
    ensures |r.0| == |exprs|
    decreases exprs
  {
    if exprs == [] then ([], s)
    else
      var (first, s1) := Reduce(evaluate, s, exprs[0]);
      var (others, s2) := ReduceAll(evaluate, s1, exprs[1..]);
      ([first] + others, s2)
  }

  /** Reducing the values from the k-th on, after those in `out`. */
  lemma NextReduced(evaluate: Evaluate, s: Store, exprs: seq<Value>, k: nat, out: seq<Value>)
    requires k < |exprs|
    ensures var (first, s1) := Reduce(evaluate, s, exprs[k]);
            && out + ReduceAll(evaluate, s, exprs[k..]).0 == out + [first] + ReduceAll(evaluate, s1, exprs[k + 1..]).0
            && ReduceAll(evaluate, s, exprs[k..]).1 == ReduceAll(evaluate, s1, exprs[k + 1..]).1
  {
    assert exprs[k..][1..] == exprs[k + 1..];
  }

  /** The reducer's own state, and its methods as the parser calls them. */
  class Reducing {
    const evaluate: Evaluate
    var calls: seq<Call>
    var next: nat
    var done: set<Id>

    constructor (evaluate: Evaluate)
      ensures this.evaluate == evaluate && State() == Store([], 0, {})
    {
      this.evaluate := evaluate;
      calls, next, done := [], 0, {};
    }

    function State(): Store
      reads this
    {
      Store(calls, next, done)
    }

    /** Reduce a value, leaving one already produced alone. */
    method Evaluation(expr: Value) returns (out: Value)
      modifies this
      ensures out == Reduce(evaluate, old(State()), expr).0
      ensures State() == Reduce(evaluate, old(State()), expr).1
      decreases expr
    {
      out := if expr.Undefined? then Null else expr;
      if expr.Undefined? || expr.Null? || (expr.IsObject() && expr.id in done) {
        return;
      }
      if expr.Operation? {
        var terms := EvaluateEach(expr.terms);
        calls := calls + [Call(expr.op, terms)];
        var (value, made) := evaluate(calls, next);
        out, next := value, made;
      } else if expr.Array? {
        var items := EvaluateEach(expr.items);
        out := Array(Made(next), items);
        next := next + 1;
      }
      if out.IsObject() {
        done := done + {out.id};
      }
    }

    /** Reduce values into a new list. */
    method EvaluateEach(exprs: seq<Value>) returns (out: seq<Value>)
      modifies this
      ensures out == ReduceAll(evaluate, old(State()), exprs).0
      ensures State() == ReduceAll(evaluate, old(State()), exprs).1
      decreases exprs
    {
      out := [];
      ghost var whole := ReduceAll(evaluate, State(), exprs);
      assert exprs[0..] == exprs;
      for k := 0 to |exprs|
        invariant |out| == k
        invariant whole.0 == out + ReduceAll(evaluate, State(), exprs[k..]).0
        invariant whole.1 == ReduceAll(evaluate, State(), exprs[k..]).1
      {
        NextReduced(evaluate, State(), exprs, k, out);
        var reduced := Evaluation(exprs[k]);
        out := out + [reduced];
      }
    }

    /** The close hook: reduce the members of the list under construction where they stand. */
    method ReduceMembers(list: array<Value>)
      modifies this, list
      ensures list[..] == ReduceAll(evaluate, old(State()), old(list[..])).0
      ensures State() == ReduceAll(evaluate, old(State()), old(list[..])).1
    {
      ghost var members := list[..];
      ghost var whole := ReduceAll(evaluate, State(), members);
      assert members[0..] == members;
      for k := 0 to list.Length
        invariant list[k..] == members[k..]
        invariant whole.0 == list[..k] + ReduceAll(evaluate, State(), members[k..]).0
        invariant whole.1 == ReduceAll(evaluate, State(), members[k..]).1
      {
        NextReduced(evaluate, State(), members, k, list[..k]);
        assert list[k] == list[k..][0];
        var reduced := Evaluation(list[k]);
        list[k] := reduced;
        assert list[..k + 1] == list[..k] + [reduced];
      }
      assert list[..] == list[..list.Length];
    }
  }

  // ----- one reduction, without the set -----

  /** Every operation's callback, once, its terms first; no record of what is done. */
  function Once(evaluate: Evaluate, calls: seq<Call>, next: nat, expr: Value): (r: (Value, seq<Call>, nat))
    decreases expr
  {
    match expr
    case Undefined => (Null, calls, next)
    case Operation(_, op, terms) =>
      var (reduced, calls1, next1) := OnceAll(evaluate, calls, next, terms);
      var calls2 := calls1 + [Call(op, reduced)];
      var (out, next2) := evaluate(calls2, next1);
      (out, calls2, next2)
    case Array(_, items) =>
      var (reduced, calls1, next1) := OnceAll(evaluate, calls, next, items);
      (Array(Made(next1), reduced), calls1, next1 + 1)
    case _ => (expr, calls, next)
  }

  function OnceAll(evaluate: Evaluate, calls: seq<Call>, next: nat, exprs: seq<Value>): (r: (seq<Value>, seq<Call>, nat))
    ensures |r.0| == |exprs|
    decreases exprs
  {
    if exprs == [] then ([], calls, next)
    else
      var (first, calls1, next1) := Once(evaluate, calls, next, exprs[0]);
      var (others, calls2, next2) := OnceAll(evaluate, calls1, next1, exprs[1..]);
      ([first] + others, calls2, next2)
  }

  function Operations(v: Value): nat
    decreases v
  {
    match v
    case Operation(_, _, terms) => 1 + OperationsIn(terms)
    case Array(_, items) => OperationsIn(items)
    case _ => 0
  }

  function OperationsIn(vs: seq<Value>): nat
    decreases vs
  {
    if vs == [] then 0 else Operations(vs[0]) + OperationsIn(vs[1..])
  }

  /** The callback is called exactly once for each operation. */
  lemma {:induction false} OnceCalls(evaluate: Evaluate, calls: seq<Call>, next: nat, v: Value)
    ensures calls <= Once(evaluate, calls, next, v).1
    ensures |Once(evaluate, calls, next, v).1| == |calls| + Operations(v)
    decreases v
  {
    match v
    case Operation(_, _, terms) => OnceCallsAll(evaluate, calls, next, terms);
    case Array(_, items) => OnceCallsAll(evaluate, calls, next, items);
    case _ =>
  }

  lemma {:induction false} OnceCallsAll(evaluate: Evaluate, calls: seq<Call>, next: nat, vs: seq<Value>)
    ensures calls <= OnceAll(evaluate, calls, next, vs).1
    ensures |OnceAll(evaluate, calls, next, vs).1| == |calls| + OperationsIn(vs)
    decreases vs
  {
    if vs != [] {
      OnceCalls(evaluate, calls, next, vs[0]);
      var first := Once(evaluate, calls, next, vs[0]);
      OnceCallsAll(evaluate, first.1, first.2, vs[1..]);
    }
  }

  // ----- what one reduction gives -----

  /** What a stack of values undergoes: a leaf arrives, or the last `n` become one answer or one list. */
  datatype Step = Put(leaf: Value) | Ask(op: int, n: nat) | Gather(n: nat)

  /** A value in postfix order, each operation after its terms. */
  function Postfix(v: Value): seq<Step>
    decreases v
  {
    match v
    case Undefined => [Put(Null)]
    case Operation(_, op, terms) => PostfixAll(terms) + [Ask(op, |terms|)]
    case Array(_, items) => PostfixAll(items) + [Gather(|items|)]
    case _ => [Put(v)]
  }

  function PostfixAll(vs: seq<Value>): seq<Step>
    decreases vs
  {
    if vs == [] then [] else Postfix(vs[0]) + PostfixAll(vs[1..])
  }

  /** Steps taken from the left over a stack; the top values are the terms of a call, the deepest first. */
  function Taken(evaluate: Evaluate, stack: seq<Value>, calls: seq<Call>, next: nat, steps: seq<Step>):
    (seq<Value>, seq<Call>, nat)
    decreases |steps|
  {
    if steps == [] then (stack, calls, next)
    else
      match steps[0]
      case Put(leaf) => Taken(evaluate, stack + [leaf], calls, next, steps[1..])
      case Ask(op, n) =>
        if n > |stack| then (stack, calls, next)
        else
          var calls' := calls + [Call(op, stack[|stack| - n..])];
          Taken(evaluate, stack[..|stack| - n] + [evaluate(calls', next).0], calls', evaluate(calls', next).1, steps[1..])
      case Gather(n) =>
        if n > |stack| then (stack, calls, next)
        else Taken(evaluate, stack[..|stack| - n] + [Array(Made(next), stack[|stack| - n..])], calls, next + 1, steps[1..])
  }

  /** One reduction is the walk of the postfix order: the same answer, after the same calls in the same order. */
  lemma {:induction false} OnceIsPostfix(evaluate: Evaluate, calls: seq<Call>, next: nat, v: Value)
    ensures var once := Once(evaluate, calls, next, v);
            Taken(evaluate, [], calls, next, Postfix(v)) == ([once.0], once.1, once.2)
  {
    PutsAnswer(evaluate, [], calls, next, v, []);
    assert Postfix(v) + [] == Postfix(v) && [] + [Once(evaluate, calls, next, v).0] == [Once(evaluate, calls, next, v).0];
  }

  lemma {:induction false} OnceAllIsPostfix(evaluate: Evaluate, calls: seq<Call>, next: nat, vs: seq<Value>)
    ensures Taken(evaluate, [], calls, next, PostfixAll(vs)) == OnceAll(evaluate, calls, next, vs)
  {
    PutsAnswers(evaluate, [], calls, next, vs, []);
    assert PostfixAll(vs) + [] == PostfixAll(vs) && [] + OnceAll(evaluate, calls, next, vs).0 == OnceAll(evaluate, calls, next, vs).0;
  }

  lemma {:induction false} PutsAnswer(evaluate: Evaluate, stack: seq<Value>, calls: seq<Call>, next: nat, v: Value,
                                      rest: seq<Step>)
    ensures var once := Once(evaluate, calls, next, v);
            Taken(evaluate, stack, calls, next, Postfix(v) + rest) == Taken(evaluate, stack + [once.0], once.1, once.2, rest)
    decreases v
  {
    match v
    case Operation(_, op, terms) =>
      PutsAnswers(evaluate, stack, calls, next, terms, [Ask(op, |terms|)] + rest);
      assert Postfix(v) + rest == PostfixAll(terms) + ([Ask(op, |terms|)] + rest);
      TopTaken(stack, OnceAll(evaluate, calls, next, terms).0);
    case Array(_, items) =>
      PutsAnswers(evaluate, stack, calls, next, items, [Gather(|items|)] + rest);
      assert Postfix(v) + rest == PostfixAll(items) + ([Gather(|items|)] + rest);
      TopTaken(stack, OnceAll(evaluate, calls, next, items).0);
    case _ =>
  }

  lemma {:induction false} PutsAnswers(evaluate: Evaluate, stack: seq<Value>, calls: seq<Call>, next: nat, vs: seq<Value>,
                                       rest: seq<Step>)
    ensures var once := OnceAll(evaluate, calls, next, vs);
            Taken(evaluate, stack, calls, next, PostfixAll(vs) + rest) == Taken(evaluate, stack + once.0, once.1, once.2, rest)
    decreases vs
  {
    if vs == [] {
      assert stack + [] == stack && PostfixAll(vs) + rest == rest;
    } else {
      var first := Once(evaluate, calls, next, vs[0]);
      assert PostfixAll(vs) + rest == Postfix(vs[0]) + (PostfixAll(vs[1..]) + rest);
      PutsAnswer(evaluate, stack, calls, next, vs[0], PostfixAll(vs[1..]) + rest);
      PutsAnswers(evaluate, stack + [first.0], first.1, first.2, vs[1..], rest);
      var others := OnceAll(evaluate, first.1, first.2, vs[1..]).0;
      assert stack + [first.0] + others == stack + ([first.0] + others);
    }
  }

  lemma TopTaken<T>(stack: seq<T>, top: seq<T>)
    ensures (stack + top)[|stack|..] == top && (stack + top)[..|stack|] == stack
  {
  }

  /** A value's meaning under an operation's own arithmetic: that of its terms, each in its place. */
  ghost predicate Means(answer: Call -> Value, v: Value, out: Value)
    decreases v
  {
    match v
    case Undefined => out == Null
    case Operation(_, op, terms) =>
      exists values: seq<Value> :: MeanEach(answer, terms, values) && out == answer(Call(op, values))
    case Array(_, items) => out.Array? && MeanEach(answer, items, out.items)
    case _ => out == v
  }

  ghost predicate MeanEach(answer: Call -> Value, vs: seq<Value>, outs: seq<Value>)
    decreases vs
  {
    |outs| == |vs| && forall k | 0 <= k < |vs| :: Means(answer, vs[k], outs[k])
  }

  /** The callback that looks at nothing but the call. */
  function ByCall(answer: Call -> Value): Evaluate {
    (calls: seq<Call>, next: nat) => (if calls == [] then Null else answer(calls[|calls| - 1]), next)
  }

  /** Reduced by a callback that looks only at the call, a value gives its meaning, whatever else was reduced before. */
  lemma {:induction false} ReducesToMeaning(answer: Call -> Value, calls: seq<Call>, next: nat, v: Value)
    ensures Means(answer, v, Once(ByCall(answer), calls, next, v).0)
    decreases v
  {
    match v
    case Operation(_, op, terms) =>
      ReducesToMeanings(answer, calls, next, terms);
      var values := OnceAll(ByCall(answer), calls, next, terms).0;
      assert MeanEach(answer, terms, values);
    case Array(_, items) => ReducesToMeanings(answer, calls, next, items);
    case _ =>
  }

  lemma {:induction false} ReducesToMeanings(answer: Call -> Value, calls: seq<Call>, next: nat, vs: seq<Value>)
    ensures MeanEach(answer, vs, OnceAll(ByCall(answer), calls, next, vs).0)
    decreases vs
  {
    if vs != [] {
      ReducesToMeaning(answer, calls, next, vs[0]);
      var first := Once(ByCall(answer), calls, next, vs[0]);
      ReducesToMeanings(answer, first.1, first.2, vs[1..]);
      var others := OnceAll(ByCall(answer), first.1, first.2, vs[1..]).0;
      forall k | 0 <= k < |vs|
        ensures Means(answer, vs[k], ([first.0] + others)[k])
      {
        if k > 0 {
          assert vs[k] == vs[1..][k - 1];
        }
      }
    }
  }

  // ----- what the parse makes, and what callbacks may return -----

  function Ids(v: Value): set<Id>
    decreases v
  {
    match v
    case Thing(id) => {id}
    case Operation(id, _, terms) => {id} + IdsIn(terms)
    case Array(id, items) => {id} + IdsIn(items)
    case _ => {}
  }

  function IdsIn(vs: seq<Value>): set<Id>
    decreases vs
  {
    if vs == [] then {} else Ids(vs[0]) + IdsIn(vs[1..])
  }

  /** No object is shared. */
  predicate Unshared(v: Value)
    decreases v
  {
    match v
    case Operation(id, _, terms) => id !in IdsIn(terms) && UnsharedIn(terms)
    case Array(id, items) => id !in IdsIn(items) && UnsharedIn(items)
    case _ => true
  }

  predicate UnsharedIn(vs: seq<Value>)
    decreases vs
  {
    vs != [] ==> Unshared(vs[0]) && UnsharedIn(vs[1..]) && Ids(vs[0]) !! IdsIn(vs[1..])
  }

  /** What the parse made of a value is in some set: the rest was made by reducing. */
  ghost predicate ParsedWithin(ids: set<Id>, some: set<Id>) {
    forall id | id in ids :: id.Parsed? ==> id in some
  }

  /** Every callback result is made afresh, or of what is in the reduced terms: operator arrays included. */
  ghost predicate BuiltFromTerms(evaluate: Evaluate) {
    forall calls: seq<Call>, next: nat {:trigger evaluate(calls, next)} | calls != [] ::
      ParsedWithin(Ids(evaluate(calls, next).0), IdsIn(calls[|calls| - 1].terms))
  }

  /** A callback that answers every operation with a new operation of the same reduced terms. */
  function Rewriter(calls: seq<Call>, next: nat): (Value, nat) {
    if calls == [] then (Null, next)
    else (Operation(Made(next), calls[|calls| - 1].op, calls[|calls| - 1].terms), next + 1)
  }

  /** Symbolic rewriters, which return operator arrays, are among the callbacks the results below are about. */
  lemma RewriterIsBuiltFromTerms()
    ensures BuiltFromTerms(Rewriter)
  {
    forall calls: seq<Call>, next: nat {:trigger Rewriter(calls, next)} | calls != []
      ensures ParsedWithin(Ids(Rewriter(calls, next).0), IdsIn(calls[|calls| - 1].terms))
    {
    }
  }

  lemma {:induction false} IdsOfSnoc(vs: seq<Value>, v: Value)
    ensures IdsIn([v] + vs) == Ids(v) + IdsIn(vs)
  {
    assert ([v] + vs)[1..] == vs;
  }

  /** A value that reducing leaves as it is, if it is not missing. */
  predicate IsDone(v: Value, done: set<Id>) {
    v.IsObject() ==> v.id in done
  }

  predicate AllDone(vs: seq<Value>, done: set<Id>) {
    forall k | 0 <= k < |vs| :: IsDone(vs[k], done)
  }

  /** Reducing a parsed value nothing of which is done is the one reduction, and marks only what it was made of. */
  ghost predicate Reduces(s: Store, v: Value, out: Value, s': Store, once: (Value, seq<Call>, nat)) {
    && out == once.0 && s'.calls == once.1 && s'.next == once.2
    && s.done <= s'.done && ParsedWithin(s'.done - s.done, Ids(v)) && ParsedWithin(Ids(out), Ids(v))
    && IsDone(out, s'.done)
  }

  lemma {:induction false} ReducesOnce(evaluate: Evaluate, s: Store, v: Value)
    requires BuiltFromTerms(evaluate) && Unshared(v) && Ids(v) !! s.done
    requires forall id | id in Ids(v) :: id.Parsed?
    ensures Reduces(s, v, Reduce(evaluate, s, v).0, Reduce(evaluate, s, v).1, Once(evaluate, s.calls, s.next, v))
    decreases v
  {
    match v
    case Operation(_, op, terms) =>
      ReducesAllOnce(evaluate, s, terms);
      var (reduced, s1) := ReduceAll(evaluate, s, terms);
      var calls := s1.calls + [Call(op, reduced)];
      assert ParsedWithin(Ids(evaluate(calls, s1.next).0), IdsIn(reduced));
    case Array(_, items) =>
      ReducesAllOnce(evaluate, s, items);
    case _ =>
  }

  lemma {:induction false} ReducesAllOnce(evaluate: Evaluate, s: Store, vs: seq<Value>)
    requires BuiltFromTerms(evaluate) && UnsharedIn(vs) && IdsIn(vs) !! s.done
    requires forall id | id in IdsIn(vs) :: id.Parsed?
    ensures var (out, s') := ReduceAll(evaluate, s, vs);
            var once := OnceAll(evaluate, s.calls, s.next, vs);
            && out == once.0 && s'.calls == once.1 && s'.next == once.2
            && s.done <= s'.done && ParsedWithin(s'.done - s.done, IdsIn(vs)) && ParsedWithin(IdsIn(out), IdsIn(vs))
            && AllDone(out, s'.done)
    decreases vs
  {
    if vs != [] {
      ReducesOnce(evaluate, s, vs[0]);
      var (first, s1) := Reduce(evaluate, s, vs[0]);
      ReducesAllOnce(evaluate, s1, vs[1..]);
      IdsOfSnoc(ReduceAll(evaluate, s1, vs[1..]).0, first);
    }
  }

  // ----- reducing in place as members close -----

  /** What happens while an implicit list is collected: a member closes, or the hook reduces the members so far. */
  datatype Turn = Close(member: Value) | Hook

  function Collect(evaluate: Evaluate, s: Store, slots: seq<Value>, turns: seq<Turn>): (r: (seq<Value>, Store))
    decreases |turns|
  {
    if turns == [] then (slots, s)
    else if turns[0].Close? then Collect(evaluate, s, slots + [turns[0].member], turns[1..])
    else
      var (reduced, s1) := ReduceAll(evaluate, s, slots);
      Collect(evaluate, s1, reduced, turns[1..])
  }

  function Members(turns: seq<Turn>): seq<Value> {
    if turns == [] then [] else (if turns[0].Close? then [turns[0].member] else []) + Members(turns[1..])
  }

  /** How many of the members, after `before` others, had closed when the hook last ran; those before it, at least. */
  function Hooked(turns: seq<Turn>, before: nat, hooked: nat): nat {
    if turns == [] then hooked
    else if turns[0].Close? then Hooked(turns[1..], before + 1, hooked)
    else Hooked(turns[1..], before, before)
  }

  lemma {:induction false} ReduceAllSplit(evaluate: Evaluate, s: Store, a: seq<Value>, b: seq<Value>)
    ensures var (first, s1) := ReduceAll(evaluate, s, a);
            ReduceAll(evaluate, s, a + b).0 == first + ReduceAll(evaluate, s1, b).0
            && ReduceAll(evaluate, s, a + b).1 == ReduceAll(evaluate, s1, b).1
    decreases |a|
  {
    if a == [] {
      assert a + b == b;
    } else {
      assert (a + b)[1..] == a[1..] + b;
      ReduceAllSplit(evaluate, Reduce(evaluate, s, a[0]).1, a[1..], b);
    }
  }

  lemma {:induction false} OnceAllSplit(evaluate: Evaluate, calls: seq<Call>, next: nat, a: seq<Value>, b: seq<Value>)
    ensures var first := OnceAll(evaluate, calls, next, a);
            var others := OnceAll(evaluate, first.1, first.2, b);
            var whole := OnceAll(evaluate, calls, next, a + b);
            whole.0 == first.0 + others.0 && whole.1 == others.1 && whole.2 == others.2
    decreases |a|
  {
    if a == [] {
      assert a + b == b;
    } else {
      assert (a + b)[1..] == a[1..] + b;
      var first := Once(evaluate, calls, next, a[0]);
      OnceAllSplit(evaluate, first.1, first.2, a[1..], b);
    }
  }

  lemma {:induction false} UnsharedSplit(a: seq<Value>, b: seq<Value>)
    ensures IdsIn(a + b) == IdsIn(a) + IdsIn(b)
    ensures UnsharedIn(a + b) <==> UnsharedIn(a) && UnsharedIn(b) && IdsIn(a) !! IdsIn(b)
    decreases |a|
  {
    if a == [] {
      assert a + b == b;
    } else {
      assert (a + b)[1..] == a[1..] + b;
      UnsharedSplit(a[1..], b);
    }
  }

  function Settled(v: Value): Value {
    if v.Undefined? then Null else v
  }

  /** Values already produced come back as they are; a missing one comes back null. */
  lemma {:induction false} DoneStays(evaluate: Evaluate, s: Store, vs: seq<Value>)
    requires AllDone(vs, s.done)
    ensures ReduceAll(evaluate, s, vs).1 == s
    ensures forall k | 0 <= k < |vs| :: ReduceAll(evaluate, s, vs).0[k] == Settled(vs[k])
    decreases |vs|
  {
    if vs != [] {
      assert Reduce(evaluate, s, vs[0]) == (Settled(vs[0]), s);
      DoneStays(evaluate, s, vs[1..]);
    }
  }

  /** The list under construction: its first members reduced once, whatever hooks ran, the others as parsed. */
  ghost predicate InProgress(evaluate: Evaluate, s0: Store, parsed: seq<Value>, hooked: nat, slots: seq<Value>, s: Store)
    requires hooked <= |parsed|
  {
    var once := OnceAll(evaluate, s0.calls, s0.next, parsed[..hooked]);
    && |slots| == |parsed| && slots[hooked..] == parsed[hooked..]
    && s.calls == once.1 && s.next == once.2
    && s0.done <= s.done && ParsedWithin(s.done - s0.done, IdsIn(parsed[..hooked]))
    && AllDone(slots[..hooked], s.done)
    && forall k | 0 <= k < hooked :: slots[k] == once.0[k] || slots[k] == Settled(once.0[k])
  }

  ghost predicate Collectible(s: Store, parsed: seq<Value>) {
    UnsharedIn(parsed) && IdsIn(parsed) !! s.done && forall id | id in IdsIn(parsed) :: id.Parsed?
  }

  lemma ReducedAgain(evaluate: Evaluate, s: Store, vs: seq<Value>, done: set<Id>)
    requires AllDone(vs, s.done) && s.done <= done
    ensures ReduceAll(evaluate, s, vs).1 == s && AllDone(ReduceAll(evaluate, s, vs).0, done)
    ensures forall k | 0 <= k < |vs| :: ReduceAll(evaluate, s, vs).0[k] == Settled(vs[k])
  {
    DoneStays(evaluate, s, vs);
    forall k | 0 <= k < |vs|
      ensures IsDone(ReduceAll(evaluate, s, vs).0[k], done)
    {
      assert IsDone(vs[k], s.done);
    }
  }

  lemma DoneTogether(a: seq<Value>, b: seq<Value>, done: set<Id>)
    requires AllDone(a, done) && AllDone(b, done)
    ensures AllDone(a + b, done)
  {
    forall k | 0 <= k < |a + b|
      ensures IsDone((a + b)[k], done)
    {
      if k >= |a| {
        assert (a + b)[k] == b[k - |a|];
      }
    }
  }

  /** What reducing members already produced, then parsed ones, gives. */
  lemma ReducesParts(evaluate: Evaluate, s: Store, first: seq<Value>, after: seq<Value>)
    requires BuiltFromTerms(evaluate) && Collectible(s, after)
    requires AllDone(first, s.done)
    ensures var (out, s') := ReduceAll(evaluate, s, first + after);
            var once := OnceAll(evaluate, s.calls, s.next, after);
            && (forall k | 0 <= k < |first| :: out[k] == Settled(first[k]))
            && out[|first|..] == once.0 && s'.calls == once.1 && s'.next == once.2
            && s.done <= s'.done && ParsedWithin(s'.done - s.done, IdsIn(after)) && AllDone(out, s'.done)
  {
    ReducedAgain(evaluate, s, first, ReduceAll(evaluate, s, after).1.done) by {
      ReducesAllOnce(evaluate, s, after);
    }
    ReduceAllSplit(evaluate, s, first, after);
    ReducesAllOnce(evaluate, s, after);
    var (head, tail) := (ReduceAll(evaluate, s, first).0, ReduceAll(evaluate, s, after).0);
    assert ReduceAll(evaluate, s, first + after).0 == head + tail;
    assert (head + tail)[|first|..] == tail;
    DoneTogether(head, tail, ReduceAll(evaluate, s, after).1.done);
  }

  lemma SlotParts<T>(parsed: seq<T>, hooked: nat, slots: seq<T>)
    requires hooked <= |parsed| == |slots|
    ensures parsed == parsed[..hooked] + parsed[hooked..]
    ensures slots[hooked..] == parsed[hooked..] ==> slots == slots[..hooked] + parsed[hooked..]
    ensures hooked == |parsed| ==> slots[..hooked] == slots && parsed[..hooked] == parsed && slots[hooked..] == parsed[hooked..]
  {
    assert slots == slots[..hooked] + slots[hooked..];
  }

  lemma StillCollectible(s0: Store, s: Store, before: seq<Value>, after: seq<Value>)
    requires Collectible(s0, before + after) && s0.done <= s.done && ParsedWithin(s.done - s0.done, IdsIn(before))
    ensures Collectible(s, after)
  {
    UnsharedSplit(before, after);
  }

  /** One run of the hook, or the reduction of the whole list, reduces the rest. */
  lemma ReducesInProgress(evaluate: Evaluate, s0: Store, parsed: seq<Value>, hooked: nat, slots: seq<Value>, s: Store)
    requires BuiltFromTerms(evaluate) && Collectible(s0, parsed) && hooked <= |parsed|
    requires InProgress(evaluate, s0, parsed, hooked, slots, s)
    ensures var (out, s') := ReduceAll(evaluate, s, slots);
            var once := OnceAll(evaluate, s0.calls, s0.next, parsed);
            && InProgress(evaluate, s0, parsed, |parsed|, out, s')
            && forall k | 0 <= k < |parsed| :: out[k] == if k < hooked then Settled(once.0[k]) else once.0[k]
  {
    var before, after := parsed[..hooked], parsed[hooked..];
    SlotParts(parsed, hooked, slots);
    StillCollectible(s0, s, before, after);
    ReducesParts(evaluate, s, slots[..hooked], after);
    OnceAllSplit(evaluate, s0.calls, s0.next, before, after);
    var (out, s') := ReduceAll(evaluate, s, slots);
    SlotParts(parsed, |parsed|, out);
    UnsharedSplit(before, after);
    EachReduced(slots[..hooked], out, OnceAll(evaluate, s0.calls, s0.next, before).0, OnceAll(evaluate, s.calls, s.next, after).0);
  }

  /** Results reduced again, then results reduced for the first time. */
  lemma EachReduced(slots: seq<Value>, out: seq<Value>, again: seq<Value>, anew: seq<Value>)
    requires |slots| == |again| && |out| == |again| + |anew| && out[|again|..] == anew
    requires forall k | 0 <= k < |again| :: out[k] == Settled(slots[k])
    requires forall k | 0 <= k < |again| :: slots[k] == again[k] || slots[k] == Settled(again[k])
    ensures forall k | 0 <= k < |out| :: out[k] == if k < |again| then Settled((again + anew)[k]) else (again + anew)[k]
  {
    assert forall k | |again| <= k < |out| :: out[k] == out[|again|..][k - |again|];
  }

  lemma {:induction false} CollectsInProgress(evaluate: Evaluate, s0: Store, parsed: seq<Value>, hooked: nat,
                                              slots: seq<Value>, s: Store, turns: seq<Turn>)
    requires BuiltFromTerms(evaluate) && Collectible(s0, parsed + Members(turns)) && hooked <= |parsed|
    requires InProgress(evaluate, s0, parsed, hooked, slots, s)
    ensures Hooked(turns, |parsed|, hooked) <= |parsed| + |Members(turns)|
    ensures var (slots', s') := Collect(evaluate, s, slots, turns);
            InProgress(evaluate, s0, parsed + Members(turns), Hooked(turns, |parsed|, hooked), slots', s')
    decreases |turns|
  {
    if turns == [] {
      assert parsed + Members(turns) == parsed;
    } else if turns[0].Close? {
      var more := parsed + [turns[0].member];
      assert parsed + Members(turns) == more + Members(turns[1..]);
      assert more[..hooked] == parsed[..hooked] && (slots + [turns[0].member])[..hooked] == slots[..hooked];
      CollectsInProgress(evaluate, s0, more, hooked, slots + [turns[0].member], s, turns[1..]);
    } else {
      UnsharedSplit(parsed, Members(turns));
      assert parsed + Members(turns) == parsed + Members(turns[1..]);
      ReducesInProgress(evaluate, s0, parsed, hooked, slots, s);
      var (out, s') := ReduceAll(evaluate, s, slots);
      CollectsInProgress(evaluate, s0, parsed, |parsed|, out, s', turns[1..]);
    }
  }

  /**
   However often the hook runs while members close, the list reduced as a
   whole afterwards holds what one reduction at the end gives, which is what
   the members' postfix order gives, after the same calls, one for each
   operation; but a result that is undefined is null where the hook had
   reduced the member.
   */
  lemma InPlaceThenWhole(evaluate: Evaluate, s: Store, turns: seq<Turn>)
    requires BuiltFromTerms(evaluate) && Collectible(s, Members(turns))
    ensures Hooked(turns, 0, 0) <= |Members(turns)|
    ensures var (slots, s1) := Collect(evaluate, s, [], turns);
            var (out, s2) := ReduceAll(evaluate, s1, slots);
            var (atEnd, sEnd) := ReduceAll(evaluate, s, Members(turns));
            && (atEnd, sEnd.calls, sEnd.next) == Taken(evaluate, [], s.calls, s.next, PostfixAll(Members(turns)))
            && s2.calls == sEnd.calls && s2.next == sEnd.next && |out| == |atEnd|
            && |s2.calls| == |s.calls| + OperationsIn(Members(turns))
            && (forall k | 0 <= k < |out| :: out[k] == if k < Hooked(turns, 0, 0) then Settled(atEnd[k]) else atEnd[k])
            && (out == atEnd <==> forall k | 0 <= k < Hooked(turns, 0, 0) :: !atEnd[k].Undefined?)
  {
    var parsed := Members(turns);
    assert [] + parsed == parsed;
    CollectsInProgress(evaluate, s, [], 0, [], s, turns);
    var (slots, s1) := Collect(evaluate, s, [], turns);
    ReducesInProgress(evaluate, s, parsed, Hooked(turns, 0, 0), slots, s1);
    ReducesAllOnce(evaluate, s, parsed);
    OnceCallsAll(evaluate, s.calls, s.next, parsed);
    OnceAllIsPostfix(evaluate, s.calls, s.next, parsed);
    assert parsed[..|parsed|] == parsed;
  }
}
