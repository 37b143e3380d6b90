/**
 Realizing and simplifying a parsed tree whose operations are handles into
 an arena, where a rewrite can leave a node inside itself.
 */
module Realize {

  datatype Option<T> = None | Some(value: T)

  datatype Field = Field(key: string, value: Value)

  datatype Value =
    | Undefined
    | Str(s: string)
    | Text(text: string)
    | Other(n: int)
    | Handle(id: nat)
    | ListRef(items: seq<Value>)
    | Array(items: seq<Value>)
    | MapRef(fields: seq<Field>)
    | Object(fields: seq<Field>)

  /** An operator, and the rest of what its description says. */
  datatype Operator = Operator(src: string, details: seq<Field>) {
    function Description(): Value {
      Object([Field("src", Str(src))] + details)
    }
  }

  datatype Node = Node(op: Option<Operator>, terms: seq<Value>)

  type Arena = map<nat, Node>

  const CIRCLE: Value := Str("[CIRCLE]")

  // ----- what a walk may meet -----

  function Handles(v: Value): set<nat>
    decreases v
  {
    match v
    case Handle(id) => {id}
    case ListRef(items) => HandlesIn(items)
    case Array(items) => HandlesIn(items)
    case MapRef(fields) => HandlesInFields(fields)
    case Object(fields) => HandlesInFields(fields)
    case _ => {}
  }

  function HandlesIn(vs: seq<Value>): set<nat>
    decreases vs
  {
    if vs == [] then {} else Handles(vs[0]) + HandlesIn(vs[1..])
  }

  function HandlesInFields(fields: seq<Field>): set<nat>
    decreases fields
  {
    if fields == [] then {} else Handles(fields[0].value) + HandlesInFields(fields[1..])
  }

  /** No handle has been released. */
  predicate Live(arena: Arena, handles: set<nat>) {
    handles <= arena.Keys && forall id | id in arena :: HandlesIn(arena[id].terms) <= arena.Keys
  }

  /** Every node carries an operator whose source is not empty and whose description holds no expression. */
  predicate Operators(arena: Arena) {
    forall id | id in arena ::
      arena[id].op.Some? && arena[id].op.value.src != "" && HandlesInFields(arena[id].op.value.details) == {}
  }

  /** The nodes a walk has not entered: each handle entered takes one away. */
  function Unopened(arena: Arena, open: seq<nat>): set<nat> {
    set id | id in arena && id !in open
  }

  lemma OpensFewer(arena: Arena, open: seq<nat>, id: nat)
    requires id in arena && id !in open
    ensures Unopened(arena, open + [id]) < Unopened(arena, open)
  {
    assert id in Unopened(arena, open) && id !in Unopened(arena, open + [id]);
  }

  // ----- realizing -----

  function Realized(arena: Arena, v: Value, open: seq<nat>): Value
    requires Live(arena, Handles(v))
    decreases Unopened(arena, open), v
  {
    match v
    case Handle(id) =>
      if id in open then CIRCLE
      else
        OpensFewer(arena, open, id);
        Array((if arena[id].op.Some? then [arena[id].op.value.Description()] else [])
              + RealizedAll(arena, arena[id].terms, open + [id]))
    case ListRef(items) => ListRef(RealizedAll(arena, items, open))
    case Array(items) => Array(RealizedAll(arena, items, open))
    case MapRef(fields) => MapRef(RealizedFields(arena, fields, open))
    case Object(fields) => Object(RealizedFields(arena, fields, open))
    case _ => v
  }

  function RealizedAll(arena: Arena, vs: seq<Value>, open: seq<nat>): (r: seq<Value>)
    requires Live(arena, HandlesIn(vs))
    ensures |r| == |vs|
    decreases Unopened(arena, open), vs
  {
    if vs == [] then [] else [Realized(arena, vs[0], open)] + RealizedAll(arena, vs[1..], open)
  }

  function RealizedFields(arena: Arena, fields: seq<Field>, open: seq<nat>): (r: seq<Field>)
    requires Live(arena, HandlesInFields(fields))
    ensures |r| == |fields|
    decreases Unopened(arena, open), fields
  {
    if fields == [] then []
    else [Field(fields[0].key, Realized(arena, fields[0].value, open))] + RealizedFields(arena, fields[1..], open)
  }

  // ----- simplifying -----

  /** A member by its key. */
  function Get(v: Value, key: string): Option<Value> {
    match v
    case MapRef(fields) => GetField(fields, key)
    case Object(fields) => GetField(fields, key)
    case _ => None
  }

  function GetField(fields: seq<Field>, key: string): Option<Value> {
    if fields == [] then None
    else if fields[0].key == key then Some(fields[0].value)
    else GetField(fields[1..], key)
  }

  /** The source text of a realized operator description that leads an array. */
  function RealizedSource(items: seq<Value>): Option<string> {
    if items == [] then None
    else
      match Get(items[0], "src")
      case Some(Str(s)) => if s != "" then Some(s) else None
      case _ => None
  }

  function Simplified(arena: Arena, v: Value, open: seq<nat>): Value
    requires Live(arena, Handles(v))
    decreases Unopened(arena, open), v
  {
    match v
    case Handle(id) =>
      if id in open then CIRCLE
      else
        OpensFewer(arena, open, id);
        Array((if arena[id].op.Some? then [Str(arena[id].op.value.src)] else [])
              + SimplifiedTerms(arena, arena[id].terms, open + [id]))
    case ListRef(items) => Array(SimplifiedAll(arena, items, open))
    case Array(items) =>
      (match RealizedSource(items)
       case Some(src) =>
         assert HandlesIn(items) == Handles(items[0]) + HandlesIn(items[1..]);
         Array([Str(src)] + SimplifiedTerms(arena, items[1..], open))
       case None => Array(SimplifiedAll(arena, items, open)))
    case MapRef(fields) => Object(SimplifiedFields(arena, fields, open))
    case Object(fields) => Object(SimplifiedFields(arena, fields, open))
    case Text(s) => Str(s)
    case _ => v
  }

  function SimplifiedAll(arena: Arena, vs: seq<Value>, open: seq<nat>): (r: seq<Value>)
    requires Live(arena, HandlesIn(vs))
    ensures |r| == |vs|
    decreases Unopened(arena, open), vs
  {
    if vs == [] then [] else [Simplified(arena, vs[0], open)] + SimplifiedAll(arena, vs[1..], open)
  }

  /** Terms, those never filled dropped. */
  function SimplifiedTerms(arena: Arena, vs: seq<Value>, open: seq<nat>): seq<Value>
    requires Live(arena, HandlesIn(vs))
    decreases Unopened(arena, open), vs
  {
    if vs == [] then []
    else (if vs[0].Undefined? then [] else [Simplified(arena, vs[0], open)]) + SimplifiedTerms(arena, vs[1..], open)
  }

  function SimplifiedFields(arena: Arena, fields: seq<Field>, open: seq<nat>): (r: seq<Field>)
    requires Live(arena, HandlesInFields(fields))
    ensures |r| == |fields|
    decreases Unopened(arena, open), fields
  {
    if fields == [] then []
    else [Field(fields[0].key, Simplified(arena, fields[0].value, open))] + SimplifiedFields(arena, fields[1..], open)
  }

  // ----- where the two disagree -----

  /**
   A plain array led by an object whose `src` is a node the walk is inside:
   realizing writes that `src` as text, which then reads as an operator's.
   */
  predicate Trap(items: seq<Value>, open: seq<nat>) {
    items != [] && Get(items[0], "src").Some? && Get(items[0], "src").value.Handle? && Get(items[0], "src").value.id in open
  }

  /** Simplifying meets no such array. */
  predicate TrapFree(arena: Arena, v: Value, open: seq<nat>)
    requires Live(arena, Handles(v))
    decreases Unopened(arena, open), v
  {
    match v
    case Handle(id) =>
      id in open || (OpensFewer(arena, open, id); TrapFreeAll(arena, arena[id].terms, open + [id]))
    case ListRef(items) => TrapFreeAll(arena, items, open)
    case Array(items) =>
      if RealizedSource(items).Some? then
        assert HandlesIn(items) == Handles(items[0]) + HandlesIn(items[1..]);
        TrapFreeAll(arena, items[1..], open)
      else !Trap(items, open) && TrapFreeAll(arena, items, open)
    case MapRef(fields) => TrapFreeFields(arena, fields, open)
    case Object(fields) => TrapFreeFields(arena, fields, open)
    case _ => true
  }

  predicate TrapFreeAll(arena: Arena, vs: seq<Value>, open: seq<nat>)
    requires Live(arena, HandlesIn(vs))
    decreases Unopened(arena, open), vs
  {
    vs != [] ==> TrapFree(arena, vs[0], open) && TrapFreeAll(arena, vs[1..], open)
  }

  predicate TrapFreeFields(arena: Arena, fields: seq<Field>, open: seq<nat>)
    requires Live(arena, HandlesInFields(fields))
    decreases Unopened(arena, open), fields
  {
    fields != [] ==> TrapFree(arena, fields[0].value, open) && TrapFreeFields(arena, fields[1..], open)
  }

  // ----- simplifying what was realized -----

  lemma ConsAgree<T>(a: T, x: seq<T>, b: T, y: seq<T>)
    ensures [a] + x == [b] + y <==> a == b && x == y
  {
    if [a] + x == [b] + y {
      assert a == ([a] + x)[0] == b;
      assert x == ([a] + x)[1..] == ([b] + y)[1..] == y;
    }
  }

  /** Whether simplifying a realized value, from anywhere, gives what simplifying the value gives. */
  ghost predicate Agree(arena: Arena, v: Value, open: seq<nat>, later: seq<nat>)
    requires Live(arena, Handles(v))
  {
    var r := Realized(arena, v, open);
    Handles(r) == {} && Simplified(arena, r, later) == Simplified(arena, v, open)
  }

  lemma {:induction false} RealizedMember(arena: Arena, fields: seq<Field>, key: string, open: seq<nat>)
    requires Live(arena, HandlesInFields(fields))
    ensures var f, r := GetField(fields, key), GetField(RealizedFields(arena, fields, open), key);
            f.Some? == r.Some? && (f.Some? ==> Live(arena, Handles(f.value)) && r.value == Realized(arena, f.value, open))
    decreases fields
  {
    if fields != [] && fields[0].key != key {
      RealizedMember(arena, fields[1..], key, open);
    }
  }

  /** What leads an array is read as an operator after realizing just where it was before, or in a trap. */
  lemma RealizedLead(arena: Arena, items: seq<Value>, open: seq<nat>)
    requires Live(arena, HandlesIn(items))
    ensures RealizedSource(RealizedAll(arena, items, open))
         == if Trap(items, open) then Some("[CIRCLE]") else RealizedSource(items)
    ensures Trap(items, open) ==> RealizedSource(items).None?
  {
    if items != [] {
      if items[0].MapRef? || items[0].Object? {
        assert HandlesInFields(items[0].fields) == Handles(items[0]) <= HandlesIn(items);
        RealizedMember(arena, items[0].fields, "src", open);
      }
    }
  }

  lemma {:induction false} RealizedAgrees(arena: Arena, v: Value, open: seq<nat>, later: seq<nat>)
    requires Live(arena, Handles(v)) && Operators(arena)
    ensures Handles(Realized(arena, v, open)) == {}
    ensures Agree(arena, v, open, later) <==> TrapFree(arena, v, open)
    ensures Realized(arena, v, open).Undefined? <==> v.Undefined?
    decreases Unopened(arena, open), v, 1
  {
    match v
    case Handle(id) =>
      if id !in open {
        HandleAgrees(arena, id, open, later);
      }
    case ListRef(items) => AllAgree(arena, items, open, later);
    case Array(items) => ArrayAgrees(arena, items, open, later);
    case MapRef(fields) => FieldsAgree(arena, fields, open, later);
    case Object(fields) => FieldsAgree(arena, fields, open, later);
    case _ =>
  }

  lemma {:induction false} HandleAgrees(arena: Arena, id: nat, open: seq<nat>, later: seq<nat>)
    requires Live(arena, {id}) && Operators(arena) && id !in open
    ensures Handles(Realized(arena, Handle(id), open)) == {}
    ensures Agree(arena, Handle(id), open, later) <==> TrapFree(arena, Handle(id), open)
    decreases Unopened(arena, open), Handle(id), 0
  {
    OpensFewer(arena, open, id);
    var terms, op, inside := arena[id].terms, arena[id].op.value, open + [id];
    TermsAgree(arena, terms, inside, later);
    var r := [op.Description()] + RealizedAll(arena, terms, inside);
    assert Realized(arena, Handle(id), open) == Array(r) && r[1..] == RealizedAll(arena, terms, inside);
    assert RealizedSource(r) == Some(op.src);
    DescriptionHasNoHandles(op);
    ConsAgree(Str(op.src), SimplifiedTerms(arena, r[1..], later), Str(op.src), SimplifiedTerms(arena, terms, inside));
  }

  lemma {:induction false} TermsAgree(arena: Arena, vs: seq<Value>, open: seq<nat>, later: seq<nat>)
    requires Live(arena, HandlesIn(vs)) && Operators(arena)
    ensures HandlesIn(RealizedAll(arena, vs, open)) == {}
    ensures SimplifiedTerms(arena, RealizedAll(arena, vs, open), later) == SimplifiedTerms(arena, vs, open)
            <==> TrapFreeAll(arena, vs, open)
    decreases Unopened(arena, open), vs, 0
  {
    if vs != [] {
      RealizedAgrees(arena, vs[0], open, later);
      TermsAgree(arena, vs[1..], open, later);
      var r := RealizedAll(arena, vs, open);
      assert r[1..] == RealizedAll(arena, vs[1..], open);
      if !vs[0].Undefined? {
        ConsAgree(Simplified(arena, r[0], later), SimplifiedTerms(arena, r[1..], later),
                  Simplified(arena, vs[0], open), SimplifiedTerms(arena, vs[1..], open));
      } else {
        assert [] + SimplifiedTerms(arena, r[1..], later) == SimplifiedTerms(arena, r[1..], later);
        assert [] + SimplifiedTerms(arena, vs[1..], open) == SimplifiedTerms(arena, vs[1..], open);
        assert SimplifiedTerms(arena, r, later) == SimplifiedTerms(arena, r[1..], later);
        assert SimplifiedTerms(arena, vs, open) == SimplifiedTerms(arena, vs[1..], open);
      }
    }
  }

  lemma {:induction false} AllAgree(arena: Arena, vs: seq<Value>, open: seq<nat>, later: seq<nat>)
    requires Live(arena, HandlesIn(vs)) && Operators(arena)
    ensures HandlesIn(RealizedAll(arena, vs, open)) == {}
    ensures SimplifiedAll(arena, RealizedAll(arena, vs, open), later) == SimplifiedAll(arena, vs, open)
            <==> TrapFreeAll(arena, vs, open)
    decreases Unopened(arena, open), vs, 0
  {
    if vs != [] {
      RealizedAgrees(arena, vs[0], open, later);
      AllAgree(arena, vs[1..], open, later);
      var r := RealizedAll(arena, vs, open);
      assert r[1..] == RealizedAll(arena, vs[1..], open);
      ConsAgree(Simplified(arena, r[0], later), SimplifiedAll(arena, r[1..], later),
                Simplified(arena, vs[0], open), SimplifiedAll(arena, vs[1..], open));
    }
  }

  lemma {:induction false} FieldsAgree(arena: Arena, fields: seq<Field>, open: seq<nat>, later: seq<nat>)
    requires Live(arena, HandlesInFields(fields)) && Operators(arena)
    ensures HandlesInFields(RealizedFields(arena, fields, open)) == {}
    ensures SimplifiedFields(arena, RealizedFields(arena, fields, open), later) == SimplifiedFields(arena, fields, open)
            <==> TrapFreeFields(arena, fields, open)
    decreases Unopened(arena, open), fields, 0
  {
    if fields != [] {
      RealizedAgrees(arena, fields[0].value, open, later);
      FieldsAgree(arena, fields[1..], open, later);
      var r := RealizedFields(arena, fields, open);
      assert r[1..] == RealizedFields(arena, fields[1..], open);
      ConsAgree(Field(r[0].key, Simplified(arena, r[0].value, later)), SimplifiedFields(arena, r[1..], later),
                Field(fields[0].key, Simplified(arena, fields[0].value, open)), SimplifiedFields(arena, fields[1..], open));
    }
  }

  lemma {:induction false} ArrayAgrees(arena: Arena, items: seq<Value>, open: seq<nat>, later: seq<nat>)
    requires Live(arena, HandlesIn(items)) && Operators(arena)
    ensures Handles(Realized(arena, Array(items), open)) == {}
    ensures Agree(arena, Array(items), open, later) <==> TrapFree(arena, Array(items), open)
    decreases Unopened(arena, open), items, 1
  {
    RealizedLead(arena, items, open);
    AllAgree(arena, items, open, later);
    if RealizedSource(items).Some? {
      var r := RealizedAll(arena, items, open);
      assert HandlesIn(items) == Handles(items[0]) + HandlesIn(items[1..]);
      TermsAgree(arena, items[1..], open, later);
      assert r[1..] == RealizedAll(arena, items[1..], open);
      var src := Str(RealizedSource(items).value);
      ConsAgree(src, SimplifiedTerms(arena, r[1..], later), src, SimplifiedTerms(arena, items[1..], open));
    } else if Trap(items, open) {
      TrapShows(arena, items, open, later);
    }
  }

  lemma TrapShows(arena: Arena, items: seq<Value>, open: seq<nat>, later: seq<nat>)
    requires Live(arena, HandlesIn(items)) && Trap(items, open) && HandlesIn(RealizedAll(arena, items, open)) == {}
    ensures !Agree(arena, Array(items), open, later)
  {
    RealizedLead(arena, items, open);
    var a, b := Simplified(arena, Realized(arena, Array(items), open), later), Simplified(arena, Array(items), open);
    assert items[0].MapRef? || items[0].Object?;
    assert Handles(items[0]) <= HandlesIn(items) && Simplified(arena, items[0], open).Object?;
    assert b == Array(SimplifiedAll(arena, items, open));
    assert b.items[0] == Simplified(arena, items[0], open);
    assert a.items[0] == CIRCLE;
  }

  lemma DescriptionHasNoHandles(op: Operator)
    requires HandlesInFields(op.details) == {}
    ensures Handles(op.Description()) == {}
  {
    var fields := [Field("src", Str(op.src))] + op.details;
    assert fields[0].value == Str(op.src) && fields[1..] == op.details;
    assert HandlesInFields(fields) == Handles(fields[0].value) + HandlesInFields(fields[1..]);
  }

  /** Simplifying what was realized gives what simplifying directly does exactly where no trap is met. */
  lemma SimplifyRealized(arena: Arena, v: Value)
    requires Live(arena, Handles(v)) && Operators(arena)
    ensures Handles(Realized(arena, v, [])) == {}
    ensures Simplified(arena, Realized(arena, v, []), []) == Simplified(arena, v, []) <==> TrapFree(arena, v, [])
  {
    RealizedAgrees(arena, v, [], []);
  }

  /** No node is inside itself: every node ranks above those in its terms. */
  ghost predicate Acyclic(arena: Arena, rank: map<nat, nat>) {
    arena.Keys <= rank.Keys &&
    forall id, h | id in arena && h in HandlesIn(arena[id].terms) && h in arena :: rank[h] < rank[id]
  }

  /** What a walk meets ranks below everything it is inside. */
  ghost predicate Below(handles: set<nat>, open: seq<nat>, rank: map<nat, nat>) {
    forall h | h in handles :: h in rank && forall k | 0 <= k < |open| :: open[k] in rank && rank[h] < rank[open[k]]
  }

  lemma {:induction false} AcyclicTrapFree(arena: Arena, v: Value, open: seq<nat>, rank: map<nat, nat>)
    requires Live(arena, Handles(v)) && Acyclic(arena, rank) && Below(Handles(v), open, rank)
    ensures TrapFree(arena, v, open)
    decreases Unopened(arena, open), v
  {
    match v
    case Handle(id) =>
      if id !in open {
        OpensFewer(arena, open, id);
        AcyclicTrapFreeAll(arena, arena[id].terms, open + [id], rank);
      }
    case ListRef(items) => AcyclicTrapFreeAll(arena, items, open, rank);
    case Array(items) =>
      AcyclicTrapFreeAll(arena, items, open, rank);
      NoTrapHere(arena, items, open, rank);
    case MapRef(fields) => AcyclicTrapFreeFields(arena, fields, open, rank);
    case Object(fields) => AcyclicTrapFreeFields(arena, fields, open, rank);
    case _ =>
  }

  lemma {:induction false} SourceHandle(fields: seq<Field>)
    ensures GetField(fields, "src").Some? ==> Handles(GetField(fields, "src").value) <= HandlesInFields(fields)
  {
    if fields != [] && fields[0].key != "src" {
      SourceHandle(fields[1..]);
    }
  }

  lemma NoTrapHere(arena: Arena, items: seq<Value>, open: seq<nat>, rank: map<nat, nat>)
    requires Below(HandlesIn(items), open, rank)
    ensures !Trap(items, open)
  {
    if items != [] && (items[0].MapRef? || items[0].Object?) {
      SourceHandle(items[0].fields);
      assert HandlesInFields(items[0].fields) == Handles(items[0]) <= HandlesIn(items);
    }
  }

  lemma {:induction false} AcyclicTrapFreeAll(arena: Arena, vs: seq<Value>, open: seq<nat>, rank: map<nat, nat>)
    requires Live(arena, HandlesIn(vs)) && Acyclic(arena, rank) && Below(HandlesIn(vs), open, rank)
    ensures TrapFreeAll(arena, vs, open)
    decreases Unopened(arena, open), vs
  {
    if vs != [] {
      AcyclicTrapFree(arena, vs[0], open, rank);
      AcyclicTrapFreeAll(arena, vs[1..], open, rank);
    }
  }

  lemma {:induction false} AcyclicTrapFreeFields(arena: Arena, fields: seq<Field>, open: seq<nat>, rank: map<nat, nat>)
    requires Live(arena, HandlesInFields(fields)) && Acyclic(arena, rank) && Below(HandlesInFields(fields), open, rank)
    ensures TrapFreeFields(arena, fields, open)
    decreases Unopened(arena, open), fields
  {
    if fields != [] {
      AcyclicTrapFree(arena, fields[0].value, open, rank);
      AcyclicTrapFreeFields(arena, fields[1..], open, rank);
    }
  }

  /** Without a node inside itself, simplifying what was realized is simplifying. */
  lemma AcyclicSimplifies(arena: Arena, v: Value, rank: map<nat, nat>)
    requires Live(arena, Handles(v)) && Operators(arena) && Acyclic(arena, rank)
    ensures Handles(Realized(arena, v, [])) == {}
    ensures Simplified(arena, Realized(arena, v, []), []) == Simplified(arena, v, [])
  {
    AcyclicTrapFree(arena, v, [], rank);
    SimplifyRealized(arena, v);
  }

  /** A node that holds an array led by an object whose `src` is the node itself. */
  lemma TrapDisagrees() returns (arena: Arena, v: Value)
    ensures Live(arena, Handles(v)) && Operators(arena) && Handles(Realized(arena, v, [])) == {}
    ensures Simplified(arena, Realized(arena, v, []), []) != Simplified(arena, v, [])
  {
    var fields := [Field("src", Handle(0))];
    var led, terms := [Object(fields)], [Array([Object(fields)])];
    arena, v := map[0 := Node(Some(Operator("+", [])), terms)], Handle(0);
    assert fields[1..] == [] && HandlesInFields(fields) == {0};
    assert led[1..] == [] && HandlesIn(led) == {0};
    assert terms[0] == Array(led) && terms[1..] == [] && HandlesIn(terms) == {0};
    assert Get(led[0], "src") == Some(Handle(0));
    assert [] + [0] == [0] && Trap(led, [0]);
    assert !TrapFree(arena, Array(led), [0]);
    assert !TrapFree(arena, v, []);
    SimplifyRealized(arena, v);
  }

  lemma DropsMissing(arena: Arena, vs: seq<Value>, open: seq<nat>)
    requires vs != [] && vs[0].Undefined? && Live(arena, HandlesIn(vs))
    ensures SimplifiedTerms(arena, vs, open) == SimplifiedTerms(arena, vs[1..], open)
  {
  }

  // ----- the walks as they run -----

  /** A walk over a parsed value, with the handles it is inside. */
  class Walk {
    const arena: Arena
    var open: seq<nat>

    constructor (arena: Arena)
      ensures this.arena == arena && open == []
    {
      this.arena := arena;
      open := [];
    }

    method RealizeSeen(value: Value) returns (out: Value)
      requires Live(arena, Handles(value))
      modifies this`open
      ensures out == Realized(arena, value, old(open)) && open == old(open)
      decreases Unopened(arena, open), value, 1
    {
      if value.Handle? {
        if value.id in open {
          return CIRCLE;
        }
        var node := arena[value.id];
        OpensFewer(arena, open, value.id);
        open := open + [value.id];
        var terms := RealizeEach(node.terms);
        open := open[..|open| - 1];
        out := Array((if node.op.Some? then [node.op.value.Description()] else []) + terms);
      } else if value.ListRef? {
        var items := RealizeEach(value.items);
        out := ListRef(items);
      } else if value.Array? {
        var items := RealizeEach(value.items);
        out := Array(items);
      } else if value.MapRef? {
        var fields := RealizeFields(value.fields);
        out := MapRef(fields);
      } else if value.Object? {
        var fields := RealizeFields(value.fields);
        out := Object(fields);
      } else {
        out := value;
      }
    }

    method RealizeEach(values: seq<Value>) returns (out: seq<Value>)
      requires Live(arena, HandlesIn(values))
      modifies this`open
      ensures out == RealizedAll(arena, values, old(open)) && open == old(open)
      decreases Unopened(arena, open), values, 0
    {
      out := [];
      assert values[0..] == values;
      for k := 0 to |values|
        invariant open == old(open)
        invariant HandlesIn(values[k..]) <= HandlesIn(values)
        invariant RealizedAll(arena, values, open) == out + RealizedAll(arena, values[k..], open)
      {
        assert values[k..][1..] == values[k + 1..];
        var entry := RealizeSeen(values[k]);
        out := out + [entry];
      }
    }

    method RealizeFields(fields: seq<Field>) returns (out: seq<Field>)
      requires Live(arena, HandlesInFields(fields))
      modifies this`open
      ensures out == RealizedFields(arena, fields, old(open)) && open == old(open)
      decreases Unopened(arena, open), fields, 0
    {
      out := [];
      assert fields[0..] == fields;
      for k := 0 to |fields|
        invariant open == old(open)
        invariant HandlesInFields(fields[k..]) <= HandlesInFields(fields)
        invariant RealizedFields(arena, fields, open) == out + RealizedFields(arena, fields[k..], open)
      {
        assert fields[k..][1..] == fields[k + 1..];
        var entry := RealizeSeen(fields[k].value);
        out := out + [Field(fields[k].key, entry)];
      }
    }

    method SimplifySeen(value: Value) returns (out: Value)
      requires Live(arena, Handles(value))
      modifies this`open
      ensures out == Simplified(arena, value, old(open)) && open == old(open)
      decreases Unopened(arena, open), value, 1
    {
      if value.Handle? {
        if value.id in open {
          return CIRCLE;
        }
        var node := arena[value.id];
        OpensFewer(arena, open, value.id);
        open := open + [value.id];
        var terms := SimplifyTerms(node.terms);
        open := open[..|open| - 1];
        out := Array((if node.op.Some? then [Str(node.op.value.src)] else []) + terms);
      } else if value.ListRef? {
        var items := SimplifyEach(value.items);
        out := Array(items);
      } else if value.Array? {
        if RealizedSource(value.items).Some? {
          assert HandlesIn(value.items) == Handles(value.items[0]) + HandlesIn(value.items[1..]);
          var terms := SimplifyTerms(value.items[1..]);
          out := Array([Str(RealizedSource(value.items).value)] + terms);
        } else {
          var items := SimplifyEach(value.items);
          out := Array(items);
        }
      } else if value.MapRef? || value.Object? {
        var fields := SimplifyFields(value.fields);
        out := Object(fields);
      } else {
        out := if value.Text? then Str(value.text) else value;
      }
    }

    method SimplifyEach(values: seq<Value>) returns (out: seq<Value>)
      requires Live(arena, HandlesIn(values))
      modifies this`open
      ensures out == SimplifiedAll(arena, values, old(open)) && open == old(open)
      decreases Unopened(arena, open), values, 0
    {
      out := [];
      assert values[0..] == values;
      for k := 0 to |values|
        invariant open == old(open)
        invariant HandlesIn(values[k..]) <= HandlesIn(values)
        invariant SimplifiedAll(arena, values, open) == out + SimplifiedAll(arena, values[k..], open)
      {
        assert values[k..][1..] == values[k + 1..];
        var entry := SimplifySeen(values[k]);
        out := out + [entry];
      }
    }

    method SimplifyTerms(values: seq<Value>) returns (out: seq<Value>)
      requires Live(arena, HandlesIn(values))
      modifies this`open
      ensures out == SimplifiedTerms(arena, values, old(open)) && open == old(open)
      decreases Unopened(arena, open), values, 0
    {
      out := [];
      assert values[0..] == values;
      for k := 0 to |values|
        invariant open == old(open)
        invariant HandlesIn(values[k..]) <= HandlesIn(values)
        invariant SimplifiedTerms(arena, values, open) == out + SimplifiedTerms(arena, values[k..], open)
      {
        assert values[k..][1..] == values[k + 1..];
        if values[k].Undefined? {
          DropsMissing(arena, values[k..], open);
        } else {
          var entry := SimplifySeen(values[k]);
          out := out + [entry];
        }
      }
    }

    method SimplifyFields(fields: seq<Field>) returns (out: seq<Field>)
      requires Live(arena, HandlesInFields(fields))
      modifies this`open
      ensures out == SimplifiedFields(arena, fields, old(open)) && open == old(open)
      decreases Unopened(arena, open), fields, 0
    {
      out := [];
      assert fields[0..] == fields;
      for k := 0 to |fields|
        invariant open == old(open)
        invariant HandlesInFields(fields[k..]) <= HandlesInFields(fields)
        invariant SimplifiedFields(arena, fields, open) == out + SimplifiedFields(arena, fields[k..], open)
      {
        assert fields[k..][1..] == fields[k + 1..];
        var entry := SimplifySeen(fields[k].value);
        out := out + [Field(fields[k].key, entry)];
      }
    }
  }
}
