/**
 What realizing and simplifying give: the plain arrays and the S-expression
 of the document a value stands for in its arena, told from that document
 and not from the walks. Every value stands for exactly one.
 */
module ParsedForms {
  import opened Realize

  /**
   A document: lists, maps and operations over values that hold nothing. A
   slot never filled is `undefined`; a node met inside itself is a circle; an
   array led by a realized description is an operation too.
   */
  datatype Parsed =
    | Plain(value: Value)
    | Circle
    | Sequence(items: seq<Parsed>)
    | Mapping(keys: seq<string>, values: seq<Parsed>)
    | Operation(op: Option<Operator>, terms: seq<Parsed>)
    | Described(src: string, lead: Parsed, terms: seq<Parsed>)

  predicate IsPlain(v: Value) {
    v.Undefined? || v.Str? || v.Text? || v.Other?
  }

  /** The first member named `src` is this string, and not empty. */
  ghost predicate Describes(v: Value, src: string) {
    (v.MapRef? || v.Object?) && src != "" && exists k :: FirstSource(v.fields, k) && v.fields[k].value == Str(src)
  }

  ghost predicate FirstSource(fields: seq<Field>, k: int) {
    0 <= k < |fields| && fields[k].key == "src" && forall j | 0 <= j < k :: fields[j].key != "src"
  }

  /** A value, its handles followed into the arena from inside the open nodes, is the document. */
  ghost predicate Stores(arena: Arena, v: Value, open: seq<nat>, d: Parsed)
    decreases d
  {
    match d
    case Plain(x) => v == x && IsPlain(x)
    case Circle => v.Handle? && v.id in open
    case Sequence(items) =>
      && (v.ListRef? || (v.Array? && (v.items == [] || forall src :: !Describes(v.items[0], src))))
      && |v.items| == |items| && forall k | 0 <= k < |items| :: Stores(arena, v.items[k], open, items[k])
    case Mapping(keys, values) =>
      && (v.MapRef? || v.Object?) && |v.fields| == |values| == |keys|
      && forall k | 0 <= k < |values| :: v.fields[k].key == keys[k] && Stores(arena, v.fields[k].value, open, values[k])
    case Operation(op, terms) =>
      && v.Handle? && v.id !in open && v.id in arena && arena[v.id].op == op && |arena[v.id].terms| == |terms|
      && forall k | 0 <= k < |terms| :: Stores(arena, arena[v.id].terms[k], open + [v.id], terms[k])
    case Described(src, lead, terms) =>
      && v.Array? && |v.items| == |terms| + 1 && Describes(v.items[0], src) && Stores(arena, v.items[0], open, lead)
      && forall k | 0 <= k < |terms| :: Stores(arena, v.items[1..][k], open, terms[k])
  }

  // ----- the two forms -----

  /** The S-expression of a document: an operator's source, then its terms in order, those never filled left out. */
  function SForm(d: Parsed): Value
    decreases d, 1
  {
    match d
    case Plain(Text(s)) => Str(s)
    case Plain(x) => x
    case Circle => Str("[CIRCLE]")
    case Sequence(items) => Array(SForms(items))
    case Mapping(keys, values) => Object(Members(keys, SForms(values)))
    case Operation(op, terms) => Array((if op.Some? then [Str(op.value.src)] else []) + Filled(SForms(terms)))
    case Described(src, _, terms) => Array([Str(src)] + Filled(SForms(terms)))
  }

  function SForms(ds: seq<Parsed>): (r: seq<Value>)
    ensures |r| == |ds|
    decreases ds, 0
  {
    seq(|ds|, k requires 0 <= k < |ds| => SForm(ds[k]))
  }

  function Members(keys: seq<string>, values: seq<Value>): seq<Field> {
    seq(if |keys| <= |values| then |keys| else |values|, k requires 0 <= k < |keys| && k < |values| => Field(keys[k], values[k]))
  }

  function Filled(vs: seq<Value>): seq<Value> {
    if vs == [] then [] else (if vs[0].Undefined? then [] else [vs[0]]) + Filled(vs[1..])
  }

  /** Where every slot is filled nothing is left out. */
  lemma {:induction false} FilledAll(vs: seq<Value>)
    requires forall k | 0 <= k < |vs| :: !vs[k].Undefined?
    ensures Filled(vs) == vs
    decreases |vs|
  {
    if vs != [] {
      FilledAll(vs[1..]);
      assert vs == [vs[0]] + vs[1..];
    }
  }

  /** The plain arrays of a document: an operator's description, then its terms in order, each slot in its place. */
  ghost predicate Shows(arena: Arena, r: Value, v: Value, open: seq<nat>, d: Parsed)
    requires Stores(arena, v, open, d)
    decreases d
  {
    match d
    case Plain(x) => r == x
    case Circle => r == Str("[CIRCLE]")
    case Sequence(items) =>
      && (if v.ListRef? then r.ListRef? else r.Array?)
      && |r.items| == |items| && forall k | 0 <= k < |items| :: Shows(arena, r.items[k], v.items[k], open, items[k])
    case Mapping(keys, values) =>
      && (if v.MapRef? then r.MapRef? else r.Object?) && |r.fields| == |values|
      && forall k | 0 <= k < |values| ::
        r.fields[k].key == keys[k] && Shows(arena, r.fields[k].value, v.fields[k].value, open, values[k])
    case Operation(None, terms) =>
      && r.Array? && |r.items| == |terms|
      && forall k | 0 <= k < |terms| :: Shows(arena, r.items[k], arena[v.id].terms[k], open + [v.id], terms[k])
    case Operation(Some(op), terms) =>
      && r.Array? && |r.items| == |terms| + 1 && r.items[0] == Object([Field("src", Str(op.src))] + op.details)
      && forall k | 0 <= k < |terms| :: Shows(arena, r.items[1..][k], arena[v.id].terms[k], open + [v.id], terms[k])
    case Described(_, lead, terms) =>
      && r.Array? && |r.items| == |terms| + 1 && Shows(arena, r.items[0], v.items[0], open, lead)
      && forall k | 0 <= k < |terms| :: Shows(arena, r.items[1..][k], v.items[1..][k], open, terms[k])
  }

  // ----- what describes an operator -----

  lemma {:induction false} FirstSourceGet(fields: seq<Field>)
    ensures forall k | FirstSource(fields, k) :: GetField(fields, "src") == Some(fields[k].value)
    ensures GetField(fields, "src").Some? ==> exists k :: FirstSource(fields, k)
  {
    if fields != [] {
      FirstSourceGet(fields[1..]);
      if fields[0].key == "src" {
        assert FirstSource(fields, 0);
      } else {
        forall k | FirstSource(fields, k)
          ensures FirstSource(fields[1..], k - 1)
        {
        }
        if GetField(fields, "src").Some? {
          var k :| FirstSource(fields[1..], k);
          assert FirstSource(fields, k + 1);
        }
      }
    }
  }

  lemma DescribesMeans(items: seq<Value>, src: string)
    ensures RealizedSource(items) == Some(src) <==> items != [] && Describes(items[0], src)
  {
    if items != [] && (items[0].MapRef? || items[0].Object?) {
      FirstSourceGet(items[0].fields);
    }
  }

  lemma DescribesNothing(items: seq<Value>)
    ensures RealizedSource(items).None? <==> items == [] || forall src :: !Describes(items[0], src)
  {
    forall src
      ensures RealizedSource(items) == Some(src) <==> items != [] && Describes(items[0], src)
    {
      DescribesMeans(items, src);
    }
    if RealizedSource(items).Some? {
      assert Describes(items[0], RealizedSource(items).value);
    }
  }

  // ----- every value stands for one document -----

  lemma {:induction false} StoredOnce(arena: Arena, v: Value, open: seq<nat>, d: Parsed, e: Parsed)
    requires Stores(arena, v, open, d) && Stores(arena, v, open, e)
    ensures d == e
    decreases d, 1
  {
    match d
    case Plain(_) =>
    case Circle =>
    case Sequence(items) => StoredOnceAll(arena, v.items, open, items, e.items);
    case Mapping(keys, values) =>
      StoredOnceAll(arena, seq(|values|, k requires 0 <= k < |values| => v.fields[k].value), open, values, e.values);
      assert keys == e.keys;
    case Operation(op, terms) => StoredOnceAll(arena, arena[v.id].terms, open + [v.id], terms, e.terms);
    case Described(src, lead, terms) =>
      DescribesMeans(v.items, src);
      DescribesMeans(v.items, e.src);
      StoredOnce(arena, v.items[0], open, lead, e.lead);
      StoredOnceAll(arena, v.items[1..], open, terms, e.terms);
  }

  /** The values of some documents, one by one. */
  ghost predicate StoresAll(arena: Arena, vs: seq<Value>, open: seq<nat>, ds: seq<Parsed>) {
    |vs| == |ds| && forall k | 0 <= k < |ds| :: Stores(arena, vs[k], open, ds[k])
  }

  lemma {:induction false} StoredOnceAll(arena: Arena, vs: seq<Value>, open: seq<nat>, ds: seq<Parsed>, es: seq<Parsed>)
    requires StoresAll(arena, vs, open, ds) && StoresAll(arena, vs, open, es)
    ensures ds == es
    decreases ds, 0
  {
    forall k | 0 <= k < |ds|
      ensures ds[k] == es[k]
    {
      StoredOnce(arena, vs[k], open, ds[k], es[k]);
    }
  }

  /** The document a value stands for. */
  ghost function DocumentOf(arena: Arena, v: Value, open: seq<nat>): (d: Parsed)
    requires Live(arena, Handles(v))
    ensures Stores(arena, v, open, d)
    decreases Unopened(arena, open), v
  {
    match v
    case Handle(id) =>
      if id in open then Circle
      else
        OpensFewer(arena, open, id);
        Operation(arena[id].op, DocumentsOf(arena, arena[id].terms, open + [id]))
    case ListRef(items) => Sequence(DocumentsOf(arena, items, open))
    case Array(items) =>
      DescribesNothing(items);
      var ds := DocumentsOf(arena, items, open);
      if RealizedSource(items).Some? then
        DescribesMeans(items, RealizedSource(items).value);
        Described(RealizedSource(items).value, ds[0], ds[1..])
      else Sequence(ds)
    case MapRef(fields) => Mapping(Keys(fields), FieldDocuments(arena, fields, open))
    case Object(fields) => Mapping(Keys(fields), FieldDocuments(arena, fields, open))
    case _ => Plain(v)
  }

  ghost function DocumentsOf(arena: Arena, vs: seq<Value>, open: seq<nat>): (ds: seq<Parsed>)
    requires Live(arena, HandlesIn(vs))
    ensures StoresAll(arena, vs, open, ds)
    decreases Unopened(arena, open), vs
  {
    if vs == [] then [] else [DocumentOf(arena, vs[0], open)] + DocumentsOf(arena, vs[1..], open)
  }

  ghost function FieldDocuments(arena: Arena, fields: seq<Field>, open: seq<nat>): (ds: seq<Parsed>)
    requires Live(arena, HandlesInFields(fields))
    ensures |ds| == |fields| && forall k | 0 <= k < |ds| :: Stores(arena, fields[k].value, open, ds[k])
    decreases Unopened(arena, open), fields
  {
    if fields == [] then [] else [DocumentOf(arena, fields[0].value, open)] + FieldDocuments(arena, fields[1..], open)
  }

  function Keys(fields: seq<Field>): seq<string> {
    seq(|fields|, k requires 0 <= k < |fields| => fields[k].key)
  }

  // ----- the walks give the forms -----

  lemma FormsRest(ds: seq<Parsed>)
    requires ds != []
    ensures SForms(ds) == [SForm(ds[0])] + SForms(ds[1..])
  {
  }

  /** Simplifying a value gives the S-expression of its document. */
  lemma {:induction false} SimplifiesTo(arena: Arena, v: Value, open: seq<nat>, d: Parsed)
    requires Live(arena, Handles(v)) && Stores(arena, v, open, d)
    ensures Simplified(arena, v, open) == SForm(d)
    decreases d, 1
  {
    match d
    case Plain(_) =>
    case Circle =>
    case Sequence(items) =>
      if v.Array? {
        DescribesNothing(v.items);
      }
      AllSimplifyTo(arena, v.items, open, items);
    case Mapping(keys, values) => FieldsSimplifyTo(arena, v.fields, open, keys, values);
    case Operation(op, terms) =>
      OpensFewer(arena, open, v.id);
      TermsSimplifyTo(arena, arena[v.id].terms, open + [v.id], terms);
    case Described(src, _, terms) =>
      DescribesMeans(v.items, src);
      assert HandlesIn(v.items) == Handles(v.items[0]) + HandlesIn(v.items[1..]);
      TermsSimplifyTo(arena, v.items[1..], open, terms);
  }

  lemma {:induction false} AllSimplifyTo(arena: Arena, vs: seq<Value>, open: seq<nat>, ds: seq<Parsed>)
    requires Live(arena, HandlesIn(vs)) && StoresAll(arena, vs, open, ds)
    ensures SimplifiedAll(arena, vs, open) == SForms(ds)
    decreases ds, 0
  {
    if vs != [] {
      SimplifiesTo(arena, vs[0], open, ds[0]);
      AllSimplifyTo(arena, vs[1..], open, ds[1..]);
      FormsRest(ds);
    }
  }

  lemma {:induction false} TermsSimplifyTo(arena: Arena, vs: seq<Value>, open: seq<nat>, ds: seq<Parsed>)
    requires Live(arena, HandlesIn(vs)) && StoresAll(arena, vs, open, ds)
    ensures SimplifiedTerms(arena, vs, open) == Filled(SForms(ds))
    decreases ds, 0
  {
    if vs != [] {
      SimplifiesTo(arena, vs[0], open, ds[0]);
      TermsSimplifyTo(arena, vs[1..], open, ds[1..]);
      FormsRest(ds);
    }
  }

  lemma {:induction false} FieldsSimplifyTo(arena: Arena, fields: seq<Field>, open: seq<nat>, keys: seq<string>, values: seq<Parsed>)
    requires Live(arena, HandlesInFields(fields)) && |fields| == |keys| == |values|
    requires forall k | 0 <= k < |values| :: fields[k].key == keys[k] && Stores(arena, fields[k].value, open, values[k])
    ensures SimplifiedFields(arena, fields, open) == Members(keys, SForms(values))
    decreases values, 0
  {
    if fields != [] {
      SimplifiesTo(arena, fields[0].value, open, values[0]);
      FieldsSimplifyTo(arena, fields[1..], open, keys[1..], values[1..]);
      FormsRest(values);
      MembersRest(keys, SForm(values[0]), SForms(values[1..]));
    }
  }

  lemma MembersRest(keys: seq<string>, v: Value, vs: seq<Value>)
    requires |keys| == |vs| + 1
    ensures Members(keys, [v] + vs) == [Field(keys[0], v)] + Members(keys[1..], vs)
  {
  }

  /** Realizing a value gives the plain arrays of its document. */
  lemma {:induction false} RealizesTo(arena: Arena, v: Value, open: seq<nat>, d: Parsed)
    requires Live(arena, Handles(v)) && Stores(arena, v, open, d)
    ensures Shows(arena, Realized(arena, v, open), v, open, d)
    decreases d, 1
  {
    match d
    case Plain(_) =>
    case Circle =>
    case Sequence(items) => AllRealizeTo(arena, v.items, open, items);
    case Mapping(keys, values) => FieldsRealizeTo(arena, v.fields, open, values);
    case Operation(op, terms) =>
      OpensFewer(arena, open, v.id);
      AllRealizeTo(arena, arena[v.id].terms, open + [v.id], terms);
      OperationShown(arena, v, open, d, RealizedAll(arena, arena[v.id].terms, open + [v.id]));
    case Described(_, lead, terms) =>
      assert HandlesIn(v.items) == Handles(v.items[0]) + HandlesIn(v.items[1..]);
      RealizesTo(arena, v.items[0], open, lead);
      AllRealizeTo(arena, v.items[1..], open, terms);
      DescribedShown(arena, Realized(arena, v.items[0], open), v, open, d, RealizedAll(arena, v.items[1..], open));
  }

  /** Values realized, one by one. */
  ghost predicate ShowsAll(arena: Arena, rs: seq<Value>, vs: seq<Value>, open: seq<nat>, ds: seq<Parsed>)
    requires StoresAll(arena, vs, open, ds)
  {
    |rs| == |ds| && forall k | 0 <= k < |ds| :: Shows(arena, rs[k], vs[k], open, ds[k])
  }

  lemma OperationShown(arena: Arena, v: Value, open: seq<nat>, d: Parsed, rs: seq<Value>)
    requires d.Operation? && Stores(arena, v, open, d) && ShowsAll(arena, rs, arena[v.id].terms, open + [v.id], d.terms)
    ensures Shows(arena, Array((if d.op.Some? then [d.op.value.Description()] else []) + rs), v, open, d)
  {
    if d.op.Some? {
      assert ([d.op.value.Description()] + rs)[1..] == rs;
    } else {
      assert [] + rs == rs;
    }
  }

  lemma DescribedShown(arena: Arena, r: Value, v: Value, open: seq<nat>, d: Parsed, rs: seq<Value>)
    requires d.Described? && Stores(arena, v, open, d) && Shows(arena, r, v.items[0], open, d.lead)
    requires StoresAll(arena, v.items[1..], open, d.terms) && ShowsAll(arena, rs, v.items[1..], open, d.terms)
    ensures Shows(arena, Array([r] + rs), v, open, d)
  {
    assert ([r] + rs)[1..] == rs;
  }

  lemma {:induction false} AllRealizeTo(arena: Arena, vs: seq<Value>, open: seq<nat>, ds: seq<Parsed>)
    requires Live(arena, HandlesIn(vs)) && StoresAll(arena, vs, open, ds)
    ensures ShowsAll(arena, RealizedAll(arena, vs, open), vs, open, ds)
    decreases ds, 0
  {
    if vs != [] {
      RealizesTo(arena, vs[0], open, ds[0]);
      AllRealizeTo(arena, vs[1..], open, ds[1..]);
      ShowsOneMore(arena, Realized(arena, vs[0], open), RealizedAll(arena, vs[1..], open), vs, open, ds);
    }
  }

  lemma ShowsOneMore(arena: Arena, r: Value, rs: seq<Value>, vs: seq<Value>, open: seq<nat>, ds: seq<Parsed>)
    requires vs != [] && StoresAll(arena, vs, open, ds) && StoresAll(arena, vs[1..], open, ds[1..])
    requires Shows(arena, r, vs[0], open, ds[0]) && ShowsAll(arena, rs, vs[1..], open, ds[1..])
    ensures ShowsAll(arena, [r] + rs, vs, open, ds)
  {
    forall k | 0 <= k < |ds|
      ensures Shows(arena, ([r] + rs)[k], vs[k], open, ds[k])
    {
      if k > 0 {
        assert Shows(arena, rs[k - 1], vs[1..][k - 1], open, ds[1..][k - 1]);
      }
    }
  }

  /** Members realized, one by one. */
  ghost predicate ShowsFields(arena: Arena, rs: seq<Field>, fields: seq<Field>, open: seq<nat>, values: seq<Parsed>)
    requires StoresFields(arena, fields, open, values)
  {
    |rs| == |values| && forall k | 0 <= k < |values| ::
      rs[k].key == fields[k].key && Shows(arena, rs[k].value, fields[k].value, open, values[k])
  }

  ghost predicate StoresFields(arena: Arena, fields: seq<Field>, open: seq<nat>, values: seq<Parsed>) {
    |fields| == |values| && forall k | 0 <= k < |values| :: Stores(arena, fields[k].value, open, values[k])
  }

  lemma ShowsOneMoreField(arena: Arena, r: Field, rs: seq<Field>, fields: seq<Field>, open: seq<nat>, values: seq<Parsed>)
    requires fields != [] && StoresFields(arena, fields, open, values) && StoresFields(arena, fields[1..], open, values[1..])
    requires r.key == fields[0].key && Shows(arena, r.value, fields[0].value, open, values[0])
    requires ShowsFields(arena, rs, fields[1..], open, values[1..])
    ensures ShowsFields(arena, [r] + rs, fields, open, values)
  {
    forall k | 0 <= k < |values|
      ensures ([r] + rs)[k].key == fields[k].key && Shows(arena, ([r] + rs)[k].value, fields[k].value, open, values[k])
    {
      if k > 0 {
        assert rs[k - 1].key == fields[1..][k - 1].key;
        assert Shows(arena, rs[k - 1].value, fields[1..][k - 1].value, open, values[1..][k - 1]);
      }
    }
  }

  lemma {:induction false} FieldsRealizeTo(arena: Arena, fields: seq<Field>, open: seq<nat>, values: seq<Parsed>)
    requires Live(arena, HandlesInFields(fields)) && StoresFields(arena, fields, open, values)
    ensures ShowsFields(arena, RealizedFields(arena, fields, open), fields, open, values)
    decreases values, 0
  {
    if fields != [] {
      RealizesTo(arena, fields[0].value, open, values[0]);
      FieldsRealizeTo(arena, fields[1..], open, values[1..]);
      ShowsOneMoreField(arena, Field(fields[0].key, Realized(arena, fields[0].value, open)),
                 RealizedFields(arena, fields[1..], open), fields, open, values);
    }
  }

  /** Every value stands for one document, and walking it gives that document's two forms, circles and all. */
  lemma EveryForm(arena: Arena, v: Value, d: Parsed)
    requires Live(arena, Handles(v))
    ensures Stores(arena, v, [], d) <==> d == DocumentOf(arena, v, [])
    ensures Stores(arena, v, [], d) ==> Simplified(arena, v, []) == SForm(d) && Shows(arena, Realized(arena, v, []), v, [], d)
  {
    if Stores(arena, v, [], d) {
      StoredOnce(arena, v, [], d, DocumentOf(arena, v, []));
      SimplifiesTo(arena, v, [], d);
      RealizesTo(arena, v, [], d);
    }
  }
}
