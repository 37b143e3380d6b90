/** The walk that finds why a value cannot be written as JSON, over a graph of containers that may hold themselves. */
module UnsafeWalk {

  datatype Why = Nothing | UnsafeText | UnsafeNumber | UnsafeCycle

  /** A value. A container is named by the key the walk knows it by; a nil one, or one of bytes, is plain. */
  datatype Item =
    | Plain
    | BadText
    | BigNumber
    | Interface(inner: Item)
    | Struct(fields: seq<Field>)
    | Fixed(elems: seq<Item>)
    | Ref(key: Key)

  /** A struct's field, and whether it is ever emitted. */
  datatype Field = Field(emitted: bool, item: Item)

  /** A member of a map or of an object node, and whether its key is valid text. */
  datatype Member = Member(validKey: bool, item: Item)

  datatype Container = Pointer(target: Item) | Slice(elems: seq<Item>) | Members(members: seq<Member>)

  type Key = nat

  type Graph = map<Key, Container>

  // ----- what is in a value, short of entering a container -----

  function Refs(item: Item): set<Key>
    decreases item
  {
    match item
    case Interface(inner) => Refs(inner)
    case Struct(fields) => RefsInFields(fields)
    case Fixed(elems) => RefsIn(elems)
    case Ref(key) => {key}
    case _ => {}
  }

  function RefsIn(items: seq<Item>): set<Key>
    decreases items
  {
    if items == [] then {} else Refs(items[0]) + RefsIn(items[1..])
  }

  function RefsInFields(fields: seq<Field>): set<Key>
    decreases fields
  {
    if fields == [] then {}
    else
      var Field(emitted, item) := fields[0];
      assert fields decreases to fields[0];
      (if emitted then Refs(item) else {}) + RefsInFields(fields[1..])
  }

  function RefsInMembers(members: seq<Member>): set<Key>
    decreases members
  {
    if members == [] then {} else Refs(members[0].item) + RefsInMembers(members[1..])
  }

  function RefsOf(c: Container): set<Key> {
    match c
    case Pointer(target) => Refs(target)
    case Slice(elems) => RefsIn(elems)
    case Members(members) => RefsInMembers(members)
  }

  /** Whether a value holds an unsafe leaf outside its containers. */
  predicate Bad(item: Item)
    decreases item
  {
    match item
    case Plain => false
    case BadText => true
    case BigNumber => true
    case Interface(inner) => Bad(inner)
    case Struct(fields) => exists k | 0 <= k < |fields| :: fields[k].emitted && Bad(fields[k].item)
    case Fixed(elems) => exists k | 0 <= k < |elems| :: Bad(elems[k])
    case Ref(_) => false
  }

  predicate BadContainer(c: Container) {
    match c
    case Pointer(target) => Bad(target)
    case Slice(elems) => exists k | 0 <= k < |elems| :: Bad(elems[k])
    case Members(members) => exists k | 0 <= k < |members| :: !members[k].validKey || Bad(members[k].item)
  }

  ghost predicate Closed(graph: Graph, refs: set<Key>) {
    refs <= graph.Keys && forall key | key in graph :: RefsOf(graph[key]) <= graph.Keys
  }

  // ----- the walk as a function -----

  function Unvisited(graph: Graph, path: set<Key>): set<Key> {
    graph.Keys - path
  }

  function Walked(graph: Graph, item: Item, path: set<Key>): Why
    requires Closed(graph, Refs(item))
    decreases Unvisited(graph, path), item, 1
  {
    match item
    case Plain => Nothing
    case BadText => UnsafeText
    case BigNumber => UnsafeNumber
    case Interface(inner) => Walked(graph, inner, path)
    case Struct(fields) => WalkedFields(graph, fields, path)
    case Fixed(elems) => WalkedAll(graph, elems, path)
    case Ref(key) =>
      if key in path then UnsafeCycle
      else
        assert key in Unvisited(graph, path) && key !in Unvisited(graph, path + {key});
        match graph[key]
        case Pointer(target) => Walked(graph, target, path + {key})
        case Slice(elems) => WalkedAll(graph, elems, path + {key})
        case Members(members) => WalkedMembers(graph, members, path + {key})
  }

  function WalkedAll(graph: Graph, items: seq<Item>, path: set<Key>): Why
    requires Closed(graph, RefsIn(items))
    decreases Unvisited(graph, path), items, 0
  {
    if items == [] then Nothing
    else
      var why := Walked(graph, items[0], path);
      if why.Nothing? then WalkedAll(graph, items[1..], path) else why
  }

  function WalkedFields(graph: Graph, fields: seq<Field>, path: set<Key>): Why
    requires Closed(graph, RefsInFields(fields))
    decreases Unvisited(graph, path), fields, 0
  {
    if fields == [] then Nothing
    else
      var Field(emitted, item) := fields[0];
      assert fields decreases to fields[0];
      var why := if emitted then Walked(graph, item, path) else Nothing;
      if why.Nothing? then WalkedFields(graph, fields[1..], path) else why
  }

  function WalkedMembers(graph: Graph, members: seq<Member>, path: set<Key>): Why
    requires Closed(graph, RefsInMembers(members))
    decreases Unvisited(graph, path), members, 0
  {
    if members == [] then Nothing
    else
      var Member(validKey, item) := members[0];
      assert members decreases to members[0];
      assert members[0] decreases to item;
      var why := if validKey then Walked(graph, item, path) else UnsafeText;
      if why.Nothing? then WalkedMembers(graph, members[1..], path) else why
  }

  // ----- what the walk decides -----

  /** A path of containers, each held by the one before it. */
  ghost predicate PathFrom(graph: Graph, refs: set<Key>, path: seq<Key>)
    requires Closed(graph, refs)
    decreases |path|
  {
    path != [] ==> path[0] in refs && PathFrom(graph, RefsOf(graph[path[0]]), path[1..])
  }

  /** Nothing unsafe is in a path's containers, and none of them repeats or is among those it starts inside. */
  ghost predicate SafePath(graph: Graph, path: seq<Key>, inside: set<Key>)
    requires forall k | 0 <= k < |path| :: path[k] in graph
  {
    path != [] ==>
      && path[0] !in inside && !BadContainer(graph[path[0]])
      && SafePath(graph, path[1..], inside + {path[0]})
  }

  lemma {:induction false} PathInGraph(graph: Graph, refs: set<Key>, path: seq<Key>)
    requires Closed(graph, refs) && PathFrom(graph, refs, path)
    ensures forall k | 0 <= k < |path| :: path[k] in graph
    decreases |path|
  {
    if path != [] {
      PathInGraph(graph, RefsOf(graph[path[0]]), path[1..]);
      assert forall k | 1 <= k < |path| :: path[k] == path[1..][k - 1];
    }
  }

  /** Every path from some containers is safe. */
  ghost predicate SafeFrom(graph: Graph, refs: set<Key>, inside: set<Key>)
    requires Closed(graph, refs)
  {
    forall path | PathFrom(graph, refs, path) :: PathInGraph(graph, refs, path); SafePath(graph, path, inside)
  }

  lemma SafeOnPath(graph: Graph, refs: set<Key>, inside: set<Key>, path: seq<Key>)
    requires Closed(graph, refs) && SafeFrom(graph, refs, inside) && PathFrom(graph, refs, path)
    ensures (forall k | 0 <= k < |path| :: path[k] in graph) && SafePath(graph, path, inside)
  {
    PathInGraph(graph, refs, path);
  }

  lemma SafeUnion(graph: Graph, a: set<Key>, b: set<Key>, inside: set<Key>)
    requires Closed(graph, a + b)
    ensures SafeFrom(graph, a + b, inside) <==> SafeFrom(graph, a, inside) && SafeFrom(graph, b, inside)
  {
    assert forall path :: PathFrom(graph, a + b, path) <==> PathFrom(graph, a, path) || PathFrom(graph, b, path);
  }

  lemma SafeNowhere(graph: Graph, inside: set<Key>)
    requires Closed(graph, {})
    ensures SafeFrom(graph, {}, inside)
  {
  }

  /** Every path from a container is safe: it is new, holds nothing unsafe, and so is every path on from it. */
  lemma SafeRef(graph: Graph, key: Key, inside: set<Key>)
    requires Closed(graph, {key})
    ensures SafeFrom(graph, {key}, inside) <==>
            key !in inside && !BadContainer(graph[key]) && SafeFrom(graph, RefsOf(graph[key]), inside + {key})
  {
    var next := RefsOf(graph[key]);
    if SafeFrom(graph, {key}, inside) {
      assert PathFrom(graph, {key}, [key]) && [key][1..] == [];
      SafeOnPath(graph, {key}, inside, [key]);
      forall path | PathFrom(graph, next, path)
        ensures (forall k | 0 <= k < |path| :: path[k] in graph) && SafePath(graph, path, inside + {key})
      {
        var longer := [key] + path;
        assert longer[1..] == path;
        assert PathFrom(graph, {key}, longer);
        SafeOnPath(graph, {key}, inside, longer);
      }
    } else {
      var path :| PathFrom(graph, {key}, path) && (PathInGraph(graph, {key}, path); !SafePath(graph, path, inside));
      assert path != [] && path[0] == key && PathFrom(graph, next, path[1..]);
      if key !in inside && !BadContainer(graph[key]) && SafeFrom(graph, next, inside + {key}) {
        SafeOnPath(graph, next, inside + {key}, path[1..]);
      }
    }
  }

  /** The walk finds nothing exactly where nothing unsafe is in the value and every path from it is safe. */
  lemma {:induction false} WalkDecides(graph: Graph, item: Item, path: set<Key>)
    requires Closed(graph, Refs(item))
    ensures Walked(graph, item, path).Nothing? <==> !Bad(item) && SafeFrom(graph, Refs(item), path)
    decreases Unvisited(graph, path), item, 1
  {
    match item
    case Interface(inner) => WalkDecides(graph, inner, path);
    case Struct(fields) => WalkDecidesFields(graph, fields, path);
    case Fixed(elems) => WalkDecidesAll(graph, elems, path);
    case Ref(key) =>
      SafeRef(graph, key, path);
      if key !in path {
        assert key in Unvisited(graph, path) && key !in Unvisited(graph, path + {key});
        match graph[key]
        case Pointer(target) => WalkDecides(graph, target, path + {key});
        case Slice(elems) => WalkDecidesAll(graph, elems, path + {key});
        case Members(members) => WalkDecidesMembers(graph, members, path + {key});
      }
    case _ => SafeNowhere(graph, path);
  }

  lemma {:induction false} WalkDecidesAll(graph: Graph, items: seq<Item>, path: set<Key>)
    requires Closed(graph, RefsIn(items))
    ensures WalkedAll(graph, items, path).Nothing? <==>
            !(exists k | 0 <= k < |items| :: Bad(items[k])) && SafeFrom(graph, RefsIn(items), path)
    decreases Unvisited(graph, path), items, 0
  {
    if items == [] {
      SafeNowhere(graph, path);
    } else {
      var rest := items[1..];
      WalkDecides(graph, items[0], path);
      WalkDecidesAll(graph, rest, path);
      SafeUnion(graph, Refs(items[0]), RefsIn(rest), path);
      assert forall k | 1 <= k < |items| :: items[k] == rest[k - 1];
      assert forall k | 0 <= k < |rest| :: rest[k] == items[k + 1];
    }
  }

  lemma {:induction false} WalkDecidesFields(graph: Graph, fields: seq<Field>, path: set<Key>)
    requires Closed(graph, RefsInFields(fields))
    ensures WalkedFields(graph, fields, path).Nothing? <==>
            !(exists k | 0 <= k < |fields| :: fields[k].emitted && Bad(fields[k].item))
            && SafeFrom(graph, RefsInFields(fields), path)
    decreases Unvisited(graph, path), fields, 0
  {
    if fields == [] {
      SafeNowhere(graph, path);
    } else {
      var rest, refs := fields[1..], if fields[0].emitted then Refs(fields[0].item) else {};
      assert fields decreases to fields[0];
      if fields[0].emitted {
        WalkDecides(graph, fields[0].item, path);
      } else {
        SafeNowhere(graph, path);
      }
      WalkDecidesFields(graph, rest, path);
      SafeUnion(graph, refs, RefsInFields(rest), path);
      assert forall k | 1 <= k < |fields| :: fields[k] == rest[k - 1];
      assert forall k | 0 <= k < |rest| :: rest[k] == fields[k + 1];
    }
  }

  lemma {:induction false} WalkDecidesMembers(graph: Graph, members: seq<Member>, path: set<Key>)
    requires Closed(graph, RefsInMembers(members))
    ensures WalkedMembers(graph, members, path).Nothing? <==>
            !(exists k | 0 <= k < |members| :: !members[k].validKey || Bad(members[k].item))
            && SafeFrom(graph, RefsInMembers(members), path)
    decreases Unvisited(graph, path), members, 0
  {
    if members == [] {
      SafeNowhere(graph, path);
    } else {
      var rest := members[1..];
      assert members decreases to members[0];
      assert members[0] decreases to members[0].item;
      WalkDecides(graph, members[0].item, path);
      WalkDecidesMembers(graph, rest, path);
      SafeUnion(graph, Refs(members[0].item), RefsInMembers(rest), path);
      assert forall k | 1 <= k < |members| :: members[k] == rest[k - 1];
      assert forall k | 0 <= k < |rest| :: rest[k] == members[k + 1];
    }
  }

  /** A safe path holds nothing unsafe and no container twice. */
  lemma {:induction false} SafePathMeans(graph: Graph, path: seq<Key>, inside: set<Key>)
    requires forall k | 0 <= k < |path| :: path[k] in graph
    ensures SafePath(graph, path, inside) <==>
            && (forall k | 0 <= k < |path| :: path[k] !in inside && !BadContainer(graph[path[k]]))
            && (forall i, j | 0 <= i < j < |path| :: path[i] != path[j])
    decreases |path|
  {
    if path != [] {
      var rest := path[1..];
      SafePathMeans(graph, rest, inside + {path[0]});
      assert forall k | 1 <= k < |path| :: path[k] == rest[k - 1];
      assert forall k | 0 <= k < |rest| :: rest[k] == path[k + 1];
    }
  }

  /**
   The walk from the root reports nothing exactly when the value holds no
   unsafe leaf, no path reaches a container with one, and none repeats a
   container: a part that is shared but never inside itself is not reported.
   */
  lemma NothingFound(graph: Graph, root: Item)
    requires Closed(graph, Refs(root))
    ensures Walked(graph, root, {}).Nothing? <==>
            && !Bad(root)
            && (forall path, k | PathFrom(graph, Refs(root), path) && 0 <= k < |path| ::
                  path[k] in graph && !BadContainer(graph[path[k]]))
            && (forall path, i, j | PathFrom(graph, Refs(root), path) && 0 <= i < j < |path| :: path[i] != path[j])
  {
    WalkDecides(graph, root, {});
    forall path | PathFrom(graph, Refs(root), path)
      ensures (forall k | 0 <= k < |path| :: path[k] in graph)
      ensures SafePath(graph, path, {}) <==> (forall k | 0 <= k < |path| :: !BadContainer(graph[path[k]]))
                                             && forall i, j | 0 <= i < j < |path| :: path[i] != path[j]
    {
      PathInGraph(graph, Refs(root), path);
      SafePathMeans(graph, path, {});
    }
  }

  // ----- which reason it gives -----

  /** What lies directly inside a value or the container it names, in the order it is written; a key is text of its own. */
  function Children(graph: Graph, item: Item): seq<Item> {
    match item
    case Interface(inner) => [inner]
    case Struct(fields) => Emitted(fields)
    case Fixed(elems) => elems
    case Ref(key) => if key in graph then Contents(graph[key]) else []
    case _ => []
  }

  function Contents(c: Container): seq<Item> {
    match c
    case Pointer(target) => [target]
    case Slice(elems) => elems
    case Members(members) => Entries(members)
  }

  function Emitted(fields: seq<Field>): seq<Item> {
    if fields == [] then [] else (if fields[0].emitted then [fields[0].item] else []) + Emitted(fields[1..])
  }

  function Entries(members: seq<Member>): seq<Item> {
    if members == [] then []
    else [KeyItem(members[0]), members[0].item] + Entries(members[1..])
  }

  function KeyItem(member: Member): Item {
    if member.validKey then Plain else BadText
  }

  /** The way down to a place in a value: which child to go to at each step. */
  type Route = seq<nat>

  /** A value, and the containers it lies inside. */
  datatype Place = Nowhere | At(item: Item, inside: set<Key>)

  /** Where a route leads; none leads on from a container inside itself. */
  function Follow(graph: Graph, item: Item, route: Route, inside: set<Key>): Place
    decreases |route|
  {
    if route == [] then At(item, inside)
    else
      var children := Children(graph, item);
      if (item.Ref? && item.key in inside) || route[0] >= |children| then Nowhere
      else Follow(graph, children[route[0]], route[1..], Within(item, inside))
  }

  /** What makes the place a route leads to unsafe. */
  function Sight(graph: Graph, item: Item, route: Route, inside: set<Key>): Why {
    match Follow(graph, item, route, inside)
    case At(BadText, _) => UnsafeText
    case At(BigNumber, _) => UnsafeNumber
    case At(Ref(key), within) => if key in within then UnsafeCycle else Nothing
    case _ => Nothing
  }

  function Within(item: Item, inside: set<Key>): set<Key> {
    if item.Ref? then inside + {item.key} else inside
  }

  /** The order of the places as they are written. */
  predicate Before(a: Route, b: Route)
    decreases |b|
  {
    b != [] && (a == [] || a[0] < b[0] || (a[0] == b[0] && Before(a[1..], b[1..])))
  }

  /** A place that is unsafe for this reason, every place before it being safe. */
  ghost predicate FirstAt(graph: Graph, item: Item, inside: set<Key>, route: Route, why: Why) {
    && Sight(graph, item, route, inside) == why
    && forall other | Before(other, route) :: Sight(graph, item, other, inside).Nothing?
  }

  /** The reason is that of the first unsafe place, and there is none where there is no such place. */
  ghost predicate First(graph: Graph, item: Item, inside: set<Key>, why: Why) {
    if why.Nothing? then forall route :: Sight(graph, item, route, inside).Nothing?
    else exists route :: FirstAt(graph, item, inside, route, why)
  }

  ghost predicate Silent(graph: Graph, items: seq<Item>, inside: set<Key>) {
    forall k | 0 <= k < |items| :: First(graph, items[k], inside, Nothing)
  }

  ghost predicate FirstIn(graph: Graph, items: seq<Item>, inside: set<Key>, why: Why) {
    if why.Nothing? then Silent(graph, items, inside)
    else exists k :: 0 <= k < |items| && Silent(graph, items[..k], inside) && First(graph, items[k], inside, why)
  }

  lemma FirstCons(graph: Graph, item: Item, rest: seq<Item>, inside: set<Key>, first: Why, others: Why)
    requires First(graph, item, inside, first) && FirstIn(graph, rest, inside, others)
    ensures FirstIn(graph, [item] + rest, inside, if first.Nothing? then others else first)
  {
    var items := [item] + rest;
    if !first.Nothing? {
      assert items[..0] == [] && items[0] == item;
    } else if !others.Nothing? {
      var k :| 0 <= k < |rest| && Silent(graph, rest[..k], inside) && First(graph, rest[k], inside, others);
      assert items[..k + 1] == [item] + rest[..k] && items[k + 1] == rest[k];
    }
  }

  /** What a route sees, it sees from the child it goes to. */
  lemma SightBelow(graph: Graph, item: Item, inside: set<Key>, route: Route)
    requires !item.BadText? && !item.BigNumber? && (item.Ref? ==> item.key !in inside)
    ensures Sight(graph, item, route, inside) ==
              if route == [] || route[0] >= |Children(graph, item)| then Nothing
              else Sight(graph, Children(graph, item)[route[0]], route[1..], Within(item, inside))
  {
  }

  /** What is first inside a value is first in the value, which says nothing by itself. */
  lemma FirstUp(graph: Graph, item: Item, inside: set<Key>, why: Why)
    requires FirstIn(graph, Children(graph, item), Within(item, inside), why)
    requires !item.BadText? && !item.BigNumber? && (item.Ref? ==> item.key !in inside)
    ensures First(graph, item, inside, why)
  {
    var children, within := Children(graph, item), Within(item, inside);
    if why.Nothing? {
      forall route
        ensures Sight(graph, item, route, inside).Nothing?
      {
        SightBelow(graph, item, inside, route);
        if route != [] && route[0] < |children| {
          assert First(graph, children[route[0]], within, Nothing);
        }
      }
    } else {
      var k :| 0 <= k < |children| && Silent(graph, children[..k], within) && First(graph, children[k], within, why);
      var below :| FirstAt(graph, children[k], within, below, why);
      var route := [k] + below;
      assert route[0] == k && route[1..] == below;
      SightBelow(graph, item, inside, route);
      forall other | Before(other, route)
        ensures Sight(graph, item, other, inside).Nothing?
      {
        SightBelow(graph, item, inside, other);
        if other != [] && other[0] < k {
          assert children[..k][other[0]] == children[other[0]];
          assert First(graph, children[other[0]], within, Nothing);
        }
      }
      assert FirstAt(graph, item, inside, route, why);
    }
  }

  lemma FirstHere(graph: Graph, item: Item, inside: set<Key>)
    requires Children(graph, item) == [] || (item.Ref? && item.key in inside)
    ensures First(graph, item, inside, Sight(graph, item, [], inside))
  {
    forall other: Route | other != []
      ensures Sight(graph, item, other, inside).Nothing?
    {
    }
    assert FirstAt(graph, item, inside, [], Sight(graph, item, [], inside));
  }

  /**
   The walk gives the reason of the first unsafe place, in the order the
   value is written: text that is not valid, a number that is too big, or a
   container inside itself.
   */
  lemma {:induction false} WalkGivesFirst(graph: Graph, item: Item, inside: set<Key>)
    requires Closed(graph, Refs(item))
    ensures First(graph, item, inside, Walked(graph, item, inside))
    decreases Unvisited(graph, inside), item, 1
  {
    match item
    case Interface(inner) =>
      WalkGivesFirst(graph, inner, inside);
      FirstCons(graph, inner, [], inside, Walked(graph, inner, inside), Nothing);
      FirstUp(graph, item, inside, Walked(graph, item, inside));
    case Struct(fields) =>
      FieldsGiveFirst(graph, fields, inside);
      FirstUp(graph, item, inside, Walked(graph, item, inside));
    case Fixed(elems) =>
      ElemsGiveFirst(graph, elems, inside);
      FirstUp(graph, item, inside, Walked(graph, item, inside));
    case Ref(key) =>
      if key in inside {
        FirstHere(graph, item, inside);
      } else {
        var within := inside + {key};
        assert key in Unvisited(graph, inside) && key !in Unvisited(graph, within);
        match graph[key] {
          case Pointer(target) =>
            WalkGivesFirst(graph, target, within);
            FirstCons(graph, target, [], within, Walked(graph, target, within), Nothing);
          case Slice(elems) => ElemsGiveFirst(graph, elems, within);
          case Members(members) => EntriesGiveFirst(graph, members, within);
        }
        FirstUp(graph, item, inside, Walked(graph, item, inside));
      }
    case _ => FirstHere(graph, item, inside);
  }

  lemma {:induction false} ElemsGiveFirst(graph: Graph, items: seq<Item>, inside: set<Key>)
    requires Closed(graph, RefsIn(items))
    ensures FirstIn(graph, items, inside, WalkedAll(graph, items, inside))
    decreases Unvisited(graph, inside), items, 0
  {
    if items != [] {
      WalkGivesFirst(graph, items[0], inside);
      ElemsGiveFirst(graph, items[1..], inside);
      FirstCons(graph, items[0], items[1..], inside, Walked(graph, items[0], inside), WalkedAll(graph, items[1..], inside));
      assert items == [items[0]] + items[1..];
    }
  }

  lemma {:induction false} FieldsGiveFirst(graph: Graph, fields: seq<Field>, inside: set<Key>)
    requires Closed(graph, RefsInFields(fields))
    ensures FirstIn(graph, Emitted(fields), inside, WalkedFields(graph, fields, inside))
    decreases Unvisited(graph, inside), fields, 0
  {
    if fields != [] {
      var item, rest := fields[0].item, fields[1..];
      assert fields decreases to fields[0];
      FieldsGiveFirst(graph, rest, inside);
      if fields[0].emitted {
        WalkGivesFirst(graph, item, inside);
        FirstCons(graph, item, Emitted(rest), inside, Walked(graph, item, inside), WalkedFields(graph, rest, inside));
      } else {
        assert Emitted(fields) == Emitted(rest);
      }
    }
  }

  lemma {:induction false} EntriesGiveFirst(graph: Graph, members: seq<Member>, inside: set<Key>)
    requires Closed(graph, RefsInMembers(members))
    ensures FirstIn(graph, Entries(members), inside, WalkedMembers(graph, members, inside))
    decreases Unvisited(graph, inside), members, 0
  {
    if members != [] {
      var item, rest := members[0].item, members[1..];
      assert members decreases to members[0];
      assert members[0] decreases to item;
      WalkGivesFirst(graph, item, inside);
      EntriesGiveFirst(graph, rest, inside);
      EntryGivesFirst(graph, members[0], Entries(rest), inside, Walked(graph, item, inside), WalkedMembers(graph, rest, inside));
      EntriesRest(graph, members, inside);
    }
  }

  lemma EntriesRest(graph: Graph, members: seq<Member>, inside: set<Key>)
    requires members != [] && Closed(graph, RefsInMembers(members))
    ensures Closed(graph, Refs(members[0].item)) && Closed(graph, RefsInMembers(members[1..]))
    ensures var why, others := Walked(graph, members[0].item, inside), WalkedMembers(graph, members[1..], inside);
            WalkedMembers(graph, members, inside)
            == (if !members[0].validKey then UnsafeText else if why.Nothing? then others else why)
    ensures Entries(members) == [KeyItem(members[0])] + ([members[0].item] + Entries(members[1..]))
  {
  }

  lemma EntryGivesFirst(graph: Graph, member: Member, rest: seq<Item>, inside: set<Key>, why: Why, others: Why)
    requires First(graph, member.item, inside, why) && FirstIn(graph, rest, inside, others)
    ensures FirstIn(graph, [KeyItem(member)] + ([member.item] + rest), inside,
                    if !member.validKey then UnsafeText else if why.Nothing? then others else why)
  {
    FirstCons(graph, member.item, rest, inside, why, others);
    FirstHere(graph, KeyItem(member), inside);
    FirstCons(graph, KeyItem(member), [member.item] + rest, inside, if member.validKey then Nothing else UnsafeText,
              if why.Nothing? then others else why);
  }

  /** From the root: a reason is only given for what is there, and where all that is unsafe is so for one reason, for that one. */
  lemma ReasonIsThere(graph: Graph, root: Item)
    requires Closed(graph, Refs(root))
    ensures Walked(graph, root, {}) == UnsafeText ==> exists route, inside :: Follow(graph, root, route, {}) == At(BadText, inside)
    ensures Walked(graph, root, {}) == UnsafeNumber ==> exists route, inside :: Follow(graph, root, route, {}) == At(BigNumber, inside)
    ensures Walked(graph, root, {}) == UnsafeCycle ==>
              exists route, key, inside :: key in inside && Follow(graph, root, route, {}) == At(Ref(key), inside)
    ensures forall why: Why | !why.Nothing? ::
              (exists route :: Sight(graph, root, route, {}) == why)
              && (forall route :: Sight(graph, root, route, {}) == why || Sight(graph, root, route, {}).Nothing?)
              ==> Walked(graph, root, {}) == why
  {
    var given := Walked(graph, root, {});
    WalkGivesFirst(graph, root, {});
    if !given.Nothing? {
      var route :| FirstAt(graph, root, {}, route, given);
      assert Sight(graph, root, route, {}) == given;
      var place := Follow(graph, root, route, {});
      assert place.At?;
      match place.item
      case BadText => assert Follow(graph, root, route, {}) == At(BadText, place.inside);
      case BigNumber => assert Follow(graph, root, route, {}) == At(BigNumber, place.inside);
      case Ref(key) => assert key in place.inside && Follow(graph, root, route, {}) == At(Ref(key), place.inside);
      case _ =>
    }
  }

  // ----- the walk as it runs -----

  class Walk {
    const graph: Graph
    var onPath: set<Key>

    constructor (graph: Graph)
      ensures this.graph == graph && onPath == {}
    {
      this.graph := graph;
      onPath := {};
    }

    method Value(item: Item) returns (why: Why)
      requires Closed(graph, Refs(item))
      modifies this`onPath
      ensures why == Walked(graph, item, old(onPath)) && onPath == old(onPath)
      decreases Unvisited(graph, onPath), item, 2
    {
      match item
      case Plain => why := Nothing;
      case BadText => why := UnsafeText;
      case BigNumber => why := UnsafeNumber;
      case Interface(inner) => why := Value(inner);
      case Struct(fields) => why := Fields(fields);
      case Fixed(elems) => why := Elems(elems);
      case Ref(key) => why := EnterContainer(key);
    }

    /** Enter a container, unless it is already on the path, and leave it again however the walk of it ends. */
    method EnterContainer(key: Key) returns (why: Why)
      requires Closed(graph, {key})
      modifies this`onPath
      ensures why == Walked(graph, Ref(key), old(onPath)) && onPath == old(onPath)
      decreases Unvisited(graph, onPath), Ref(key), 1
    {
      if key in onPath {
        return UnsafeCycle;
      }
      assert key in Unvisited(graph, onPath) && key !in Unvisited(graph, onPath + {key});
      onPath := onPath + {key};
      match graph[key] {
        case Members(members) => why := Entries(members);
        case Slice(elems) => why := Elems(elems);
        case Pointer(target) => why := Value(target);
      }
      onPath := onPath - {key};
    }

    method Elems(items: seq<Item>) returns (why: Why)
      requires Closed(graph, RefsIn(items))
      modifies this`onPath
      ensures why == WalkedAll(graph, items, old(onPath)) && onPath == old(onPath)
      decreases Unvisited(graph, onPath), items, 0
    {
      assert items[0..] == items;
      for k := 0 to |items|
        invariant onPath == old(onPath) && RefsIn(items[k..]) <= RefsIn(items)
        invariant WalkedAll(graph, items, onPath) == WalkedAll(graph, items[k..], onPath)
      {
        assert items[k..][1..] == items[k + 1..];
        why := Value(items[k]);
        if !why.Nothing? {
          return;
        }
      }
      why := Nothing;
    }

    method Fields(fields: seq<Field>) returns (why: Why)
      requires Closed(graph, RefsInFields(fields))
      modifies this`onPath
      ensures why == WalkedFields(graph, fields, old(onPath)) && onPath == old(onPath)
      decreases Unvisited(graph, onPath), fields, 0
    {
      assert fields[0..] == fields;
      for k := 0 to |fields|
        invariant onPath == old(onPath) && RefsInFields(fields[k..]) <= RefsInFields(fields)
        invariant WalkedFields(graph, fields, onPath) == WalkedFields(graph, fields[k..], onPath)
      {
        assert fields[k..][1..] == fields[k + 1..];
        if !fields[k].emitted {
          continue;
        }
        assert fields decreases to fields[k];
        why := Value(fields[k].item);
        if !why.Nothing? {
          return;
        }
      }
      why := Nothing;
    }

    method Entries(members: seq<Member>) returns (why: Why)
      requires Closed(graph, RefsInMembers(members))
      modifies this`onPath
      ensures why == WalkedMembers(graph, members, old(onPath)) && onPath == old(onPath)
      decreases Unvisited(graph, onPath), members, 0
    {
      assert members[0..] == members;
      for k := 0 to |members|
        invariant onPath == old(onPath) && RefsInMembers(members[k..]) <= RefsInMembers(members)
        invariant WalkedMembers(graph, members, onPath) == WalkedMembers(graph, members[k..], onPath)
      {
        assert members[k..][1..] == members[k + 1..];
        if !members[k].validKey {
          return UnsafeText;
        }
        assert members decreases to members[k];
        assert members[k] decreases to members[k].item;
        why := Value(members[k].item);
        if !why.Nothing? {
          return;
        }
      }
      why := Nothing;
    }
  }
}
