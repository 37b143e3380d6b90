/** The Go core on boxes shared by pointer, their slices re-pointed and their slots assigned in place. */
module GoBoxes {
  import opened Operators
  import opened Located
  import opened SharedArrays
  import opened GoValues

  /** A `*ListRef` box: the operator at the head of its slice, and a value or a sentinel in every slot. */
  type ListRef<A> = ExprNode<Slot<A>>

  type BoxShape<A> = Shape<Slot<A>>

  function Empty<A>(n: nat): seq<Term<ListRef<A>, Slot<A>>> {
    seq(n, _ => Atom(Unfilled))
  }

  /** Replace one term's layout once the box holds its new top. */
  lemma HoldsWithKid<A>(l: Shape<A>, k: nat, kid: Shape<A>) returns (l': Shape<A>)
    requires l.Cell? && k < |l.kids| && l.Apart() && InPlace(kid)
    requires l.kids[k].Ids() <= kid.Ids() && (kid.Ids() - l.kids[k].Ids()) !! l.Ids()
    requires l.id.op == l.op && l.id.terms == l.Tops()[k := kid.Top()]
    requires forall j | 0 <= j < |l.kids| && j != k :: Holds(l.kids[j])
    ensures l' == Cell(l.id, l.op, l.kids[k := kid]) && InPlace(l') && l'.Ids() == l.Ids() + kid.Ids()
    ensures |l.Erase().terms| == |l.kids| && l'.Erase() == Node(l.op, l.Erase().terms[k := kid.Erase()])
  {
    WithKidIds(l, k, kid);
    WithKidErase(l, k, kid);
    l' := Cell(l.id, l.op, l.kids[k := kid]);
    HoldsKids(l');
    assert forall j | 0 <= j < |l'.kids| :: l'.kids[j] == if j == k then kid else l.kids[j];
  }

  /** The identities left when one term gives way to another that shares none of them. */
  lemma DroppedKidIds<A>(l: Shape<A>, k: nat, kid: Shape<A>)
    requires l.Cell? && k < |l.kids| && l.Apart() && kid.Apart() && kid.Ids() !! l.Ids()
    ensures Cell(l.id, l.op, l.kids[k := kid]).Apart() && Cell(l.id, l.op, l.kids[k := kid]).Ids() <= l.Ids() + kid.Ids()
  {
    var l' := Cell(l.id, l.op, l.kids[k := kid]);
    KidsInside(l);
    assert forall j | 0 <= j < |l'.kids| :: l'.kids[j] == if j == k then kid else l.kids[j];
    assert forall j | 0 <= j < |l'.kids| :: l'.kids[j].Ids() <= l.KidIds() + kid.Ids();
    assert l'.KidIds() <= l.KidIds() + kid.Ids();
  }

  /** Replace one term by a tree of its own, dropping what it held. */
  lemma HoldsInstead<A>(l: Shape<A>, k: nat, kid: Shape<A>) returns (l': Shape<A>)
    requires l.Cell? && k < |l.kids| && l.Apart() && InPlace(kid) && kid.Ids() !! l.Ids()
    requires l.id.op == l.op && l.id.terms == l.Tops()[k := kid.Top()]
    requires forall j | 0 <= j < |l.kids| && j != k :: Holds(l.kids[j])
    ensures l'.Top() == l.Top() && InPlace(l') && l'.Ids() <= l.Ids() + kid.Ids()
    ensures |l.Erase().terms| == |l.kids| && l'.Erase() == Node(l.op, l.Erase().terms[k := kid.Erase()])
  {
    DroppedKidIds(l, k, kid);
    WithKidErase(l, k, kid);
    l' := Cell(l.id, l.op, l.kids[k := kid]);
    HoldsKids(l');
    assert forall j | 0 <= j < |l'.kids| :: l'.kids[j] == if j == k then kid else l.kids[j];
  }

  /** Two terms share nothing, and neither holds the box itself. */
  lemma KidsApart<A>(l: Shape<A>, k: nat)
    requires l.Cell? && k < |l.kids| && l.Apart()
    ensures l.id !in l.kids[k].Ids() && l.kids[k].Apart() && l.kids[k].Ids() <= l.KidIds()
    ensures forall j | 0 <= j < |l.kids| && j != k :: l.kids[j].Ids() !! l.kids[k].Ids()
  {
    KidsInside(l);
  }

  /** A part that grows by what the whole lacks. */
  lemma OnlyMore<T>(whole: set<T>, part: set<T>, more: set<T>)
    requires part <= whole && more !! whole
    ensures ((part + more) - part) !! whole && whole + (part + more) == whole + more
  {
  }

  /** The boxes of the first terms. */
  ghost function IdsBefore<A>(l: Shape<A>, k: nat): set<ExprNode<A>>
    requires l.Cell? && k <= |l.kids|
  {
    if k == 0 then {} else IdsBefore(l, k - 1) + l.kids[k - 1].Ids()
  }

  lemma {:induction false} IdsBeforeApart<A>(l: Shape<A>, k: nat, next: nat)
    requires l.Cell? && k <= next <= |l.kids| && l.Apart()
    ensures IdsBefore(l, k) <= l.KidIds()
    ensures next < |l.kids| ==> IdsBefore(l, k) !! l.kids[next].Ids()
    decreases k
  {
    if k > 0 {
      IdsBeforeApart(l, k - 1, next);
      KidsApart(l, k - 1);
    }
  }

  /** What was seen so far leaves the next term's boxes to be seen. */
  lemma SeenNext<A>(l: Shape<A>, k: nat, seen: set<ExprNode<A>>, now: set<ExprNode<A>>)
    requires l.Cell? && k < |l.kids| && l.Apart() && seen !! l.KidIds() && now <= seen + IdsBefore(l, k)
    ensures l.kids[k].Ids() <= l.KidIds() && now !! l.kids[k].Ids() && now + l.kids[k].Ids() <= seen + IdsBefore(l, k + 1)
    ensures now <= seen + IdsBefore(l, k + 1) <= seen + l.KidIds()
  {
    IdsBeforeApart(l, k, k);
    IdsBeforeApart(l, k + 1, k + 1);
    KidsInside(l);
  }

  /** Fill the first sentinel, children before the box's own slots; `seen` guards against boxes reachable from themselves. */
  method FillNextSlotSeen<A>(box: ListRef<A>, val: Term<ListRef<A>, Slot<A>>, seen: set<ListRef<A>>,
                             ghost l: BoxShape<A>, ghost v: BoxShape<A>)
    returns (filled: bool, seen': set<ListRef<A>>, ghost l': BoxShape<A>)
    requires l.Cell? && l.id == box && InPlace(l) && seen !! l.Ids()
    requires InPlace(v) && v.Top() == val && v.Ids() !! l.Ids()
    modifies l.Ids()
    ensures filled == Fill(l.Erase(), v.Erase()).Found?
    ensures filled ==> l'.Erase() == Fill(l.Erase(), v.Erase()).value && l'.Ids() == l.Ids() + v.Ids()
    ensures !filled ==> l' == l
    ensures InPlace(l') && l'.Top() == l.Top() && InPlace(v)
    ensures seen <= seen' <= seen + l.Ids()
    decreases l, 1
  {
    if box in seen {
      return false, seen, l;
    }
    filled, seen', l' := FillChildren(box, val, seen + {box}, l, v);
    if !filled {
      filled, l' := FillOwnSlot(box, val, l, v);
    }
  }

  /** Filling goes into a term that is a box, and passes one that is not. */
  lemma FillNextKid<A>(l: BoxShape<A>, v: BoxShape<A>, k: nat)
    requires l.Cell? && k < |l.kids| && k < l.op.Terms()
    ensures |l.Erase().terms| == |l.kids|
    ensures var filled := Fill(l.kids[k].Erase(), v.Erase());
            FillBelow(l.Erase(), v.Erase(), k) ==
              if filled.Found? then Found(Node(l.op, l.Erase().terms[k := filled.value])) else FillBelow(l.Erase(), v.Erase(), k + 1)
    ensures l.kids[k].Spot? ==> Fill(l.kids[k].Erase(), v.Erase()).Missing?
  {
    EraseShape(l);
    assert l.Erase().terms[k] == l.kids[k].Erase();
  }

  method FillChildren<A>(box: ListRef<A>, val: Term<ListRef<A>, Slot<A>>, seen: set<ListRef<A>>,
                         ghost l: BoxShape<A>, ghost v: BoxShape<A>)
    returns (filled: bool, seen': set<ListRef<A>>, ghost l': BoxShape<A>)
    requires l.Cell? && l.id == box && InPlace(l) && seen !! l.KidIds()
    requires InPlace(v) && v.Top() == val && v.Ids() !! l.Ids()
    modifies l.KidIds()
    ensures filled == FillBelow(l.Erase(), v.Erase(), 0).Found?
    ensures filled ==> l'.Erase() == FillBelow(l.Erase(), v.Erase(), 0).value && l'.Ids() == l.Ids() + v.Ids()
    ensures !filled ==> l' == l
    ensures InPlace(l') && l'.Top() == l.Top() && InPlace(v)
    ensures seen <= seen' <= seen + l.KidIds()
    decreases l, 0, 1
  {
    HoldsKids(l);
    EraseShape(l);
    seen' := seen;
    var i := 0;
    while i < box.op.Terms() && i < |box.terms|
      invariant 0 <= i <= |l.kids| && InPlace(l) && InPlace(v)
      invariant seen <= seen' <= seen + IdsBefore(l, i) && seen' <= seen + l.KidIds() && box.op == l.op && |box.terms| == |l.kids|
      invariant FillBelow(l.Erase(), v.Erase(), 0) == FillBelow(l.Erase(), v.Erase(), i)
    {
      SeenNext(l, i, seen, seen');
      var done;
      done, seen', l' := FillTerm(box, i, val, seen', l, v);
      if done {
        return true, seen', l';
      }
      i := i + 1;
    }
    return false, seen', l;
  }

  /** Fill inside one term, if it is a box. */
  method FillTerm<A>(box: ListRef<A>, i: nat, val: Term<ListRef<A>, Slot<A>>, seen: set<ListRef<A>>,
                     ghost l: BoxShape<A>, ghost v: BoxShape<A>)
    returns (filled: bool, seen': set<ListRef<A>>, ghost l': BoxShape<A>)
    requires l.Cell? && l.id == box && InPlace(l) && i < |l.kids| && i < l.op.Terms() && seen !! l.kids[i].Ids()
    requires InPlace(v) && v.Top() == val && v.Ids() !! l.Ids()
    modifies l.kids[i].Ids()
    ensures filled ==> FillBelow(l.Erase(), v.Erase(), i) == Found(l'.Erase()) && l'.Ids() == l.Ids() + v.Ids()
    ensures !filled ==> FillBelow(l.Erase(), v.Erase(), i) == FillBelow(l.Erase(), v.Erase(), i + 1) && l' == l
    ensures InPlace(l') && l'.Top() == l.Top() && InPlace(v) && box.op == l.op && |box.terms| == |l.kids|
    ensures seen <= seen' <= seen + l.kids[i].Ids()
    decreases l, 0, 0, 1
  {
    HoldsKids(l);
    FillNextKid(l, v, i);
    KidsApart(l, i);
    if box.terms[i].Ref? {
      filled, seen', l' := FillChild(box, i, val, seen, l, v);
    } else {
      return false, seen, l;
    }
  }

  method FillChild<A>(box: ListRef<A>, i: nat, val: Term<ListRef<A>, Slot<A>>, seen: set<ListRef<A>>,
                      ghost l: BoxShape<A>, ghost v: BoxShape<A>)
    returns (filled: bool, seen': set<ListRef<A>>, ghost l': BoxShape<A>)
    requires l.Cell? && l.id == box && InPlace(l) && i < |l.kids| && l.kids[i].Cell? && seen !! l.kids[i].Ids()
    requires InPlace(v) && v.Top() == val && v.Ids() !! l.Ids()
    modifies l.kids[i].Ids()
    ensures filled == Fill(l.kids[i].Erase(), v.Erase()).Found?
    ensures |l.Erase().terms| == |l.kids|
    ensures filled ==> l'.Erase() == Node(l.op, l.Erase().terms[i := Fill(l.kids[i].Erase(), v.Erase()).value])
    ensures filled ==> l'.Ids() == l.Ids() + v.Ids()
    ensures !filled ==> l' == l
    ensures InPlace(l') && l'.Top() == l.Top() && InPlace(v)
    ensures seen <= seen' <= seen + l.kids[i].Ids()
    decreases l, 0, 0, 0
  {
    KidsApart(l, i);
    KidsInside(l);
    HoldsKids(l);
    EraseShape(l);
    Exist(l);
    assert forall j | 0 <= j < |l.kids| :: Holds(l.kids[j]) && l.kids[j].Ids() <= l.Ids();
    ghost var kid;
    filled, seen', kid := FillNextSlotSeen(box.terms[i].id, val, seen, l.kids[i], v);
    assert forall j | 0 <= j < |l.kids| && j != i :: Holds(l.kids[j]);
    if filled {
      OnlyMore(l.Ids(), l.kids[i].Ids(), v.Ids());
      assert kid.Ids() == l.kids[i].Ids() + v.Ids();
      l' := HoldsWithKid(l, i, kid);
    } else {
      l' := l;
      HoldsKids(l);
    }
  }

  method FillOwnSlot<A>(box: ListRef<A>, val: Term<ListRef<A>, Slot<A>>, ghost l: BoxShape<A>, ghost v: BoxShape<A>)
    returns (filled: bool, ghost l': BoxShape<A>)
    requires l.Cell? && l.id == box && InPlace(l)
    requires InPlace(v) && v.Top() == val && v.Ids() !! l.Ids()
    modifies box`terms
    ensures filled == FillHere(l.Erase(), v.Erase(), 0).Found?
    ensures filled ==> l'.Erase() == FillHere(l.Erase(), v.Erase(), 0).value && l'.Ids() == l.Ids() + v.Ids()
    ensures !filled ==> l' == l
    ensures InPlace(l') && l'.Top() == l.Top() && InPlace(v)
  {
    HoldsKids(l);
    EraseShape(l);
    var i := 0;
    while i < box.op.Terms() && i < |box.terms|
      invariant 0 <= i <= |l.kids| && InPlace(l) && InPlace(v) && box.op == l.op && box.terms == l.Tops()
      invariant FillHere(l.Erase(), v.Erase(), 0) == FillHere(l.Erase(), v.Erase(), i)
    {
      KidsApart(l, i);
      assert l.Erase().terms[i] == l.kids[i].Erase();
      if box.terms[i] == Atom(Unfilled) {
        box.terms := box.terms[i := val];
        KidsInside(l);
        l' := HoldsWithKid(l, i, v);
        return true, l';
      }
      i := i + 1;
    }
    return false, l;
  }

  // ----- making and wrapping boxes -----

  function Missing(op: Op, n: nat): nat {
    if n < op.Terms() then op.Terms() - n else 0
  }

  /** A box over at most one term, a sentinel in each other slot. */
  ghost function Box<A>(id: ListRef<A>, op: Op, kids: seq<BoxShape<A>>): BoxShape<A> {
    Cell(id, op, kids + seq(Missing(op, |kids|), _ => Spot(Unfilled)))
  }

  ghost function KidOf<A>(kids: seq<BoxShape<A>>): set<ListRef<A>>
    requires |kids| <= 1
  {
    if kids == [] then {} else kids[0].Ids()
  }

  lemma BoxLayout<A>(id: ListRef<A>, op: Op, kids: seq<BoxShape<A>>)
    requires |kids| <= 1 && id !in KidOf(kids) && forall k | 0 <= k < |kids| :: kids[k].Apart()
    ensures Box(id, op, kids).Apart() && Box(id, op, kids).Ids() == {id} + KidOf(kids)
    ensures Box(id, op, kids).Erase() == Made(op, if kids == [] then [] else [kids[0].Erase()])
    ensures Box(id, op, kids).Tops() == (if kids == [] then [] else [kids[0].Top()]) + Empty(Missing(op, |kids|))
  {
    var l := Box(id, op, kids);
    assert kids != [] ==> l.kids[0] == kids[0];
    assert forall k | |kids| <= k < |l.kids| :: l.kids[k] == Spot(Unfilled);
    assert l.KidIds() == KidOf(kids);
    assert l.Erased() == Made(op, if kids == [] then [] else [kids[0].Erase()]).terms;
    assert l.Tops() == (if kids == [] then [] else [kids[0].Top()]) + Empty(Missing(op, |kids|));
  }

  /** `makeExpr`, for an operator with its first term or with none. */
  method MakeExpr<A>(op: Op, terms: seq<Term<ListRef<A>, Slot<A>>>, ghost kids: seq<BoxShape<A>>)
    returns (box: ListRef<A>, ghost l: BoxShape<A>)
    requires |terms| == |kids| <= 1 && forall k | 0 <= k < |kids| :: InPlace(kids[k]) && kids[k].Top() == terms[k]
    ensures fresh(box) && l == Box(box, op, kids) && InPlace(l) && l.Ids() == {box} + KidOf(kids)
    ensures l.Erase() == Made(op, if kids == [] then [] else [kids[0].Erase()])
  {
    if kids != [] {
      Exist(kids[0]);
    }
    box := new ExprNode(op, terms + Empty(Missing(op, |terms|)));
    BoxLayout(box, op, kids);
    l := Box(box, op, kids);
    assert kids != [] ==> l.kids[0] == kids[0];
    assert forall k | |kids| <= k < |l.kids| :: l.kids[k] == Spot(Unfilled);
    assert terms == if kids == [] then [] else [kids[0].Top()];
    HoldsKids(l);
  }

  lemma BoxHolds<A>(id: ListRef<A>, op: Op, kid: BoxShape<A>)
    requires InPlace(kid) && id !in kid.Ids() && id.op == op && id.terms == [kid.Top()] + Empty(Missing(op, 1))
    ensures InPlace(Box(id, op, [kid])) && Box(id, op, [kid]).Ids() == {id} + kid.Ids()
    ensures Box(id, op, [kid]).Erase() == Made(op, [kid.Erase()])
  {
    BoxLayout(id, op, [kid]);
    var l := Box(id, op, [kid]);
    assert l.kids[0] == kid;
    assert forall k | 1 <= k < |l.kids| :: l.kids[k] == Spot(Unfilled);
    HoldsKids(l);
  }

  /** `wrapExpr`: the content moves to a copy, and the same box is re-pointed to a slice headed by the operator. */
  method WrapExpr<A>(box: ListRef<A>, op: Op, ghost l: BoxShape<A>) returns (ghost l': BoxShape<A>)
    requires l.Cell? && l.id == box && InPlace(l)
    modifies box
    ensures l'.Cell? && l'.id == box && InPlace(l') && l.Ids() <= l'.Ids() && fresh(l'.Ids() - l.Ids())
    ensures l'.Erase() == Made(op, [l.Erase()])
  {
    Exist(l);
    HoldsKids(l);
    KidsInside(l);
    assert forall k | 0 <= k < |l.kids| :: Holds(l.kids[k]) && box !in l.kids[k].Ids();
    var copy := DupNode(box);
    assert copy !in l.Ids();
    UpdateExprNode(box, op, [Ref(copy)] + Empty(Missing(op, 1)));
    assert forall k | 0 <= k < |l.kids| :: Holds(l.kids[k]);
    ghost var moved := Moved(l, copy);
    HoldsKids(moved);
    assert InPlace(moved) && box !in moved.Ids();
    BoxHolds(box, op, moved);
    l' := Box(box, op, [moved]);
  }

  method MakeOver<A>(op: Op, term: Term<ListRef<A>, Slot<A>>, ghost kid: BoxShape<A>)
    returns (box: ListRef<A>, ghost l: BoxShape<A>)
    requires InPlace(kid) && kid.Top() == term
    ensures fresh(box) && InPlace(l) && l.Top() == Ref(box) && l.Ids() == {box} + kid.Ids()
    ensures l.Erase() == Made(op, [kid.Erase()])
  {
    box, l := MakeExpr(op, [term], [kid]);
  }

  /** Put one slot's content under a new box. */
  method WrapSlot<A>(box: ListRef<A>, i: nat, op: Op, ghost l: BoxShape<A>) returns (ghost l': BoxShape<A>)
    requires l.Cell? && l.id == box && InPlace(l) && i < |l.kids|
    modifies box`terms
    ensures InPlace(l') && l'.Top() == Ref(box) && l.Ids() <= l'.Ids() && fresh(l'.Ids() - l.Ids())
    ensures |l.Erase().terms| == |l.kids| && l'.Erase() == Node(l.op, l.Erase().terms[i := Made(op, [l.kids[i].Erase()])])
  {
    Exist(l);
    HoldsKids(l);
    KidsInside(l);
    KidsApart(l, i);
    assert forall j | 0 <= j < |l.kids| :: Holds(l.kids[j]) && l.kids[j].Ids() <= l.Ids();
    var inner, m := MakeOver(op, box.terms[i], l.kids[i]);
    assert forall j | 0 <= j < |l.kids| :: Holds(l.kids[j]);
    assert box !in m.Ids();
    box.terms := box.terms[i := Ref(inner)];
    assert forall j | 0 <= j < |l.kids| :: Holds(l.kids[j]);
    l' := HoldsWithKid(l, i, m);
  }

  /**
   `prattify` on a box. A paren is a finished unit and is wrapped by a new
   box; any other box keeps its identity. A prefix goes where a slot is
   open, or takes the place of the last term where none is.
   */
  method Prattify<A>(box: ListRef<A>, op: Op, ghost l: BoxShape<A>) returns (root: ListRef<A>, ghost l': BoxShape<A>)
    requires l.Cell? && l.id == box && InPlace(l) && (op.Spine() || op.kind.Suffix?)
    modifies l.Ids()
    ensures InPlace(l') && l'.Top() == Ref(root) && fresh(l'.Ids() - l.Ids())
    ensures l'.Erase() == GoPrattify(l.Erase(), op)
    ensures !l.op.kind.Paren? ==> root == box
    ensures !l.op.kind.Paren? && (op.kind.Prefix? ==> Fill(l.Erase(), Made(op, [])).Found?) ==> l.Ids() <= l'.Ids()
    decreases l, 1
  {
    EraseShape(l);
    HoldsKids(l);
    root := box;
    if box.op.kind.Paren? {
      root, l' := WrapNew(box, op, l);
    } else if op.kind.Infix? {
      l' := PrattifyInfix(box, op, l);
    } else if op.kind.Prefix? {
      l' := PrattifyPrefix(box, op, l);
    } else {
      l' := PrattifySuffix(box, op, l);
    }
  }

  method WrapNew<A>(box: ListRef<A>, op: Op, ghost l: BoxShape<A>) returns (root: ListRef<A>, ghost l': BoxShape<A>)
    requires l.Cell? && l.id == box && InPlace(l)
    ensures InPlace(l') && l'.Top() == Ref(root) && fresh(l'.Ids() - l.Ids())
    ensures l'.Erase() == Made(op, [l.Erase()])
  {
    Exist(l);
    HoldsKids(l);
    KidsInside(l);
    assert forall j | 0 <= j < |l.kids| :: Holds(l.kids[j]) && l.kids[j].Ids() <= l.Ids();
    var copy := DupNode(box);
    ghost var moved := Moved(l, copy);
    HoldsKids(moved);
    root, l' := MakeOver(op, Ref(copy), moved);
  }

  method PrattifyInfix<A>(box: ListRef<A>, op: Op, ghost l: BoxShape<A>) returns (ghost l': BoxShape<A>)
    requires op.kind.Infix?
    requires l.Cell? && l.id == box && InPlace(l) && !l.op.kind.Paren?
    modifies l.Ids()
    ensures InPlace(l') && l'.Top() == Ref(box) && l.Ids() <= l'.Ids() && fresh(l'.Ids() - l.Ids())
    ensures l'.Erase() == GoPrattify(l.Erase(), op)
    decreases l, 0
  {
    HoldsKids(l);
    EraseShape(l);
    if box.op.kind.Suffix? || op.left <= box.op.right {
      l' := WrapExpr(box, op, l);
    } else if box.op.Terms() <= |box.terms| {
      l' := InsideSlot(box, box.op.Terms() - 1, op, l);
    } else {
      l' := l;
    }
  }

  /** `prattifySuffix`, which the suffix action calls itself: whatever the box holds, a paren included, it keeps its identity. */
  method PrattifySuffix<A>(box: ListRef<A>, op: Op, ghost l: BoxShape<A>) returns (ghost l': BoxShape<A>)
    requires op.kind.Suffix?
    requires l.Cell? && l.id == box && InPlace(l)
    modifies l.Ids()
    ensures InPlace(l') && l'.Top() == Ref(box) && l.Ids() <= l'.Ids() && fresh(l'.Ids() - l.Ids())
    ensures l'.Erase() == GoPrattify(l.Erase(), op)
    decreases l, 0
  {
    HoldsKids(l);
    EraseShape(l);
    if !box.op.kind.Paren? && !box.op.kind.Suffix? && box.op.right <= op.left && box.op.Terms() <= |box.terms| {
      l' := InsideSlot(box, box.op.Terms() - 1, op, l);
    } else {
      l' := WrapExpr(box, op, l);
    }
  }

  /** Whether the operator goes on into a slot's own box rather than over it. */
  predicate Enters(sub: Op, op: Op) {
    && (if op.kind.Suffix? then sub.Spine() else !sub.Closed())
    && sub.right < op.left
  }

  method InsideSlot<A>(box: ListRef<A>, i: nat, op: Op, ghost l: BoxShape<A>) returns (ghost l': BoxShape<A>)
    requires l.Cell? && l.id == box && InPlace(l) && i < |l.kids| && (op.kind.Infix? || op.kind.Suffix?)
    modifies l.Ids()
    ensures InPlace(l') && l'.Top() == Ref(box) && l.Ids() <= l'.Ids() && fresh(l'.Ids() - l.Ids())
    ensures |l.Erase().terms| == |l.kids|
    ensures var last := l.kids[i].Erase();
            l'.Erase() == Node(l.op, l.Erase().terms[i :=
              if last.Node? && Enters(last.op, op) then GoPrattify(last, op) else Made(op, [last])])
    decreases l, 0, 0
  {
    Exist(l);
    HoldsKids(l);
    KidsInside(l);
    KidsApart(l, i);
    EraseShape(l);
    var term := box.terms[i];
    assert term == l.kids[i].Top();
    assert forall j | 0 <= j < |l.kids| :: Holds(l.kids[j]) && l.kids[j].Ids() <= l.Ids();
    if term.Ref? && Enters(term.id.op, op) {
      var _, kid := Prattify(term.id, op, l.kids[i]);
      assert forall j | 0 <= j < |l.kids| && j != i :: Holds(l.kids[j]);
      l' := HoldsWithKid(l, i, kid);
    } else {
      l' := WrapSlot(box, i, op, l);
    }
  }

  method PrattifyPrefix<A>(box: ListRef<A>, op: Op, ghost l: BoxShape<A>) returns (ghost l': BoxShape<A>)
    requires op.kind.Prefix?
    requires l.Cell? && l.id == box && InPlace(l) && !l.op.kind.Paren?
    modifies l.Ids()
    ensures InPlace(l') && l'.Top() == Ref(box) && fresh(l'.Ids() - l.Ids())
    ensures l'.Erase() == GoPrattify(l.Erase(), op)
    ensures Fill(l.Erase(), Made(op, [])).Found? ==> l.Ids() <= l'.Ids()
  {
    Exist(l);
    EraseShape(l);
    HoldsKids(l);
    var inner, m := MakeExpr(op, [], []);
    var filled, seen;
    filled, seen, l' := FillNextSlotSeen(box, Ref(inner), {}, l, m);
    if !filled {
      HoldsKids(l);
      if box.op.Terms() <= |box.terms| {
        l' := SetSlot(box, box.op.Terms() - 1, inner, l, m);
      }
    }
  }

  /** Assign a slot a box of its own, whatever the slot held. */
  method SetSlot<A>(box: ListRef<A>, i: nat, inner: ListRef<A>, ghost l: BoxShape<A>, ghost m: BoxShape<A>)
    returns (ghost l': BoxShape<A>)
    requires l.Cell? && l.id == box && InPlace(l) && i < |l.kids|
    requires InPlace(m) && m.Top() == Ref(inner) && m.Ids() !! l.Ids()
    modifies box`terms
    ensures InPlace(l') && l'.Top() == Ref(box) && l'.Ids() <= l.Ids() + m.Ids()
    ensures |l.Erase().terms| == |l.kids| && l'.Erase() == Node(l.op, l.Erase().terms[i := m.Erase()])
  {
    HoldsKids(l);
    KidsInside(l);
    KidsApart(l, i);
    assert forall j | 0 <= j < |l.kids| :: Holds(l.kids[j]) && l.kids[j].Ids() <= l.KidIds();
    box.terms := box.terms[i := Ref(inner)];
    assert forall j | 0 <= j < |l.kids| :: Holds(l.kids[j]);
    l' := HoldsInstead(l, i, m);
  }
}
