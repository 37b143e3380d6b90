/** Expression trees as they lie in memory: which identity holds which operator and terms. */
module Located {
  import opened Operators
  import P = Pratt

  /** A value a slot can hold: an atom, or the identity of a node. */
  datatype Term<I, A> = Atom(atom: A) | Ref(id: I)

  /** A tree of node identities, with what each node is to hold. */
  datatype Layout<I, A> = Spot(atom: A) | Cell(id: I, op: Op, kids: seq<Layout>) {

    function Top(): Term<I, A> {
      if Spot? then Atom(atom) else Ref(id)
    }

    function Tops(): seq<Term<I, A>>
      requires Cell?
    {
      seq(|kids|, k requires 0 <= k < |kids| => kids[k].Top())
    }

    /** Every identity in the tree. */
    ghost function Ids(): set<I> {
      if Spot? then {} else {id} + KidIds()
    }

    ghost function KidIds(): set<I>
      requires Cell?
      decreases this, 0
    {
      set k, i | 0 <= k < |kids| && i in kids[k].Ids() :: i
    }

    /** No identity is reached twice: the nodes form a tree. */
    ghost predicate Apart() {
      Cell? ==>
        && id !in KidIds()
        && (forall k | 0 <= k < |kids| :: kids[k].Apart())
        && (forall j, k | 0 <= j < k < |kids| :: kids[j].Ids() !! kids[k].Ids())
    }

    /** The expression the nodes make up. */
    ghost function Erase(): Tree<A> {
      if Spot? then Leaf(atom) else Node(op, Erased())
    }

    ghost function Erased(): seq<Tree<A>>
      requires Cell?
      decreases this, 0
    {
      seq(|kids|, k requires 0 <= k < |kids| => kids[k].Erase())
    }

    ghost function Last(): Layout<I, A>
      requires Cell? && kids != []
    {
      kids[|kids| - 1]
    }

    ghost function WithLast(last: Layout<I, A>): Layout<I, A>
      requires Cell? && kids != []
    {
      Cell(id, op, kids[|kids| - 1 := last])
    }

    ghost function With(kid: Layout<I, A>): Layout<I, A>
      requires Cell?
    {
      Cell(id, op, kids + [kid])
    }

    /** The nodes on the way down last terms. */
    ghost predicate Reaches(depth: nat) {
      depth == 0 || (Cell? && kids != [] && Last().Reaches(depth - 1))
    }

    ghost function At(depth: nat): Layout<I, A>
      requires Reaches(depth)
    {
      if depth == 0 then this else Last().At(depth - 1)
    }

    ghost function Put(depth: nat, inner: Layout<I, A>): Layout<I, A>
      requires Reaches(depth)
    {
      if depth == 0 then inner else WithLast(Last().Put(depth - 1, inner))
    }
  }

  lemma KidsInside<I, A>(l: Layout<I, A>)
    requires l.Cell?
    ensures forall k | 0 <= k < |l.kids| :: l.kids[k].Ids() <= l.KidIds()
  {
  }

  lemma EraseShape<I, A>(l: Layout<I, A>)
    requires l.Cell?
    ensures l.Erase().Node? && |l.Erase().terms| == |l.kids| && l.Erase().op == l.op
    ensures l.kids != [] ==> l.Erase().Last() == l.Last().Erase()
    ensures forall m: Layout<I, A> {:trigger l.WithLast(m)} | l.kids != [] :: l.WithLast(m).Erase() == l.Erase().WithLast(m.Erase())
    ensures forall m: Layout<I, A> {:trigger l.With(m)} :: l.With(m).Erase() == Node(l.op, l.Erase().terms + [m.Erase()])
  {
    forall m: Layout<I, A> | l.kids != []
      ensures l.WithLast(m).Erase() == l.Erase().WithLast(m.Erase())
    {
      assert l.WithLast(m).Erase().terms == l.Erase().WithLast(m.Erase()).terms;
    }
    forall m: Layout<I, A>
      ensures l.With(m).Erase() == Node(l.op, l.Erase().terms + [m.Erase()])
    {
      assert l.With(m).Erase().terms == l.Erase().terms + [m.Erase()];
    }
  }

  lemma {:induction false} EraseAt<I, A>(l: Layout<I, A>, depth: nat)
    requires l.Erase().OnSpine(depth)
    ensures l.Reaches(depth) && l.At(depth).Erase() == l.Erase().At(depth)
    ensures forall m: Layout<I, A> {:trigger l.Put(depth, m)} :: l.Put(depth, m).Erase() == l.Erase().Put(depth, m.Erase())
  {
    if depth > 0 {
      EraseShape(l);
      EraseAt(l.Last(), depth - 1);
    }
  }

  /** The identities a rewrite at some depth adds. */
  lemma {:induction false} PutIds<I, A>(l: Layout<I, A>, depth: nat, m: Layout<I, A>)
    requires l.Reaches(depth) && l.Apart() && m.Apart() && l.At(depth).Ids() <= m.Ids()
    requires (m.Ids() - l.At(depth).Ids()) !! l.Ids()
    ensures l.At(depth).Apart() && l.At(depth).Ids() <= l.Ids()
    ensures l.Put(depth, m).Apart() && l.Put(depth, m).Ids() == l.Ids() + m.Ids()
    ensures l.Put(depth, m).Reaches(depth) && l.Put(depth, m).At(depth) == m
    ensures depth > 0 ==> l.Put(depth, m).Top() == l.Top()
  {
    if depth > 0 {
      PutIds(l.Last(), depth - 1, m);
      WithLastIds(l, l.Last().Put(depth - 1, m));
    }
  }

  /** Replacing the last term by a tree that adds only new identities keeps the nodes apart. */
  lemma WithLastIds<I, A>(l: Layout<I, A>, last: Layout<I, A>)
    requires l.Cell? && l.kids != [] && l.Apart() && last.Apart()
    requires l.Last().Ids() <= last.Ids() && (last.Ids() - l.Last().Ids()) !! l.Ids()
    ensures l.WithLast(last).Apart() && l.WithLast(last).Ids() == l.Ids() + last.Ids()
    ensures l.WithLast(last).Last() == last
  {
    assert l.WithLast(last) == Cell(l.id, l.op, l.kids[|l.kids| - 1 := last]);
    WithKidIds(l, |l.kids| - 1, last);
  }

  lemma WithUnion<I, A>(l: Layout<I, A>, kid: Layout<I, A>)
    requires l.Cell?
    ensures l.With(kid).KidIds() == l.KidIds() + kid.Ids()
  {
    var u := l.With(kid);
    forall i | i in l.KidIds() + kid.Ids()
      ensures i in u.KidIds()
    {
      if i in kid.Ids() {
        assert i in u.kids[|l.kids|].Ids();
      } else {
        var k :| 0 <= k < |l.kids| && i in l.kids[k].Ids();
        assert u.kids[k] == l.kids[k];
      }
    }
    forall i | i in u.KidIds()
      ensures i in l.KidIds() + kid.Ids()
    {
      var k :| 0 <= k < |u.kids| && i in u.kids[k].Ids();
      if k < |l.kids| {
        assert i in l.kids[k].Ids();
      }
    }
  }

  /** Adding a term with identities of its own keeps the nodes apart. */
  lemma WithIds<I, A>(l: Layout<I, A>, kid: Layout<I, A>)
    requires l.Cell? && l.Apart() && kid.Apart() && kid.Ids() !! l.Ids()
    ensures l.With(kid).Apart() && l.With(kid).Ids() == l.Ids() + kid.Ids()
    ensures l.With(kid).kids != [] && l.With(kid).Last() == kid
  {
    var u := l.With(kid);
    WithUnion(l, kid);
    KidsInside(l);
    forall j, k | 0 <= j < k < |u.kids|
      ensures u.kids[j].Ids() !! u.kids[k].Ids()
    {
      if k < |l.kids| {
        assert l.kids[j].Ids() !! l.kids[k].Ids();
      } else {
        assert u.kids[j] == l.kids[j] && l.kids[j].Ids() <= l.KidIds();
      }
    }
  }

  /** A fresh node over one term. */
  lemma SingleIds<I, A>(id: I, op: Op, kid: Layout<I, A>)
    requires kid.Apart() && id !in kid.Ids()
    ensures Cell(id, op, [kid]).Apart() && Cell(id, op, [kid]).Ids() == {id} + kid.Ids()
    ensures Cell(id, op, [kid]).Erase() == Node(op, [kid.Erase()])
    ensures Cell(id, op, [kid]).Tops() == [kid.Top()]
  {
    var u := Cell(id, op, [kid]);
    forall i
      ensures i in u.KidIds() <==> i in kid.Ids()
    {
      if i in kid.Ids() {
        assert i in u.kids[0].Ids();
      }
    }
    assert u.KidIds() == kid.Ids();
    assert u.Erased() == [kid.Erase()];
  }

  lemma WithKidUnion<I, A>(l: Layout<I, A>, k: nat, kid: Layout<I, A>)
    requires l.Cell? && k < |l.kids| && l.kids[k].Ids() <= kid.Ids()
    ensures Cell(l.id, l.op, l.kids[k := kid]).KidIds() == l.KidIds() + kid.Ids()
  {
    var l' := Cell(l.id, l.op, l.kids[k := kid]);
    assert l'.kids[k] == kid;
    forall i | i in l.KidIds() + kid.Ids()
      ensures i in l'.KidIds()
    {
      if i in kid.Ids() {
        assert i in l'.kids[k].Ids();
      } else {
        var j :| 0 <= j < |l.kids| && i in l.kids[j].Ids();
        assert l'.kids[j] == l.kids[j];
      }
    }
    forall i | i in l'.KidIds()
      ensures i in l.KidIds() + kid.Ids()
    {
      var j :| 0 <= j < |l'.kids| && i in l'.kids[j].Ids();
      if j != k {
        assert i in l.kids[j].Ids();
      }
    }
  }

  lemma WithKidErase<I, A>(l: Layout<I, A>, k: nat, kid: Layout<I, A>)
    requires l.Cell? && k < |l.kids|
    ensures |l.Erase().terms| == |l.kids|
    ensures Cell(l.id, l.op, l.kids[k := kid]).Erase() == Node(l.op, l.Erase().terms[k := kid.Erase()])
    ensures Cell(l.id, l.op, l.kids[k := kid]).Tops() == l.Tops()[k := kid.Top()]
  {
    var l' := Cell(l.id, l.op, l.kids[k := kid]);
    EraseShape(l);
    assert l'.Erased() == l.Erase().terms[k := kid.Erase()];
    assert l'.Tops() == l.Tops()[k := kid.Top()];
  }

  /** Replacing any one term by a tree that adds only new identities keeps the nodes apart. */
  lemma WithKidIds<I, A>(l: Layout<I, A>, k: nat, kid: Layout<I, A>)
    requires l.Cell? && k < |l.kids| && l.Apart() && kid.Apart()
    requires l.kids[k].Ids() <= kid.Ids() && (kid.Ids() - l.kids[k].Ids()) !! l.Ids()
    ensures Cell(l.id, l.op, l.kids[k := kid]).Apart()
    ensures Cell(l.id, l.op, l.kids[k := kid]).Ids() == l.Ids() + kid.Ids()
  {
    var l' := Cell(l.id, l.op, l.kids[k := kid]);
    WithKidUnion(l, k, kid);
    KidsInside(l);
    forall i, j | 0 <= i < j < |l'.kids|
      ensures l'.kids[i].Ids() !! l'.kids[j].Ids()
    {
      assert l.kids[i].Ids() !! l.kids[j].Ids();
      assert l.kids[i].Ids() <= l.Ids() && l.kids[j].Ids() <= l.Ids();
    }
  }

  lemma AtWithLast<I, A>(l: Layout<I, A>, inner: Layout<I, A>, depth: nat)
    requires l.Cell? && l.kids != [] && inner.Reaches(depth)
    ensures l.WithLast(inner).Reaches(depth + 1) && l.WithLast(inner).At(depth + 1) == inner.At(depth)
  {
    assert l.WithLast(inner).Last() == inner;
  }

  /** Where the insertion attaches when it goes into the last term. */
  lemma DrilledAt<I, A>(l: Layout<I, A>, inner: Layout<I, A>, op: Op)
    requires l.Cell? && l.kids != [] && P.Applicable(l.Erase(), op) && op.kind.Infix? && !l.op.kind.Suffix? && l.op.right < op.left
    requires l.Last().Cell? && l.Last().op.right < op.left
    ensures P.Applicable(l.Last().Erase(), op) && |l.Erase().terms| == |l.kids|
    ensures P.Prattify(l.Erase(), op).0 == l.Erase().WithLast(P.Prattify(l.Last().Erase(), op).0)
    ensures inner.Reaches(P.Prattify(l.Last().Erase(), op).1) ==>
              && l.WithLast(inner).Reaches(P.Prattify(l.Erase(), op).1)
              && l.WithLast(inner).At(P.Prattify(l.Erase(), op).1) == inner.At(P.Prattify(l.Last().Erase(), op).1)
  {
    EraseShape(l);
    EraseShape(l.Last());
    P.PrattifyDrills(l.Erase(), op);
    var depth := P.Prattify(l.Last().Erase(), op).1;
    if inner.Reaches(depth) {
      AtWithLast(l, inner, depth);
    }
  }

  /** Where the insertion attaches when it takes the last term itself. */
  lemma WrappedAt<I, A>(l: Layout<I, A>, inner: Layout<I, A>, op: Op)
    requires l.Cell? && l.kids != [] && P.Applicable(l.Erase(), op) && op.kind.Infix? && !l.op.kind.Suffix? && l.op.right < op.left
    requires l.Last().Cell? ==> op.left <= l.Last().op.right
    ensures |l.Erase().terms| == |l.kids|
    ensures P.Prattify(l.Erase(), op) == (l.Erase().WithLast(Node(op, [l.Erase().Last()])), 1)
    ensures l.WithLast(inner).Reaches(1) && l.WithLast(inner).At(1) == inner
  {
    EraseShape(l);
    AtWithLast(l, inner, 0);
  }

  lemma AtWith<I, A>(l: Layout<I, A>, kid: Layout<I, A>)
    requires l.Cell?
    ensures l.With(kid).Reaches(1) && l.With(kid).At(1) == kid
  {
    assert l.With(kid).Last() == kid && kid.Reaches(0);
  }

  lemma {:induction false} AtIds<I, A>(l: Layout<I, A>, depth: nat)
    requires l.Reaches(depth)
    ensures l.At(depth).Ids() <= l.Ids()
  {
    if depth > 0 {
      AtIds(l.Last(), depth - 1);
      KidsInside(l);
    }
  }

  /** A rewrite that keeps the identity of the node it is at leaves the nodes above where they were. */
  lemma {:induction false} PutTop<I, A>(l: Layout<I, A>, depth: nat, above: nat, m: Layout<I, A>)
    requires l.Reaches(depth) && m.Top() == l.At(depth).Top() && above <= depth
    ensures l.Reaches(above) && l.Put(depth, m).Reaches(above) && l.Put(depth, m).At(above).Top() == l.At(above).Top()
  {
    if depth > 0 {
      assert l.Put(depth, m).Last() == l.Last().Put(depth - 1, m);
      PutTop(l.Last(), depth - 1, if above > 0 then above - 1 else 0, m);
    }
  }

  lemma {:induction false} ReachesSum<I, A>(l: Layout<I, A>, depth: nat, more: nat)
    requires l.Reaches(depth) && l.At(depth).Reaches(more)
    ensures l.Reaches(depth + more) && l.At(depth + more) == l.At(depth).At(more)
  {
    if depth > 0 {
      ReachesSum(l.Last(), depth - 1, more);
    }
  }
}
