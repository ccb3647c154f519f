// Inserting into and removing from one sorted side of the book.
module SideLaws {
  import opened Flat
  import opened MatchLaws

  /** The number of orders an arriving order queues behind. */
  function Place(side: Side, s: seq<Order>, o: Order): (k: nat)
    ensures k <= |s|
    ensures forall i | 0 <= i < k :: !Ahead(side, o.px, s[i].px)
    ensures k < |s| ==> Ahead(side, o.px, s[k].px)
  {
    if s == [] || Ahead(side, o.px, s[0].px) then 0 else 1 + Place(side, s[1..], o)
  }

  lemma {:induction false} InsertAt(side: Side, s: seq<Order>, o: Order)
    ensures var k := Place(side, s, o); Insert(side, s, o) == s[..k] + [o] + s[k..]
  {
    if s != [] && !Ahead(side, o.px, s[0].px) {
      InsertAt(side, s[1..], o);
      var k := Place(side, s[1..], o);
      assert s[..k + 1] == [s[0]] + s[1..][..k];
    }
  }

  /** Insertion keeps a side sorted, and puts the new order behind every order of
      equal or better price and ahead of every order of worse price. */
  lemma InsertSorted(side: Side, s: seq<Order>, o: Order)
    requires Sorted(side, s)
    ensures Sorted(side, Insert(side, s, o))
    ensures forall i | 0 <= i < |s| :: i < Place(side, s, o) <==> !Ahead(side, o.px, s[i].px)
  {
    InsertAt(side, s, o);
    var k := Place(side, s, o);
    forall i | k <= i < |s| ensures Ahead(side, o.px, s[i].px) {
      if k < i { assert !Ahead(side, s[i].px, s[k].px); }
    }
  }

  lemma InsertMembers(side: Side, s: seq<Order>, o: Order)
    ensures forall x :: x in Insert(side, s, o) <==> x == o || x in s
    ensures Ids(Insert(side, s, o)) == Ids(s) + {o.id}
  {
    InsertAt(side, s, o);
    var k := Place(side, s, o);
    assert s == s[..k] + s[k..];
  }

  lemma {:induction false} RemoveAt(s: seq<Order>, px: int, id: Id)
    ensures var k := Find(s, px, id);
            Remove(s, px, id) == if k < |s| then s[..k] + s[k + 1..] else s
  {
    if s != [] && !(s[0].px == px && s[0].id == id) {
      RemoveAt(s[1..], px, id);
      var k := Find(s, px, id);
      assert k < |s| ==> s[..k] == [s[0]] + s[1..][..k - 1];
    }
  }

  lemma RemoveMembers(s: seq<Order>, px: int, id: Id)
    ensures forall x | x in Remove(s, px, id) :: x in s
  {
    RemoveAt(s, px, id);
  }

  lemma {:induction false} FindFirst(s: seq<Order>, px: int, id: Id)
    ensures var k := Find(s, px, id);
            && (k < |s| ==> s[k].px == px && s[k].id == id)
            && (forall i | 0 <= i < k :: s[i].px != px || s[i].id != id)
  {
    if s != [] && !(s[0].px == px && s[0].id == id) {
      FindFirst(s[1..], px, id);
      forall i | 0 <= i < Find(s, px, id) ensures s[i].px != px || s[i].id != id {
        if i > 0 { assert s[i] == s[1..][i - 1]; }
      }
    }
  }

  lemma {:induction false} RemoveBeyond(a: seq<Order>, s: seq<Order>, px: int, id: Id)
    requires forall o | o in a :: !(o.px == px && o.id == id)
    ensures Remove(a + s, px, id) == a + Remove(s, px, id)
  {
    if a == [] {
      assert a + s == s && a + Remove(s, px, id) == Remove(s, px, id);
    } else {
      assert (a + s)[1..] == a[1..] + s;
      RemoveBeyond(a[1..], s, px, id);
    }
  }

  /** Removing a freshly inserted order restores the side exactly. */
  lemma {:induction false} RemoveUndoesInsert(side: Side, s: seq<Order>, o: Order)
    requires o.id !in Ids(s)
    ensures Remove(Insert(side, s, o), o.px, o.id) == s
  {
    if s == [] || Ahead(side, o.px, s[0].px) {
      assert ([o] + s)[1..] == s;
    } else {
      assert s[0] in s && forall x | x in s[1..] :: x in s;
      RemoveUndoesInsert(side, s[1..], o);
      assert Insert(side, s, o)[1..] == Insert(side, s[1..], o);
    }
  }

  lemma {:induction false} QtyOfConcat(a: seq<Order>, b: seq<Order>, x: Id)
    ensures QtyOf(a + b, x) == QtyOf(a, x) + QtyOf(b, x)
  {
    if a == [] {
      assert a + b == b;
    } else {
      assert (a + b)[1..] == a[1..] + b;
      QtyOfConcat(a[1..], b, x);
    }
  }

  lemma QtyOfInsert(side: Side, s: seq<Order>, o: Order, x: Id)
    ensures QtyOf(Insert(side, s, o), x) == QtyOf(s, x) + if o.id == x then o.qty else 0
  {
    InsertAt(side, s, o);
    var k := Place(side, s, o);
    QtyOfConcat(s[..k] + [o], s[k..], x);
    QtyOfConcat(s[..k], [o], x);
    QtyOfConcat(s[..k], s[k..], x);
    assert s == s[..k] + s[k..];
  }

  lemma QtyOfRemove(s: seq<Order>, px: int, id: Id, x: Id)
    ensures var k := Find(s, px, id);
            QtyOf(s, x) == QtyOf(Remove(s, px, id), x)
                         + if k < |s| && s[k].id == x then s[k].qty else 0
  {
    var k := Find(s, px, id);
    RemoveAt(s, px, id);
    if k < |s| {
      assert s == s[..k] + [s[k]] + s[k + 1..];
      QtyOfConcat(s[..k] + [s[k]], s[k + 1..], x);
      QtyOfConcat(s[..k], [s[k]], x);
      QtyOfConcat(s[..k], s[k + 1..], x);
    }
  }

  // ----- lawful sides -----

  function Prices(s: seq<Order>): set<int> { set o | o in s :: o.px }

  /** Priority order, and every resting price and quantity positive. */
  ghost predicate Lawful(side: Side, s: seq<Order>) { Sorted(side, s) && Positive(s) }

  lemma LeavesLawful(side: Side, policy: Policy, t: Taker, s: seq<Order>, r: Outcome)
    requires Lawful(side, s) && Leaves(policy, t, s, r)
    ensures Lawful(side, r.book) && Prices(r.book) <= Prices(s)
  {
    var n := |s| - |r.book|;
    forall i | 0 <= i < |r.book| ensures r.book[i].px == s[n + i].px && r.book[i].qty > 0 {}
    forall p | p in Prices(r.book) ensures p in Prices(s) {
      var i :| 0 <= i < |r.book| && r.book[i].px == p;
      assert s[n + i] in s;
    }
  }

  lemma LeavesMembers(policy: Policy, t: Taker, s: seq<Order>, r: Outcome)
    requires Positive(s) && Leaves(policy, t, s, r)
    ensures forall o | o in r.book :: exists a | a in s :: Reduced(a, o)
  {
    var n := |s| - |r.book|;
    forall i | 0 <= i < |r.book| ensures s[n + i] in s && Reduced(s[n + i], r.book[i]) {}
  }

  lemma InsertLawful(side: Side, s: seq<Order>, o: Order)
    requires Lawful(side, s) && o.px > 0 && o.qty > 0
    ensures Lawful(side, Insert(side, s, o))
    ensures Prices(Insert(side, s, o)) == Prices(s) + {o.px}
  {
    InsertSorted(side, s, o);
    InsertMembers(side, s, o);
    var t := Insert(side, s, o);
    forall i | 0 <= i < |t| ensures t[i].px > 0 && t[i].qty > 0 { assert t[i] in t; }
  }

  lemma RemoveLawful(side: Side, s: seq<Order>, px: int, id: Id)
    requires Lawful(side, s)
    ensures Lawful(side, Remove(s, px, id)) && Prices(Remove(s, px, id)) <= Prices(s)
  {
    RemoveMembers(s, px, id);
    RemoveAt(s, px, id);
    var k, r := Find(s, px, id), Remove(s, px, id);
    if k < |s| {
      assert forall i | 0 <= i < |r| :: r[i] == s[if i < k then i else i + 1];
    }
  }
}
