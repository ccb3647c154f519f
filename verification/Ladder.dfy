// A ladder: price levels in priority order, each a FIFO queue. Reading the queues
// off level by level gives the flat side of the book.
module Ladder {
  import opened Flat
  import opened MatchLaws
  import opened SideLaws

  datatype Level = Level(px: int, orders: seq<Rest>)

  function Flatten(l: seq<Level>): seq<Order> {
    if l == [] then [] else At(l[0].px, l[0].orders) + Flatten(l[1..])
  }

  /** Strictly ordered prices and no empty level. */
  ghost predicate Proper(side: Side, l: seq<Level>) {
    && (forall i, j | 0 <= i < j < |l| :: Ahead(side, l[i].px, l[j].px))
    && (forall i | 0 <= i < |l| :: l[i].orders != [])
  }

  // ----- queues inside a flat side -----

  lemma AtFront(px: int, q: seq<Rest>)
    requires q != []
    ensures At(px, q) == [Priced(px, q[0])] + At(px, q[1..])
  {}

  lemma {:induction false} InsertBehind(side: Side, px: int, q: seq<Rest>, tail: seq<Order>, o: Order)
    requires !Ahead(side, o.px, px)
    ensures Insert(side, At(px, q) + tail, o) == At(px, q) + Insert(side, tail, o)
  {
    if q == [] {
      assert At(px, q) + tail == tail;
    } else {
      AtFront(px, q);
      InsertBehind(side, px, q[1..], tail, o);
      assert (At(px, q) + tail)[1..] == At(px, q[1..]) + tail;
    }
  }

  lemma InsertAhead(side: Side, s: seq<Order>, o: Order)
    requires s != [] ==> Ahead(side, o.px, s[0].px)
    ensures Insert(side, s, o) == [o] + s
  {}

  lemma {:induction false} RemovePast(px: int, q: seq<Rest>, tail: seq<Order>, p: int, id: Id)
    requires px != p || forall i | 0 <= i < |q| :: q[i].id != id
    ensures Remove(At(px, q) + tail, p, id) == At(px, q) + Remove(tail, p, id)
  {
    RemoveBeyond(At(px, q), tail, p, id);
  }

  lemma AtSplit(px: int, q: seq<Rest>, j: nat, tail: seq<Order>)
    requires j < |q|
    ensures At(px, q) + tail == At(px, q[..j]) + ([Priced(px, q[j])] + (At(px, q[j + 1..]) + tail))
    ensures At(px, q[..j] + q[j + 1..]) + tail == At(px, q[..j]) + (At(px, q[j + 1..]) + tail)
  {}

  lemma {:induction false} RemoveWithin(px: int, q: seq<Rest>, tail: seq<Order>, j: nat)
    requires j < |q| && forall i | 0 <= i < j :: q[i].id != q[j].id
    ensures Remove(At(px, q) + tail, px, q[j].id) == At(px, q[..j] + q[j + 1..]) + tail
  {
    var a, o, rest := At(px, q[..j]), Priced(px, q[j]), At(px, q[j + 1..]) + tail;
    RemoveBeyond(a, [o] + rest, px, q[j].id);
    assert ([o] + rest)[1..] == rest;
    AtSplit(px, q, j, tail);
  }

  /** One contact with the front of a queue that heads the side. */
  lemma ContactAt(policy: Policy, t: Taker, qty: int, px: int, q: seq<Rest>, tail: seq<Order>)
    requires q != [] && qty > 0 && Crosses(t, px)
    ensures var s, o, m := At(px, q) + tail, q[0], Min(qty, q[0].qty);
            Active(t, qty, s) &&
            Contact(policy, t, qty, s) ==
            if Own(policy, t.client, o.client) then
              if policy.CancelTaker? then Outcome([], qty, s, true, [], {})
              else Outcome([], qty, At(px, q[1..]) + tail, policy.CancelBoth?, [Priced(px, o)], {o.id})
            else if m == o.qty then
              Outcome([Fill(px, m, t.id, o.id)], qty - m, At(px, q[1..]) + tail, false, [], {o.id})
            else
              Outcome([Fill(px, m, t.id, o.id)], qty - m, At(px, [o.(qty := o.qty - m)] + q[1..]) + tail, false, [], {})
  {
    var s, r := At(px, q) + tail, q[0].(qty := q[0].qty - Min(qty, q[0].qty));
    assert s[1..] == At(px, q[1..]) + tail;
    assert [Priced(px, r)] + s[1..] == At(px, [r] + q[1..]) + tail;
  }

  // ----- ladders -----

  lemma FlattenFront(l: seq<Level>)
    requires l != [] && l[0].orders != []
    ensures Flatten(l) != [] && Flatten(l)[0] == Priced(l[0].px, l[0].orders[0])
  {}

  /** The ladder after inserting at level position `i`, appending or opening a level. */
  function Inserted(l: seq<Level>, i: nat, px: int, r: Rest): seq<Level>
    requires i <= |l|
  {
    if i < |l| && l[i].px == px then l[i := Level(px, l[i].orders + [r])]
    else l[..i] + [Level(px, [r])] + l[i..]
  }

  lemma InsertedPeel(l: seq<Level>, i: nat, px: int, r: Rest)
    requires 0 < i <= |l|
    ensures Inserted(l, i, px, r) == [l[0]] + Inserted(l[1..], i - 1, px, r)
  {
    if i < |l| && l[i].px == px {} else {
      assert l[..i] == [l[0]] + l[1..][..i - 1];
    }
  }

  /** Inserting at the binary-search position is inserting behind all orders of equal
      or better price, and keeps the ladder proper. */
  lemma {:induction false} InsertedFlat(side: Side, l: seq<Level>, i: nat, px: int, r: Rest)
    requires Proper(side, l) && i <= |l|
    requires forall k | 0 <= k < i :: Ahead(side, l[k].px, px)
    requires forall k | i <= k < |l| :: !Ahead(side, l[k].px, px)
    ensures Flatten(Inserted(l, i, px, r)) == Insert(side, Flatten(l), Priced(px, r))
  {
    var o := Priced(px, r);
    var l' := Inserted(l, i, px, r);
    if i > 0 {
      InsertedPeel(l, i, px, r);
      assert l'[1..] == Inserted(l[1..], i - 1, px, r);
      InsertedFlat(side, l[1..], i - 1, px, r);
      InsertBehind(side, l[0].px, l[0].orders, Flatten(l[1..]), o);
    } else if l != [] && l[0].px == px {
      InsertBehind(side, px, l[0].orders, Flatten(l[1..]), o);
      if |l| > 1 { FlattenFront(l[1..]); }
      InsertAhead(side, Flatten(l[1..]), o);
      assert l'[1..] == l[1..] && At(px, l[0].orders + [r]) == At(px, l[0].orders) + [o];
      assert At(px, l[0].orders + [r]) + Flatten(l[1..]) == At(px, l[0].orders) + ([o] + Flatten(l[1..]));
    } else {
      if l != [] { FlattenFront(l); }
      InsertAhead(side, Flatten(l), o);
      assert l' == [Level(px, [r])] + l && l'[1..] == l;
      assert At(px, [r]) == [o];
    }
  }

  lemma {:induction false} InsertedProper(side: Side, l: seq<Level>, i: nat, px: int, r: Rest)
    requires Proper(side, l) && i <= |l|
    requires forall k | 0 <= k < i :: Ahead(side, l[k].px, px)
    requires forall k | i <= k < |l| :: !Ahead(side, l[k].px, px)
    ensures Proper(side, Inserted(l, i, px, r))
  {
    var l' := Inserted(l, i, px, r);
    if i < |l| && l[i].px == px {
      assert forall k | 0 <= k < |l'| :: l'[k].px == l[k].px;
    } else {
      assert i < |l| ==> Ahead(side, px, l[i].px);
      assert forall k | i < k < |l| :: Ahead(side, l[i].px, l[k].px);
      assert forall k | 0 <= k < |l'| && k != i :: l'[k] == l[if k < i then k else k - 1];
    }
  }

  /** The ladder after removing order `j` of level `i`; an emptied level goes. */
  function Removed(l: seq<Level>, i: nat, j: nat): seq<Level>
    requires i < |l| && j < |l[i].orders|
  {
    var q := l[i].orders[..j] + l[i].orders[j + 1..];
    if q == [] then l[..i] + l[i + 1..] else l[i := Level(l[i].px, q)]
  }

  lemma {:induction false} RemovedFirst(l: seq<Level>, j: nat)
    requires l != [] && j < |l[0].orders|
    requires forall k | 0 <= k < j :: l[0].orders[k].id != l[0].orders[j].id
    ensures Flatten(Removed(l, 0, j)) == Remove(Flatten(l), l[0].px, l[0].orders[j].id)
  {
    var l', q := Removed(l, 0, j), l[0].orders[..j] + l[0].orders[j + 1..];
    RemoveWithin(l[0].px, l[0].orders, Flatten(l[1..]), j);
    if q == [] {
      assert l' == l[1..] && At(l[0].px, q) + Flatten(l[1..]) == Flatten(l[1..]);
    } else {
      assert l'[1..] == l[1..];
    }
  }

  lemma {:induction false} RemovedFlat(side: Side, l: seq<Level>, i: nat, j: nat)
    requires Proper(side, l) && i < |l| && j < |l[i].orders|
    requires forall k | 0 <= k < j :: l[i].orders[k].id != l[i].orders[j].id
    ensures Flatten(Removed(l, i, j)) == Remove(Flatten(l), l[i].px, l[i].orders[j].id)
  {
    if i > 0 {
      var l' := Removed(l, i, j);
      RemovePast(l[0].px, l[0].orders, Flatten(l[1..]), l[i].px, l[i].orders[j].id);
      RemovedFlat(side, l[1..], i - 1, j);
      assert l' == [l[0]] + Removed(l[1..], i - 1, j) && l'[1..] == Removed(l[1..], i - 1, j);
    } else {
      RemovedFirst(l, j);
    }
  }

  lemma RemovedProper(side: Side, l: seq<Level>, i: nat, j: nat)
    requires Proper(side, l) && i < |l| && j < |l[i].orders|
    ensures Proper(side, Removed(l, i, j))
  {
    var l' := Removed(l, i, j);
    if |l'| == |l| {
      assert forall k | 0 <= k < |l'| :: l'[k].px == l[k].px;
    } else {
      assert forall k | 0 <= k < |l'| :: l'[k] == l[if k < i then k else k + 1];
    }
  }

  lemma {:induction false} RemoveMissing(l: seq<Level>, px: int, id: Id)
    requires forall i, j | 0 <= i < |l| && 0 <= j < |l[i].orders| :: l[i].px != px || l[i].orders[j].id != id
    ensures Find(Flatten(l), px, id) == |Flatten(l)| && Remove(Flatten(l), px, id) == Flatten(l)
  {
    if l == [] {
    } else {
      RemoveMissing(l[1..], px, id);
      RemovePast(l[0].px, l[0].orders, Flatten(l[1..]), px, id);
      RemoveAt(Flatten(l), px, id);
    }
  }

  lemma {:induction false} RemovedShorter(l: seq<Level>, i: nat, j: nat)
    requires i < |l| && j < |l[i].orders|
    ensures |Flatten(Removed(l, i, j))| < |Flatten(l)|
  {
    var l' := Removed(l, i, j);
    if i > 0 {
      RemovedShorter(l[1..], i - 1, j);
      assert l' == [l[0]] + Removed(l[1..], i - 1, j) && l'[1..] == Removed(l[1..], i - 1, j);
    } else if |l'| == |l| {
      assert l'[1..] == l[1..];
    } else {
      assert l' == l[1..];
    }
  }

  /** An order found in a proper ladder is found in the flat side. */
  lemma {:induction false} FoundFlat(side: Side, l: seq<Level>, i: nat, j: nat)
    requires Proper(side, l) && i < |l| && j < |l[i].orders|
    requires forall k | 0 <= k < j :: l[i].orders[k].id != l[i].orders[j].id
    ensures Find(Flatten(l), l[i].px, l[i].orders[j].id) < |Flatten(l)|
  {
    RemovedFlat(side, l, i, j);
    RemoveAt(Flatten(l), l[i].px, l[i].orders[j].id);
    RemovedShorter(l, i, j);
  }

  // ----- a proper ladder is determined by its flat side -----

  lemma FlattenTail(l: seq<Level>)
    requires l != []
    ensures |Flatten(l)| >= |l[0].orders| && Flatten(l)[|l[0].orders|..] == Flatten(l[1..])
    ensures forall k | 0 <= k < |l[0].orders| :: Flatten(l)[k] == Priced(l[0].px, l[0].orders[k])
  {}

  lemma FirstNotLonger(side: Side, a: seq<Level>, b: seq<Level>)
    requires Proper(side, a) && Proper(side, b) && a != [] && b != []
    requires Flatten(a) == Flatten(b) && a[0].px == b[0].px
    ensures |b[0].orders| <= |a[0].orders|
  {
    var n := |a[0].orders|;
    FlattenTail(a);
    FlattenTail(b);
    if |a| > 1 {
      FlattenFront(a[1..]);
      assert Flatten(a)[n..][0] == Flatten(a)[n];
      assert Ahead(side, a[0].px, a[1].px);
    }
  }

  /** Two proper ladders with the same flat side are the same, level by level. */
  lemma {:induction false} FlattenInjective(side: Side, a: seq<Level>, b: seq<Level>)
    requires Proper(side, a) && Proper(side, b) && Flatten(a) == Flatten(b)
    ensures a == b
  {
    if a != [] { FlattenFront(a); }
    if b != [] { FlattenFront(b); }
    if a == [] {
    } else {
      FirstNotLonger(side, a, b);
      FirstNotLonger(side, b, a);
      FlattenTail(a);
      FlattenTail(b);
      forall k | 0 <= k < |a[0].orders| ensures a[0].orders[k] == b[0].orders[k] {
        assert Priced(a[0].px, a[0].orders[k]) == Flatten(a)[k] == Priced(b[0].px, b[0].orders[k]);
      }
      assert a[0].orders == b[0].orders;
      FlattenInjective(side, a[1..], b[1..]);
      assert a == [a[0]] + a[1..] && b == [b[0]] + b[1..];
    }
  }

  /** Removing what was just inserted restores the ladder exactly, levels included, whatever
      levels the two operations opened and closed in between. */
  lemma LadderRestored(side: Side, l: seq<Level>, l': seq<Level>, px: int, r: Rest)
    requires Proper(side, l) && Proper(side, l') && r.id !in Ids(Flatten(l))
    requires Flatten(l') == Remove(Insert(side, Flatten(l), Priced(px, r)), px, r.id)
    ensures l' == l
  {
    RemoveUndoesInsert(side, Flatten(l), Priced(px, r));
    FlattenInjective(side, l, l');
  }

  // ----- crossing quantity, level by level -----

  lemma {:induction false} CrossConcat(t: Taker, a: seq<Order>, b: seq<Order>)
    ensures CrossQty(t, a + b) == CrossQty(t, a) + CrossQty(t, b)
  {
    if a == [] {
      assert a + b == b;
    } else {
      var ea, eab := Eligible(NoPolicy, t, a[1..]), Eligible(NoPolicy, t, a[1..] + b);
      assert (a + b)[1..] == a[1..] + b;
      CrossConcat(t, a[1..], b);
      assert ([a[0]] + ea)[1..] == ea && ([a[0]] + eab)[1..] == eab && [] + ea == ea && [] + eab == eab;
    }
  }

  function QueueQty(q: seq<Rest>): int {
    if q == [] then 0 else q[0].qty + QueueQty(q[1..])
  }

  lemma {:induction false} QueueCross(t: Taker, px: int, q: seq<Rest>)
    ensures CrossQty(t, At(px, q)) == if Crosses(t, px) then QueueQty(q) else 0
  {
    if q == [] {
    } else {
      AtFront(px, q);
      QueueCross(t, px, q[1..]);
      CrossConcat(t, [Priced(px, q[0])], At(px, q[1..]));
      assert Eligible(NoPolicy, t, [Priced(px, q[0])]) == if Crosses(t, px) then [Priced(px, q[0])] else [];
    }
  }

  /** The crossing quantity of a ladder is that of its first level plus the rest. */
  lemma CrossFront(t: Taker, l: seq<Level>)
    requires l != []
    ensures CrossQty(t, Flatten(l)) ==
            (if Crosses(t, l[0].px) then QueueQty(l[0].orders) else 0) + CrossQty(t, Flatten(l[1..]))
  {
    CrossConcat(t, At(l[0].px, l[0].orders), Flatten(l[1..]));
    QueueCross(t, l[0].px, l[0].orders);
  }

  /** Beyond the first level that does not cross, nothing crosses. */
  lemma {:induction false} CrossNone(t: Taker, l: seq<Level>)
    requires Proper(Against(t.side), l) && (l != [] ==> !Crosses(t, l[0].px))
    ensures CrossQty(t, Flatten(l)) == 0
  {
    if l == [] {
    } else {
      if |l| > 1 { assert Ahead(Against(t.side), l[0].px, l[1].px); }
      CrossNone(t, l[1..]);
      CrossFront(t, l);
    }
  }

  ghost predicate PositiveLevels(l: seq<Level>) {
    forall i, j | 0 <= i < |l| && 0 <= j < |l[i].orders| :: l[i].orders[j].qty > 0
  }

  lemma {:induction false} FlattenPositive(l: seq<Level>)
    requires Positive(Flatten(l))
    ensures PositiveLevels(l)
  {
    if l == [] {
    } else {
      var f := Flatten(l);
      assert forall j | 0 <= j < |l[0].orders| :: f[j] == Priced(l[0].px, l[0].orders[j]);
      assert Flatten(l[1..]) == f[|l[0].orders|..];
      FlattenPositive(l[1..]);
      forall i, j | 0 <= i < |l| && 0 <= j < |l[i].orders| ensures l[i].orders[j].qty > 0 {
        if i > 0 { assert l[1..][i - 1] == l[i]; }
      }
    }
  }

  lemma {:induction false} QueueNonneg(q: seq<Rest>)
    requires forall j | 0 <= j < |q| :: q[j].qty > 0
    ensures QueueQty(q) >= 0
  {
    if q == [] {
    } else {
      QueueNonneg(q[1..]);
    }
  }

  lemma {:induction false} CrossNonneg(t: Taker, l: seq<Level>)
    requires PositiveLevels(l)
    ensures CrossQty(t, Flatten(l)) >= 0
  {
    if l == [] {
    } else {
      CrossFront(t, l);
      QueueNonneg(l[0].orders);
      assert forall i, j | 0 <= i < |l[1..]| && 0 <= j < |l[1..][i].orders| ::
          l[1..][i].orders[j] == l[i + 1].orders[j];
      CrossNonneg(t, l[1..]);
    }
  }

  /** One level of the walk from position `i`. */
  lemma CrossWalk(t: Taker, l: seq<Level>, i: nat)
    requires PositiveLevels(l) && i < |l|
    ensures CrossQty(t, Flatten(l[i..])) ==
            (if Crosses(t, l[i].px) then QueueQty(l[i].orders) else 0) + CrossQty(t, Flatten(l[i + 1..]))
    ensures CrossQty(t, Flatten(l[i + 1..])) >= 0
    ensures Proper(Against(t.side), l) && !Crosses(t, l[i].px) ==> CrossQty(t, Flatten(l[i..])) == 0
  {
    assert l[i..][0] == l[i] && l[i..][1..] == l[i + 1..];
    CrossFront(t, l[i..]);
    var rest := l[i + 1..];
    assert forall a | 0 <= a < |rest| :: rest[a] == l[i + 1 + a];
    CrossNonneg(t, rest);
    if Proper(Against(t.side), l) && !Crosses(t, l[i].px) { CrossNone(t, l[i..]); }
  }
}
