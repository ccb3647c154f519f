// The Go engine's id index: when it agrees with the book, what that means for
// cancels, and exactly which request breaks it.
module GoIndex {
  import opened Flat
  import opened MatchLaws
  import opened SideLaws
  import opened Books
  import opened Wire
  import opened GoRules

  /** Ids on this side are distinct and indexed at their true side, price and client. */
  ghost predicate Indexed(idx: map<Id, Loc>, side: Side, s: seq<Order>) {
    && DistinctIds(s)
    && forall o | o in s :: o.id in idx && idx[o.id] == Loc(side, o.px, o.client)
  }

  /** The index maps exactly the resting ids to where they rest. */
  ghost predicate IndexExact(b: Book, idx: map<Id, Loc>) {
    && Indexed(idx, Buy, b.bids) && Indexed(idx, Sell, b.asks)
    && idx.Keys == Ids(b.bids) + Ids(b.asks)
  }

  lemma DistinctSplit(s: seq<Order>, n: nat)
    requires DistinctIds(s) && n <= |s|
    ensures Ids(s[n..]) == Ids(s) - Ids(s[..n])
  {
    forall o | o in s[n..] ensures o.id in Ids(s) && o.id !in Ids(s[..n]) {
      var j :| 0 <= j < |s| - n && s[n..][j] == o;
      assert s[n + j] == o && o in s;
    }
  }

  lemma IndexedTail(idx: map<Id, Loc>, side: Side, policy: Policy, t: Taker, s: seq<Order>, r: Outcome)
    requires Indexed(idx, side, s) && Leaves(policy, t, s, r)
    ensures Indexed(idx - r.gone, side, r.book) && Ids(r.book) == Ids(s) - r.gone
  {
    var n := |s| - |r.book|;
    assert forall i | 0 <= i < |r.book| :: r.book[i] == s[n + i].(qty := r.book[i].qty);
    DistinctSplit(s, n);
    assert Ids(r.book) == Ids(s[n..]) by {
      forall i | 0 <= i < |r.book| ensures r.book[i].id == s[n..][i].id && r.book[i] in r.book && s[n..][i] in s[n..] {}
    }
    forall o | o in r.book ensures o.id in idx && idx[o.id] == Loc(side, o.px, o.client) && o.id in Ids(r.book) {
      var i :| 0 <= i < |r.book| && r.book[i] == o;
      assert s[n + i] in s;
    }
  }

  lemma SidesDisjoint(b: Book, idx: map<Id, Loc>)
    requires Indexed(idx, Buy, b.bids) && Indexed(idx, Sell, b.asks)
    ensures Ids(b.bids) !! Ids(b.asks)
  {
    forall x | x in Ids(b.bids) ensures x !in Ids(b.asks) {
      assert idx[x].side.Buy?;
    }
  }

  /** Entries of other orders do not matter to a side. */
  lemma {:induction false} IndexedElsewhere(idx: map<Id, Loc>, idx': map<Id, Loc>, side: Side, s: seq<Order>)
    requires Indexed(idx, side, s)
    requires forall x | x in Ids(s) :: x in idx' && idx'[x] == idx[x]
    ensures Indexed(idx', side, s)
  {
    forall o | o in s ensures o.id in idx' && idx'[o.id] == Loc(side, o.px, o.client) {
      assert o.id in Ids(s);
    }
  }

  lemma IndexTrade(b: Book, idx: map<Id, Loc>, policy: Policy, t: Taker, m: Outcome)
    requires IndexExact(b, idx) && Leaves(policy, t, Opposite(b, t.side), m)
    ensures IndexExact(WithOpposite(b, t.side, m.book), idx - m.gone)
  {
    var s := Opposite(b, t.side);
    SidesDisjoint(b, idx);
    IndexedTail(idx, Against(t.side), policy, t, s, m);
    assert m.gone <= Ids(s);
    if t.side.Buy? {
      IndexedElsewhere(idx, idx - m.gone, Buy, b.bids);
    } else {
      IndexedElsewhere(idx, idx - m.gone, Sell, b.asks);
    }
  }

  lemma DistinctCons(o: Order, s: seq<Order>)
    ensures DistinctIds([o] + s) <==> o.id !in Ids(s) && DistinctIds(s)
  {
    var r := [o] + s;
    if DistinctIds(r) {
      forall i | 0 <= i < |s| ensures s[i].id != o.id { assert r[0].id != r[i + 1].id; }
      forall i, j | 0 <= i < j < |s| ensures s[i].id != s[j].id { assert r[i + 1].id != r[j + 1].id; }
    } else if o.id !in Ids(s) {
      var i, j :| 0 <= i < j < |r| && r[i].id == r[j].id;
      assert r[j] in s;
      assert i > 0 && s[i - 1].id == s[j - 1].id;
    }
  }

  lemma {:induction false} InsertDistinct(side: Side, s: seq<Order>, o: Order)
    requires DistinctIds(s)
    ensures DistinctIds(Insert(side, s, o)) <==> o.id !in Ids(s)
  {
    if s == [] || Ahead(side, o.px, s[0].px) {
      DistinctCons(o, s);
    } else {
      assert s == [s[0]] + s[1..];
      DistinctCons(s[0], s[1..]);
      InsertDistinct(side, s[1..], o);
      DistinctCons(s[0], Insert(side, s[1..], o));
      InsertMembers(side, s[1..], o);
    }
  }

  lemma IndexedInsert(idx: map<Id, Loc>, side: Side, s: seq<Order>, o: Order)
    requires Indexed(idx, side, s) && o.id !in idx
    ensures Indexed(idx[o.id := Loc(side, o.px, o.client)], side, Insert(side, s, o))
  {
    InsertDistinct(side, s, o);
    InsertMembers(side, s, o);
  }

  /** Resting an order keeps the index exact if and only if its id is not resting. */
  lemma IndexRest(b: Book, idx: map<Id, Loc>, side: Side, o: Order)
    requires IndexExact(b, idx) && !side.OtherSide?
    ensures IndexExact(Rested(b, side, o), idx[o.id := Loc(side, o.px, o.client)]) <==> o.id !in idx
  {
    var own, other := Opposite(b, Against(side)), Opposite(b, side);
    var idx1 := idx[o.id := Loc(side, o.px, o.client)];
    InsertMembers(side, own, o);
    if o.id in Ids(own) {
      InsertDistinct(side, own, o);
    } else if o.id in Ids(other) {
      var a :| a in other && a.id == o.id;
      assert idx1[a.id].side == side;
    } else {
      IndexedInsert(idx, side, own, o);
      IndexedElsewhere(idx, idx1, Against(side), other);
    }
  }

  lemma FindById(s: seq<Order>, o: Order)
    requires DistinctIds(s) && o in s
    ensures Find(s, o.px, o.id) < |s| && s[Find(s, o.px, o.id)] == o
  {
    FindFirst(s, o.px, o.id);
    var j :| 0 <= j < |s| && s[j] == o;
  }

  lemma {:induction false} RemoveDistinct(s: seq<Order>, o: Order)
    requires DistinctIds(s) && o in s
    ensures DistinctIds(Remove(s, o.px, o.id)) && Ids(Remove(s, o.px, o.id)) == Ids(s) - {o.id}
  {
    assert s == [s[0]] + s[1..];
    DistinctCons(s[0], s[1..]);
    assert Ids(s) == {s[0].id} + Ids(s[1..]);
    if s[0] != o {
      assert o in s[1..];
      RemoveDistinct(s[1..], o);
      var r := Remove(s[1..], o.px, o.id);
      DistinctCons(s[0], r);
      assert Ids([s[0]] + r) == {s[0].id} + Ids(r);
    }
  }

  lemma IndexedRemove(idx: map<Id, Loc>, side: Side, s: seq<Order>, o: Order)
    requires Indexed(idx, side, s) && o in s
    ensures Indexed(idx - {o.id}, side, Remove(s, o.px, o.id))
    ensures Ids(Remove(s, o.px, o.id)) == Ids(s) - {o.id}
  {
    RemoveDistinct(s, o);
    RemoveMembers(s, o.px, o.id);
    forall a | a in Remove(s, o.px, o.id) ensures a.id in idx - {o.id} {
      assert a.id in Ids(s) - {o.id};
    }
  }

  /** Cancelling an indexed order keeps the index exact. */
  lemma IndexCancel(b: Book, idx: map<Id, Loc>, id: Id)
    requires IndexExact(b, idx) && id in idx
    ensures IndexExact(Cancelled(b, idx[id].side, idx[id].px, id), idx - {id})
  {
    SidesDisjoint(b, idx);
    if id in Ids(b.bids) {
      var o :| o in b.bids && o.id == id;
      IndexedRemove(idx, Buy, b.bids, o);
      IndexedElsewhere(idx, idx - {id}, Sell, b.asks);
    } else {
      var o :| o in b.asks && o.id == id;
      IndexedRemove(idx, Sell, b.asks, o);
      IndexedElsewhere(idx, idx - {id}, Buy, b.bids);
    }
  }

  // ----- steps -----

  /** The request comes to rest, after trading, while its id rests already. */
  predicate RestsOnUsedId(policy: Policy, s: State, q: Request) {
    Trades(s, q) && MayRest(q) &&
    var m := Trading(policy, s.book, q);
    !m.stopped && m.rem > 0 && q.id in s.idx.Keys - m.gone
  }

  /** The exact condition for one step to keep the index in agreement with the book. */
  lemma StepIndex(policy: Policy, s: State, q: Request)
    requires Shape(s.book) && IndexExact(s.book, s.idx)
    ensures var s' := Step(policy, s, q).0;
            IndexExact(s'.book, s'.idx) <==> !RestsOnUsedId(policy, s, q)
  {
    if q.kind.Cancel? {
      if q.target in s.idx { IndexCancel(s.book, s.idx, q.target); }
    } else if Trades(s, q) {
      var m := Trading(policy, s.book, q);
      var t := TakerOf(q);
      TradingLeaves(policy, s.book, q);
      IndexTrade(s.book, s.idx, policy, t, m);
      if MayRest(q) && !m.stopped && m.rem > 0 {
        IndexRest(WithOpposite(s.book, q.side, m.book), s.idx - m.gone, q.side, Order(q.id, q.client, q.px, m.rem));
      }
    }
  }

  /** Every id that may come to rest is given, and issued by one client only. */
  ghost predicate OneClientPerId(owner: Id -> Id, qs: seq<Request>) {
    forall q | q in qs && MayRest(q) :: q.id.Some? && q.client == owner(q.id)
  }

  ghost predicate Tracked(owner: Id -> Id, s: State) {
    forall o | o in s.book.bids + s.book.asks :: o.id.Some? && o.client == owner(o.id) && (o.client, o.id) in s.seen
  }

  lemma StepTracked(owner: Id -> Id, policy: Policy, s: State, q: Request)
    requires Shape(s.book) && Tracked(owner, s) && (MayRest(q) ==> q.id.Some? && q.client == owner(q.id))
    ensures Tracked(owner, Step(policy, s, q).0)
  {
    var s' := Step(policy, s, q).0;
    if q.kind.Cancel? {
      if q.target in s.idx {
        RemoveMembers(s.book.bids, s.idx[q.target].px, q.target);
        RemoveMembers(s.book.asks, s.idx[q.target].px, q.target);
      }
    } else if Trades(s, q) {
      var m := Trading(policy, s.book, q);
      var o := Order(q.id, q.client, q.px, m.rem);
      TradingLeaves(policy, s.book, q);
      var b1 := WithOpposite(s.book, q.side, m.book);
      LeavesMembers(policy, TakerOf(q), Opposite(s.book, q.side), m);
      assert Tracked(owner, s.(book := b1));
      if MayRest(q) && !m.stopped && m.rem > 0 {
        InsertMembers(if q.side.Buy? then Buy else Sell, if q.side.Buy? then b1.bids else b1.asks, o);
      }
    }
  }

  lemma FreshNotResting(owner: Id -> Id, policy: Policy, s: State, q: Request)
    requires Tracked(owner, s) && IndexExact(s.book, s.idx)
    requires MayRest(q) ==> q.id.Some? && q.client == owner(q.id)
    ensures !RestsOnUsedId(policy, s, q)
  {
    if MayRest(q) && q.id in s.idx {
      var o :| o in s.book.bids + s.book.asks && o.id == q.id;
      assert (q.client, q.id) in s.seen;
    }
  }

  /** When each order id is issued by one client, the index is exact in every
      reachable state, whatever else the run contains. */
  lemma {:induction false} RunIndex(owner: Id -> Id, policy: Policy, qs: seq<Request>)
    requires OneClientPerId(owner, qs)
    ensures var s := Run(policy, INITIAL, qs);
            IndexExact(s.book, s.idx) && Tracked(owner, s)
    decreases |qs|
  {
    if qs == [] {
    } else {
      var n := |qs| - 1;
      var s, q := Run(policy, INITIAL, qs[..n]), qs[n];
      assert q in qs;
      RunIndex(owner, policy, qs[..n]);
      RunShape(policy, qs[..n]);
      StepTracked(owner, policy, s, q);
      StepIndex(policy, s, q);
      FreshNotResting(owner, policy, s, q);
    }
  }

  /** With an exact index, a cancel is acknowledged if and only if its target rests. */
  lemma CancelAcked(policy: Policy, s: State, q: Request)
    requires IndexExact(s.book, s.idx) && q.kind.Cancel?
    ensures var (s', r) := Step(policy, s, q);
            && (r.ack.status == CancelledAck <==> q.target in Ids(s.book.bids) + Ids(s.book.asks))
            && (r.ack.status != CancelledAck ==> s' == s)
  {}

  /** A cancel removes its target, wherever it rests, and no other order. */
  lemma CancelExact(policy: Policy, s: State, q: Request, side: Side, k: nat)
    requires IndexExact(s.book, s.idx) && q.kind.Cancel?
    requires var l := Opposite(s.book, side); k < |l| && l[k].id == q.target
    ensures var l := Opposite(s.book, side);
            Step(policy, s, q).0.book == WithOpposite(s.book, side, l[..k] + l[k + 1..])
  {
    var l := Opposite(s.book, side);
    FindById(l, l[k]);
    RemoveAt(l, l[k].px, l[k].id);
  }

  /** A limit order that meets an empty opposite side just rests. */
  lemma RestsAlone(policy: Policy, s: State, q: Request)
    requires Trades(s, q) && q.kind.Limit? && Opposite(s.book, q.side) == []
    ensures var s' := Step(policy, s, q).0;
            && s'.book == Rested(s.book, q.side, Order(q.id, q.client, q.px, q.qty))
            && s'.idx == s.idx[q.id := Loc(q.side, q.px, q.client)]
            && s'.seen == Noted(s, q).seen
  {
    assert s.idx - {} == s.idx;
  }

  lemma QtyNew(b: Book, side: Side, o: Order)
    requires o.id !in Ids(b.bids) + Ids(b.asks)
    ensures RestingQty(b, o.id) == 0 && RestingQty(Rested(b, side, o), o.id) == o.qty
  {
    QtyAbsent(b.bids, o.id);
    QtyAbsent(b.asks, o.id);
    QtyOfInsert(Buy, b.bids, o, o.id);
    QtyOfInsert(Sell, b.asks, o, o.id);
  }

  /** Of an order that may rest, "accepted" and "partial" mean alive with a remainder. */
  lemma StatusAlive(q: Request, stopped: bool, rem: int)
    requires q.qty > 0 && 0 <= rem <= q.qty && !q.kind.Modify? && !q.kind.OtherKind? && !q.kind.Cancel?
    ensures var a := AckOf(q, stopped, rem);
            (a.status.Accepted? || a.status.Partial? <==> MayRest(q) && !stopped && rem > 0)
              && (MayRest(q) ==> a.rem == rem)
  {}

  lemma TradingRem(policy: Policy, b: Book, q: Request)
    requires Shape(b) && q.qty > 0
    ensures 0 <= Trading(policy, b, q).rem <= q.qty
  {
    OppositeShape(b, q.side);
    MatchExhausts(policy, TakerOf(q), q.qty, Opposite(b, q.side));
  }

  lemma TradingLeavesNew(policy: Policy, s: State, q: Request)
    requires Shape(s.book) && IndexExact(s.book, s.idx) && q.id !in s.idx && q.qty >= 0
    ensures var b1 := WithOpposite(s.book, q.side, Trading(policy, s.book, q).book);
            q.id !in Ids(b1.bids) + Ids(b1.asks)
  {
    TradingLeaves(policy, s.book, q);
    IndexTrade(s.book, s.idx, policy, TakerOf(q), Trading(policy, s.book, q));
  }

  /** What an ack promises: a new order acked as accepted or partial rests where it was
      sent with the acked remainder, and after any other ack nothing rests under its id. */
  lemma AckedRests(policy: Policy, s: State, q: Request)
    requires Shape(s.book) && IndexExact(s.book, s.idx) && q.id !in s.idx
    requires Trades(s, q) && !q.kind.Modify? && !q.kind.OtherKind?
    ensures var (s', r) := Step(policy, s, q);
            && (q.id in s'.idx <==> r.ack.status.Accepted? || r.ack.status.Partial?)
            && (q.id in s'.idx ==>
                  s'.idx[q.id] == Loc(q.side, q.px, q.client) && RestingQty(s'.book, q.id) == r.ack.rem > 0)
            && (q.id !in s'.idx ==> RestingQty(s'.book, q.id) == 0)
  {
    var m := Trading(policy, s.book, q);
    TradingRem(policy, s.book, q);
    TradingLeavesNew(policy, s, q);
    StatusAlive(q, m.stopped, m.rem);
    QtyNew(WithOpposite(s.book, q.side, m.book), q.side, Order(q.id, q.client, q.px, m.rem));
  }

  /** Two clients sharing id 7: both orders rest, one index entry is left, and after
      one cancel the other order rests where no cancel can reach it. */
  lemma SharedIdBreaksIndex(policy: Policy)
    ensures var a := Request(Some(7), Some(1), Sell, Limit, 100, 5, None);
            var b := Request(Some(7), Some(2), Sell, Limit, 200, 5, None);
            var c := Request(Some(8), Some(2), Sell, Cancel, 0, 0, Some(7));
            var s := Run(policy, INITIAL, [a, b, c]);
            && s.book.asks == [Order(Some(7), Some(1), 100, 5)]
            && Step(policy, s, c).1.ack.status == CancelMiss
  {
    var a := Request(Some(7), Some(1), Sell, Limit, 100, 5, None);
    var b := Request(Some(7), Some(2), Sell, Limit, 200, 5, None);
    var c := Request(Some(8), Some(2), Sell, Cancel, 0, 0, Some(7));
    var oa, ob := Order(Some(7), Some(1), 100, 5), Order(Some(7), Some(2), 200, 5);
    assert [a, b, c][..2] == [a, b] && [a, b][..1] == [a] && [a][..0] == [];
    assert Run(policy, INITIAL, []) == INITIAL;
    var s1 := Step(policy, INITIAL, a).0;
    RestsAlone(policy, INITIAL, a);
    assert s1.book == Book([], [oa]);
    var s2 := Step(policy, s1, b).0;
    RestsAlone(policy, s1, b);
    assert [oa][1..] == [];
    assert s2.book == Book([], [oa, ob]);
    assert [oa, ob][1..] == [ob];
    assert Run(policy, INITIAL, [a]) == s1 && Run(policy, INITIAL, [a, b]) == s2;
    assert Find([oa, ob], 200, Some(7)) == 1;
  }
}
