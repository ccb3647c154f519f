// Price-time priority over whole runs of the Go engine, with arrival read off the
// run itself: the number of the request that brought an order to rest.
module GoPriority {
  import opened Flat
  import opened MatchLaws
  import opened SideLaws
  import opened Books
  import opened Wire
  import opened GoRules
  import opened GoIndex

  type Clock = map<Id, int>

  predicate ComesToRest(policy: Policy, s: State, q: Request) {
    Trades(s, q) && MayRest(q) &&
    var m := Trading(policy, s.book, q); !m.stopped && m.rem > 0
  }

  /** The request number at which each id last came to rest. */
  function Arrivals(policy: Policy, qs: seq<Request>): Clock
    decreases |qs|
  {
    if qs == [] then map[]
    else
      var n := |qs| - 1;
      var c := Arrivals(policy, qs[..n]);
      if ComesToRest(policy, Run(policy, INITIAL, qs[..n]), qs[n]) then c[qs[n].id := n] else c
  }

  /** `a` has priority over `b`: a better price, or the same price and an earlier arrival. */
  ghost predicate Before(side: Side, c: Clock, a: Order, b: Order) {
    Ahead(side, a.px, b.px) || (a.px == b.px && a.id in c && b.id in c && c[a.id] < c[b.id])
  }

  /** The side lists its orders in price-time priority, all arrived before `now`. */
  ghost predicate Prioritized(side: Side, c: Clock, now: int, s: seq<Order>) {
    && (forall i | 0 <= i < |s| :: s[i].id in c && c[s[i].id] < now)
    && (forall i, j | 0 <= i < j < |s| :: Before(side, c, s[i], s[j]))
  }

  lemma PrioritizedTail(side: Side, c: Clock, now: int, policy: Policy, t: Taker, s: seq<Order>, r: Outcome)
    requires Prioritized(side, c, now, s) && Leaves(policy, t, s, r)
    ensures Prioritized(side, c, now, r.book)
  {
    var n := |s| - |r.book|;
    assert forall i | 0 <= i < |r.book| :: r.book[i].id == s[n + i].id && r.book[i].px == s[n + i].px;
    forall i, j | 0 <= i < j < |r.book| ensures Before(side, c, r.book[i], r.book[j]) {
      assert Before(side, c, s[n + i], s[n + j]);
    }
  }

  lemma PrioritizedRemove(side: Side, c: Clock, now: int, s: seq<Order>, px: int, id: Id)
    requires Prioritized(side, c, now, s)
    ensures Prioritized(side, c, now, Remove(s, px, id))
  {
    RemoveAt(s, px, id);
    var k, r := Find(s, px, id), Remove(s, px, id);
    forall i | 0 <= i < |r| ensures r[i] == s[if i < k then i else i + 1] {}
    forall i, j | 0 <= i < j < |r| ensures Before(side, c, r[i], r[j]) {
      assert Before(side, c, s[if i < k then i else i + 1], s[if j < k then j else j + 1]);
    }
  }

  lemma {:induction false} PrioritizedCons(side: Side, c: Clock, now: int, o: Order, s: seq<Order>)
    requires Prioritized(side, c, now, s) && o.id in c && c[o.id] < now
    requires forall b | b in s :: Before(side, c, o, b)
    ensures Prioritized(side, c, now, [o] + s)
  {
    var r := [o] + s;
    forall i, j | 0 <= i < j < |r| ensures Before(side, c, r[i], r[j]) {
      if i == 0 { assert r[j] in s; } else { assert Before(side, c, s[i - 1], s[j - 1]); }
    }
  }

  /** The newest arrival queues last among equal prices. */
  lemma {:induction false} PrioritizedInsert(side: Side, c: Clock, now: int, s: seq<Order>, o: Order)
    requires Prioritized(side, c, now, s) && o.id in c && c[o.id] == now
    ensures Prioritized(side, c, now + 1, Insert(side, s, o))
  {
    if s == [] || Ahead(side, o.px, s[0].px) {
      forall j | 0 <= j < |s| ensures Before(side, c, o, s[j]) {
        assert j > 0 ==> Before(side, c, s[0], s[j]);
      }
      PrioritizedCons(side, c, now + 1, o, s);
    } else {
      PrioritizedInsert(side, c, now, s[1..], o);
      InsertMembers(side, s[1..], o);
      assert Before(side, c, s[0], o);
      forall j | 0 <= j < |s[1..]| ensures Before(side, c, s[0], s[1..][j]) {
        assert Before(side, c, s[0], s[j + 1]);
      }
      PrioritizedCons(side, c, now + 1, s[0], Insert(side, s[1..], o));
    }
  }

  ghost predicate TimePriority(c: Clock, now: int, b: Book) {
    Prioritized(Buy, c, now, b.bids) && Prioritized(Sell, c, now, b.asks)
  }

  lemma PrioritizedLater(side: Side, c: Clock, now: int, s: seq<Order>, id: Id)
    requires Prioritized(side, c, now, s) && id !in Ids(s)
    ensures Prioritized(side, c[id := now], now, s)
  {
    assert forall i | 0 <= i < |s| :: s[i] in s && s[i].id != id;
    forall i, j | 0 <= i < j < |s| ensures Before(side, c[id := now], s[i], s[j]) {
      assert Before(side, c, s[i], s[j]);
    }
  }

  lemma TradePriority(policy: Policy, s: State, q: Request, c: Clock, now: int)
    requires Shape(s.book) && TimePriority(c, now, s.book) && Trades(s, q)
    ensures TimePriority(c, now, WithOpposite(s.book, q.side, Trading(policy, s.book, q).book))
  {
    TradingLeaves(policy, s.book, q);
    PrioritizedTail(Against(q.side), c, now, policy, TakerOf(q), Opposite(s.book, q.side), Trading(policy, s.book, q));
  }

  lemma RestPriority(b: Book, side: Side, o: Order, c: Clock, now: int)
    requires TimePriority(c, now, b) && o.id !in Ids(b.bids) + Ids(b.asks) && !side.OtherSide?
    ensures TimePriority(c[o.id := now], now + 1, Rested(b, side, o))
  {
    PrioritizedLater(Buy, c, now, b.bids, o.id);
    PrioritizedLater(Sell, c, now, b.asks, o.id);
    PrioritizedInsert(side, c[o.id := now], now, Opposite(b, Against(side)), o);
  }

  lemma CancelPriority(b: Book, side: Side, px: int, id: Id, c: Clock, now: int)
    requires TimePriority(c, now, b)
    ensures TimePriority(c, now, Cancelled(b, side, px, id))
  {
    PrioritizedRemove(Buy, c, now, b.bids, px, id);
    PrioritizedRemove(Sell, c, now, b.asks, px, id);
  }

  lemma PriorityLater(c: Clock, now: int, b: Book)
    requires TimePriority(c, now, b)
    ensures TimePriority(c, now + 1, b)
  {}

  lemma SettlePriority(policy: Policy, s: State, q: Request, c: Clock, now: int)
    requires Shape(s.book) && IndexExact(s.book, s.idx) && TimePriority(c, now, s.book)
    requires ComesToRest(policy, s, q) && !RestsOnUsedId(policy, s, q)
    ensures TimePriority(c[q.id := now], now + 1, Settle(s.book, TakerOf(q), Trading(policy, s.book, q), true))
  {
    var m := Trading(policy, s.book, q);
    TradePriority(policy, s, q, c, now);
    TradingLeaves(policy, s.book, q);
    IndexTrade(s.book, s.idx, policy, TakerOf(q), m);
    RestPriority(WithOpposite(s.book, q.side, m.book), q.side, Order(q.id, q.client, q.px, m.rem), c, now);
  }

  lemma StepPriority(policy: Policy, s: State, q: Request, c: Clock, now: int)
    requires Shape(s.book) && IndexExact(s.book, s.idx) && TimePriority(c, now, s.book)
    requires !RestsOnUsedId(policy, s, q)
    ensures TimePriority(if ComesToRest(policy, s, q) then c[q.id := now] else c, now + 1, Step(policy, s, q).0.book)
  {
    PriorityLater(c, now, s.book);
    if q.kind.Cancel? {
      if q.target in s.idx { CancelPriority(s.book, s.idx[q.target].side, s.idx[q.target].px, q.target, c, now + 1); }
    } else if ComesToRest(policy, s, q) {
      SettlePriority(policy, s, q, c, now);
    } else if Trades(s, q) {
      TradePriority(policy, s, q, c, now + 1);
    }
  }

  /** In every reachable state each side lists its orders by price and then by arrival. */
  lemma {:induction false} RunPriority(owner: Id -> Id, policy: Policy, qs: seq<Request>)
    requires OneClientPerId(owner, qs)
    ensures TimePriority(Arrivals(policy, qs), |qs|, Run(policy, INITIAL, qs).book)
    decreases |qs|
  {
    if qs == [] {
    } else {
      var n := |qs| - 1;
      var s, q := Run(policy, INITIAL, qs[..n]), qs[n];
      RunPriority(owner, policy, qs[..n]);
      RunShape(policy, qs[..n]);
      RunIndex(owner, policy, qs[..n]);
      assert q in qs;
      FreshNotResting(owner, policy, s, q);
      StepPriority(policy, s, q, Arrivals(policy, qs[..n]), n);
    }
  }

  lemma BeforeInList(side: Side, c: Clock, now: int, l: seq<Order>, a: Order, b: Order) returns (i: nat, j: nat)
    requires Prioritized(side, c, now, l) && a in l && b in l && Before(side, c, a, b)
    ensures i < j < |l| && l[i] == a && l[j] == b
  {
    i :| 0 <= i < |l| && l[i] == a;
    j :| 0 <= j < |l| && l[j] == b;
    assert j < i ==> Before(side, c, l[j], l[i]);
  }

  /** A resting id cannot come to rest again. */
  lemma RestingIdRefused(owner: Id -> Id, s: State, q: Request)
    requires Tracked(owner, s) && IndexExact(s.book, s.idx) && q.id in s.idx
    requires MayRest(q) && q.client == owner(q.id)
    ensures !Trades(s, q)
  {
    var o :| o in s.book.bids + s.book.asks && o.id == q.id;
    assert (q.client, q.id) in s.seen;
  }

  lemma TradedThroughGone(policy: Policy, s: State, q: Request, i: nat, j: nat, f: Fill)
    requires Shape(s.book) && IndexExact(s.book, s.idx) && q.qty >= 0
    requires i < j < |Opposite(s.book, q.side)| && f.maker == Opposite(s.book, q.side)[j].id
    requires f in Trading(policy, s.book, q).fills
    ensures Opposite(s.book, q.side)[i].id in Trading(policy, s.book, q).gone
  {
    var l, m := Opposite(s.book, q.side), Trading(policy, s.book, q);
    OppositeShape(s.book, q.side);
    NoTradeThrough(policy, TakerOf(q), q.qty, l, i, j, f);
    MatchLeaves(policy, TakerOf(q), q.qty, l);
    IndexedTail(s.idx, Against(q.side), policy, TakerOf(q), l, m);
    assert l[i] in l;
  }

  lemma StepNoTradeThrough(policy: Policy, s: State, q: Request, c: Clock, now: int, a: Order, b: Order, f: Fill)
    requires Shape(s.book) && IndexExact(s.book, s.idx) && TimePriority(c, now, s.book) && Trades(s, q)
    requires a in Opposite(s.book, q.side) && b in Opposite(s.book, q.side) && Before(Against(q.side), c, a, b)
    requires f in Trading(policy, s.book, q).fills && f.maker == b.id
    ensures a.id in Trading(policy, s.book, q).gone && a.id in s.idx
  {
    var i, j := BeforeInList(Against(q.side), c, now, Opposite(s.book, q.side), a, b);
    TradedThroughGone(policy, s, q, i, j, f);
  }

  /** Order `b` trades as maker when `q` is submitted, and `a` had priority over it. */
  ghost predicate TradesBehind(policy: Policy, s: State, c: Clock, q: Request, a: Order, b: Order) {
    && a in Opposite(s.book, q.side) && b in Opposite(s.book, q.side) && Before(Against(q.side), c, a, b)
    && exists f :: f in Step(policy, s, q).1.fills && f.fill.maker == b.id
  }

  lemma StepFillsFrom(policy: Policy, s: State, q: Request, x: Id) returns (f: Fill)
    requires exists r :: r in Step(policy, s, q).1.fills && r.fill.maker == x
    ensures Trades(s, q) && f in Trading(policy, s.book, q).fills && f.maker == x
  {
    var r :| r in Step(policy, s, q).1.fills && r.fill.maker == x;
    f := r.fill;
    assert r in Number(s.fillSeq, Trading(policy, s.book, q).fills);
  }

  lemma GoneUnindexed(policy: Policy, s: State, q: Request, id: Id)
    requires Trades(s, q) && id in Trading(policy, s.book, q).gone && (MayRest(q) ==> q.id != id)
    ensures id !in Step(policy, s, q).0.idx
  {}

  lemma StepClears(owner: Id -> Id, policy: Policy, s: State, c: Clock, now: int, q: Request, a: Order, b: Order)
    requires Shape(s.book) && IndexExact(s.book, s.idx) && Tracked(owner, s) && TimePriority(c, now, s.book)
    requires MayRest(q) ==> q.client == owner(q.id)
    requires TradesBehind(policy, s, c, q, a, b)
    ensures a.id !in Step(policy, s, q).0.idx
  {
    var f := StepFillsFrom(policy, s, q, b.id);
    StepNoTradeThrough(policy, s, q, c, now, a, b, f);
    if MayRest(q) && q.id in s.idx { RestingIdRefused(owner, s, q); }
    GoneUnindexed(policy, s, q, a.id);
  }

  /** No trade-through over whole runs: when an order trades as maker, every order
      that had priority over it, by price or by arrival, is gone after the step. */
  lemma RunNoTradeThrough(owner: Id -> Id, policy: Policy, qs: seq<Request>, q: Request, a: Order, b: Order)
    requires OneClientPerId(owner, qs) && (MayRest(q) ==> q.id.Some? && q.client == owner(q.id))
    requires TradesBehind(policy, Run(policy, INITIAL, qs), Arrivals(policy, qs), q, a, b)
    ensures a.id !in Step(policy, Run(policy, INITIAL, qs), q).0.idx
  {
    RunShape(policy, qs);
    RunIndex(owner, policy, qs);
    RunPriority(owner, policy, qs);
    StepClears(owner, policy, Run(policy, INITIAL, qs), Arrivals(policy, qs), |qs|, q, a, b);
  }

  lemma StepKeepsIndex(owner: Id -> Id, policy: Policy, s: State, q: Request, x: Id)
    requires IndexExact(s.book, s.idx) && Tracked(owner, s) && (MayRest(q) ==> q.client == owner(q.id))
    requires x in s.idx && x in Step(policy, s, q).0.idx
    ensures Step(policy, s, q).0.idx[x] == s.idx[x]
    ensures !(ComesToRest(policy, s, q) && q.id == x)
  {
    if MayRest(q) && q.id == x { RestingIdRefused(owner, s, q); }
  }

  lemma IndexedPrice(idx: map<Id, Loc>, b: Book, side: Side, i: nat)
    requires IndexExact(b, idx) && i < |Opposite(b, side)|
    ensures var o := Opposite(b, side)[i]; o.id in idx && idx[o.id].px == o.px
  {
    assert Opposite(b, side)[i] in Opposite(b, side);
  }

  lemma OrderCarries(side: Side, c: Clock, c': Clock, a: Order, b: Order, l: seq<Order>, now: int, i: nat, j: nat)
    requires Before(side, c, a, b) && Prioritized(side, c', now, l) && i < |l| && j < |l|
    requires l[i].id == a.id && l[j].id == b.id && l[i].px == a.px && l[j].px == b.px
    requires a.id in c && b.id in c && a.id in c' && b.id in c' && c'[a.id] == c[a.id] && c'[b.id] == c[b.id]
    ensures i < j
  {}

  /** No step reorders two orders that survive it. */
  lemma SurvivorsKeepOrder(owner: Id -> Id, policy: Policy, qs: seq<Request>, q: Request, side: Side,
                           i: nat, j: nat, i': nat, j': nat)
    requires OneClientPerId(owner, qs + [q])
    requires var l := Opposite(Run(policy, INITIAL, qs).book, side);
             var l' := Opposite(Run(policy, INITIAL, qs + [q]).book, side);
             i < j < |l| && i' < |l'| && j' < |l'| && l'[i'].id == l[i].id && l'[j'].id == l[j].id
    ensures i' < j'
  {
    var s, s' := Run(policy, INITIAL, qs), Run(policy, INITIAL, qs + [q]);
    assert (qs + [q])[..|qs|] == qs && q in qs + [q];
    RunIndex(owner, policy, qs);
    RunIndex(owner, policy, qs + [q]);
    RunPriority(owner, policy, qs);
    RunPriority(owner, policy, qs + [q]);
    IndexedPrice(s.idx, s.book, side, i);
    IndexedPrice(s.idx, s.book, side, j);
    IndexedPrice(s'.idx, s'.book, side, i');
    IndexedPrice(s'.idx, s'.book, side, j');
    var l, l' := Opposite(s.book, side), Opposite(s'.book, side);
    StepKeepsIndex(owner, policy, s, q, l[i].id);
    StepKeepsIndex(owner, policy, s, q, l[j].id);
    OrderCarries(Against(side), Arrivals(policy, qs), Arrivals(policy, qs + [q]), l[i], l[j], l', |qs| + 1, i', j');
  }
}
