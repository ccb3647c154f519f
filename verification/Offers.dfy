// What an incoming order may trade with, read off the prices, owners and quantities of the
// side it faces: the reference that answers of the engines are stated against.
module Offers {
  import opened Flat
  import opened MatchLaws
  import opened SideLaws
  import opened Books
  import opened Wire

  /** The prices an order trades at. */
  datatype Bound = Any | AtMost(px: int) | AtLeast(px: int)

  predicate Within(b: Bound, px: int) {
    match b
    case Any => true
    case AtMost(p) => px <= p
    case AtLeast(p) => px >= p
  }

  /** The bound a request names. A side that is neither buy nor sell names none. */
  function BoundOf(q: Request): Bound {
    if q.kind.Market? || q.side.OtherSide? then Any else if q.side.Buy? then AtMost(q.px) else AtLeast(q.px)
  }

  /** The side of the book a request trades against. */
  function Faced(b: Book, q: Request): seq<Order> { if q.side.Buy? then b.asks else b.bids }

  /** The side of the book a request rests on. */
  function Beside(b: Book, q: Request): seq<Order> { if q.side.Buy? then b.bids else b.asks }

  /** Self-trade prevention is on, and the resting order is the incoming client's own. */
  predicate Mine(policy: Policy, client: Id, o: Order) { policy != NoPolicy && client.Some? && o.client == client }

  /** From the best price on, the orders within the bound, up to the first own one or without own
      ones as the policy has it. */
  function Offered(policy: Policy, client: Id, bound: Bound, s: seq<Order>): seq<Order> {
    if s == [] || !Within(bound, s[0].px) then []
    else if Mine(policy, client, s[0]) then
      if policy.CancelMaker? then Offered(policy, client, bound, s[1..]) else []
    else [s[0]] + Offered(policy, client, bound, s[1..])
  }

  /** The side after a quantity was taken from its front, as far as the bound allows. */
  function Swept(bound: Bound, s: seq<Order>, qty: int): seq<Order> {
    if qty <= 0 || s == [] || !Within(bound, s[0].px) then s
    else if s[0].qty <= qty then Swept(bound, s[1..], qty - s[0].qty)
    else [s[0].(qty := s[0].qty - qty)] + s[1..]
  }

  /** The fills of taking a quantity from the front, as far as the bound allows. */
  function SweptFills(bound: Bound, s: seq<Order>, qty: int, taker: Id): seq<Fill> {
    if qty <= 0 || s == [] || !Within(bound, s[0].px) then []
    else if s[0].qty <= qty then
      [Fill(s[0].px, s[0].qty, taker, s[0].id)] + SweptFills(bound, s[1..], qty - s[0].qty, taker)
    else [Fill(s[0].px, qty, taker, s[0].id)]
  }

  /** The bound is that of the taker. */
  ghost predicate Bounds(t: Taker, bound: Bound) { forall px :: Crosses(t, px) <==> Within(bound, px) }

  lemma RequestBound(q: Request)
    ensures Bounds(TakerOf(q), BoundOf(q))
  {}

  lemma {:induction false} OfferedTradable(policy: Policy, t: Taker, bound: Bound, s: seq<Order>)
    requires Sorted(Against(t.side), s) && Bounds(t, bound)
    ensures Offered(policy, t.client, bound, s) == Tradable(policy, t, s)
  {
    TradableFront(policy, t, s);
    if s == [] {
    } else {
      OfferedTradable(policy, t, bound, s[1..]);
    }
  }

  lemma {:induction false} MatchSweeps(t: Taker, bound: Bound, qty: int, s: seq<Order>)
    requires Bounds(t, bound)
    ensures var m := Match(NoPolicy, t, qty, s);
            m.book == Swept(bound, s, qty) && m.fills == SweptFills(bound, s, qty, t.id) && !m.stopped
    decreases |s|
  {
    if !Active(t, qty, s) {
    } else if s[0].qty <= qty {
      MatchWhole(NoPolicy, t, qty, s);
      MatchSweeps(t, bound, qty - s[0].qty, s[1..]);
    } else {
      MatchPart(NoPolicy, t, qty, s);
    }
  }

  /** Without a policy the client does not matter. */
  lemma {:induction false} OfferedToAll(bound: Bound, s: seq<Order>, client: Id)
    ensures Offered(NoPolicy, client, bound, s) == Offered(NoPolicy, None, bound, s)
  {
    if s == [] || !Within(bound, s[0].px) {
    } else {
      OfferedToAll(bound, s[1..], client);
    }
  }

  /** How much a sweep takes, where orders may be without quantity. */
  lemma {:induction false} SweepTakes(t: Taker, bound: Bound, qty: int, s: seq<Order>)
    requires Bounds(t, bound) && qty >= 0 && forall i | 0 <= i < |s| :: s[i].qty >= 0
    ensures Total(Offered(NoPolicy, t.client, bound, s)) >= 0
    ensures Match(NoPolicy, t, qty, s).rem == qty - Min(qty, Total(Offered(NoPolicy, t.client, bound, s)))
    decreases |s|
  {
    if s == [] || !Within(bound, s[0].px) {
    } else {
      var rest := Offered(NoPolicy, t.client, bound, s[1..]);
      assert ([s[0]] + rest)[1..] == rest;
      SweepTakes(t, bound, if 0 < s[0].qty <= qty then qty - s[0].qty else qty, s[1..]);
      if 0 < qty && s[0].qty <= qty {
        MatchWhole(NoPolicy, t, qty, s);
      } else if 0 < qty {
        MatchPart(NoPolicy, t, qty, s);
      }
    }
  }

  /** The fills take `offers` from the front, each whole at its own price but for the last, until
      they hold `qty` or the offers are used up. */
  ghost predicate Takes(fills: seq<Fill>, taker: Id, qty: int, offers: seq<Order>) {
    && |fills| <= |offers| && Volume(fills) == Min(qty, Total(offers))
    && (forall i | 0 <= i < |fills| ::
         fills[i] == Fill(offers[i].px, fills[i].qty, taker, offers[i].id) && 0 < fills[i].qty <= offers[i].qty)
    && (forall i | 0 <= i < |fills| - 1 :: fills[i].qty == offers[i].qty)
  }

  lemma MatchTakes(policy: Policy, t: Taker, bound: Bound, qty: int, s: seq<Order>)
    requires qty >= 0 && Positive(s) && Sorted(Against(t.side), s) && Bounds(t, bound)
    ensures var m := Match(policy, t, qty, s);
            Takes(m.fills, t.id, qty, Offered(policy, t.client, bound, s)) && m.rem == qty - Volume(m.fills)
  {
    OfferedTradable(policy, t, bound, s);
    MatchExact(policy, t, qty, s);
  }

  /** A halting policy stops the order exactly when an own order lies within its bound and what is
      offered ahead of that does not cover it. */
  ghost predicate Stops(policy: Policy, client: Id, bound: Bound, qty: int, s: seq<Order>) {
    && (policy.CancelTaker? || policy.CancelBoth?)
    && (exists i :: 0 <= i < |s| && Mine(policy, client, s[i]) && Within(bound, s[i].px))
    && qty > Total(Offered(policy, client, bound, s))
  }

  lemma MatchStops(policy: Policy, t: Taker, bound: Bound, qty: int, s: seq<Order>)
    requires qty >= 0 && Positive(s) && Sorted(Against(t.side), s) && Bounds(t, bound)
    ensures Match(policy, t, qty, s).stopped <==> Stops(policy, t.client, bound, qty, s)
  {
    HaltExact(policy, t, qty, s);
    OfferedTradable(policy, t, bound, s);
    var j := FirstOwn(policy, t, s);
    if i :| 0 <= i < |s| && Mine(policy, t.client, s[i]) && Within(bound, s[i].px) {
      assert Own(policy, t.client, s[i].client);
      assert j <= i;
      if !Crosses(t, s[j].px) { BeyondCross(t, s, j, i); }
    }
    if j < |s| { assert Mine(policy, t.client, s[j]); }
  }

  /** A best price within the bound is as good as any price within it. */
  lemma FirstWithin(t: Taker, bound: Bound, s: seq<Order>)
    requires Sorted(Against(t.side), s) && Bounds(t, bound)
    ensures (s != [] && Crosses(t, s[0].px)) <==> exists i :: 0 <= i < |s| && Within(bound, s[i].px)
  {
    if i :| 0 <= i < |s| && Within(bound, s[i].px) {
      if !Crosses(t, s[0].px) { BeyondCross(t, s, 0, i); }
    }
  }

  // ----- well-formed requests, and where they rest -----

  /** Side, quantity and price are such as an engine trades on. */
  predicate Usable(q: Request) { !q.side.OtherSide? && q.qty > 0 && (q.kind.Market? || q.px > 0) }

  /** `s'` is `s` with the order behind all of equal or better price and ahead of the others. */
  ghost predicate RestsIn(buy: bool, s: seq<Order>, o: Order, s': seq<Order>) {
    exists k :: 0 <= k <= |s| && s' == s[..k] + [o] + s[k..]
      && forall i | 0 <= i < |s| :: i < k <==> if buy then s[i].px >= o.px else s[i].px <= o.px
  }

  lemma InsertRests(side: Side, s: seq<Order>, o: Order)
    requires Sorted(side, s) && !side.OtherSide?
    ensures RestsIn(side.Buy?, s, o, Insert(side, s, o))
  {
    InsertAt(side, s, o);
    InsertSorted(side, s, o);
    var k := Place(side, s, o);
    assert forall i | 0 <= i < |s| :: i < k <==> if side.Buy? then s[i].px >= o.px else s[i].px <= o.px;
  }

  /** The checks before trading, in terms of the side a request faces. */
  lemma BlockedExact(b: Book, q: Request)
    requires Shape(b)
    ensures var l := Faced(b, q);
            Blocked(b, q) ==
              if q.kind.PostOnly? && exists i :: 0 <= i < |l| && Within(BoundOf(q), l[i].px)
              then Some(WouldCrossPostOnly)
              else if q.kind.Fok? && Total(Offered(NoPolicy, q.client, BoundOf(q), l)) < q.qty then Some(FokUnfillable)
              else None
  {
    OppositeShape(b, q.side);
    RequestBound(q);
    FirstWithin(TakerOf(q), BoundOf(q), Faced(b, q));
    OfferedTradable(NoPolicy, TakerOf(q), BoundOf(q), Faced(b, q));
  }

  /** The two sides after trading with outcome `m` and resting what is left. */
  lemma SidesAfter(b: Book, t: Taker, m: Outcome, mayRest: bool)
    requires Shape(b) && !t.side.OtherSide?
    ensures var b1 := Settle(b, t, m, mayRest);
            var own, own' := Opposite(b, Against(t.side)), Opposite(b1, Against(t.side));
            && Opposite(b1, t.side) == m.book
            && if mayRest && !m.stopped && m.rem > 0
               then RestsIn(t.side.Buy?, own, Order(t.id, t.client, t.px, m.rem), own')
               else own' == own
  {
    InsertRests(t.side, Opposite(b, Against(t.side)), Order(t.id, t.client, t.px, m.rem));
  }

  lemma SettleSides(b: Book, q: Request, m: Outcome, mayRest: bool)
    requires Shape(b) && !q.side.OtherSide?
    ensures var b1 := Settle(b, TakerOf(q), m, mayRest);
            && Faced(b1, q) == m.book
            && (if mayRest && !m.stopped && m.rem > 0
                then RestsIn(q.side.Buy?, Beside(b, q), Order(q.id, q.client, q.px, m.rem), Beside(b1, q))
                else Beside(b1, q) == Beside(b, q))
  {
    SidesAfter(b, TakerOf(q), m, mayRest);
  }

  lemma TradingSweeps(b: Book, q: Request)
    ensures Trading(NoPolicy, b, q).book == if q.kind.PostOnly? then Faced(b, q)
                                            else Swept(BoundOf(q), Faced(b, q), q.qty)
  {
    RequestBound(q);
    MatchSweeps(TakerOf(q), BoundOf(q), q.qty, Faced(b, q));
  }
}
