// The price-time priority book as two flat lists, best order first, and the
// operations every engine in the repository performs on them: insert behind
// equal prices, withdraw one order, and match a taker contact by contact.
module Flat {

  datatype Option<+T> = None | Some(value: T)

  /** An order id or client id; `None` is an id that is absent on the wire. */
  type Id = Option<int>

  datatype Side = Buy | Sell | OtherSide

  datatype Policy = NoPolicy | CancelTaker | CancelMaker | CancelBoth

  /** A resting order. */
  datatype Order = Order(id: Id, client: Id, px: int, qty: int)

  /** What the matching loop knows about the incoming order. */
  datatype Taker = Taker(id: Id, client: Id, side: Side, market: bool, px: int)

  datatype Fill = Fill(px: int, qty: int, taker: Id, maker: Id)

  function Min(a: int, b: int): int { if a < b then a else b }

  // ----- order of a book side -----

  /** Price `p` has strict priority over `q` on the given side of the book. */
  predicate Ahead(side: Side, p: int, q: int) {
    if side.Buy? then p > q else p < q
  }

  ghost predicate Sorted(side: Side, s: seq<Order>) {
    forall i, j | 0 <= i < j < |s| :: !Ahead(side, s[j].px, s[i].px)
  }

  predicate Positive(s: seq<Order>) {
    forall i | 0 <= i < |s| :: s[i].px > 0 && s[i].qty > 0
  }

  /** The new order goes behind every order whose price is at least as good. */
  function Insert(side: Side, s: seq<Order>, o: Order): seq<Order> {
    if s == [] || Ahead(side, o.px, s[0].px) then [o] + s
    else [s[0]] + Insert(side, s[1..], o)
  }

  /** Position of the first order with this price and id, or the length. */
  function Find(s: seq<Order>, px: int, id: Id): (k: nat)
    ensures k <= |s|
  {
    if s == [] || (s[0].px == px && s[0].id == id) then 0 else 1 + Find(s[1..], px, id)
  }

  /** Withdraw the first order with this price and id, if there is one. */
  function Remove(s: seq<Order>, px: int, id: Id): seq<Order> {
    if s == [] then []
    else if s[0].px == px && s[0].id == id then s[1..]
    else [s[0]] + Remove(s[1..], px, id)
  }

  // ----- matching -----

  /** The side of the book an order of side `side` trades against. */
  function Against(side: Side): Side {
    if side.Buy? then Sell else Buy
  }

  predicate Crosses(t: Taker, px: int) {
    t.market || (t.side.Buy? && px <= t.px) || (t.side.Sell? && px >= t.px) || t.side.OtherSide?
  }

  predicate Own(policy: Policy, taker: Id, maker: Id) {
    policy != NoPolicy && taker.Some? && maker.Some? && taker == maker
  }

  /** What matching did: its fills in order, the taker's remainder, the list
      left behind, whether the taker was cancelled, the makers withdrawn by the
      self-trade policy, and the ids of every order that left the book. */
  datatype Outcome = Outcome(fills: seq<Fill>, rem: int, book: seq<Order>, stopped: bool,
                             pulled: seq<Order>, gone: set<Id>)

  function Idle(qty: int, s: seq<Order>): Outcome {
    Outcome([], qty, s, false, [], {})
  }

  /** The record of `a` followed by what `b` did next. */
  function Then(a: Outcome, b: Outcome): Outcome {
    Outcome(a.fills + b.fills, b.rem, b.book, b.stopped, a.pulled + b.pulled, a.gone + b.gone)
  }

  predicate Active(t: Taker, qty: int, s: seq<Order>) {
    qty > 0 && s != [] && Crosses(t, s[0].px)
  }

  /** One contact of the taker with the order at the front of the list. */
  function Contact(policy: Policy, t: Taker, qty: int, s: seq<Order>): Outcome
    requires Active(t, qty, s)
  {
    var o := s[0];
    if Own(policy, t.client, o.client) then
      if policy.CancelTaker? then Outcome([], qty, s, true, [], {})
      else Outcome([], qty, s[1..], policy.CancelBoth?, [o], {o.id})
    else
      var m := Min(qty, o.qty);
      if m == o.qty then Outcome([Fill(o.px, m, t.id, o.id)], qty - m, s[1..], false, [], {o.id})
      else Outcome([Fill(o.px, m, t.id, o.id)], qty - m, [o.(qty := o.qty - m)] + s[1..], false, [], {})
  }

  function Match(policy: Policy, t: Taker, qty: int, s: seq<Order>): Outcome
    decreases |s|, if qty > 0 then 1 else 0
  {
    if !Active(t, qty, s) then Idle(qty, s)
    else
      var h := Contact(policy, t, qty, s);
      if h.stopped then h else Then(h, Match(policy, t, h.rem, h.book))
  }

  // `Match` unrolled over the first order, case by case.

  predicate Meets(policy: Policy, t: Taker, qty: int, s: seq<Order>, own: bool) {
    Active(t, qty, s) && Own(policy, t.client, s[0].client) == own
  }

  lemma ContactForeign(policy: Policy, t: Taker, qty: int, s: seq<Order>, take: int)
    requires Meets(policy, t, qty, s, false) && take == Min(qty, s[0].qty)
    ensures var c := Contact(policy, t, qty, s);
            && c.rem == qty - take && !c.stopped
            && (take == s[0].qty ==> c.book == s[1..])
            && (take != s[0].qty ==> c.book == [s[0].(qty := s[0].qty - take)] + s[1..])
  {}

  lemma MatchHalt(policy: Policy, t: Taker, qty: int, s: seq<Order>)
    requires Meets(policy, t, qty, s, true) && !policy.CancelMaker?
    ensures Match(policy, t, qty, s) == if policy.CancelTaker? then Outcome([], qty, s, true, [], {})
                                        else Outcome([], qty, s[1..], true, [s[0]], {s[0].id})
  {}

  lemma MatchSkip(policy: Policy, t: Taker, qty: int, s: seq<Order>)
    requires Meets(policy, t, qty, s, true) && policy.CancelMaker?
    ensures var r := Match(policy, t, qty, s[1..]);
            Match(policy, t, qty, s) == r.(pulled := [s[0]] + r.pulled, gone := {s[0].id} + r.gone)
  {
    var r := Match(policy, t, qty, s[1..]);
    assert [] + r.fills == r.fills;
  }

  lemma MatchWhole(policy: Policy, t: Taker, qty: int, s: seq<Order>)
    requires Meets(policy, t, qty, s, false) && s[0].qty <= qty
    ensures var r := Match(policy, t, qty - s[0].qty, s[1..]);
            var f := Fill(s[0].px, s[0].qty, t.id, s[0].id);
            Match(policy, t, qty, s) == r.(fills := [f] + r.fills, gone := {s[0].id} + r.gone)
  {
    var r := Match(policy, t, qty - s[0].qty, s[1..]);
    assert [] + r.pulled == r.pulled;
  }

  lemma MatchPart(policy: Policy, t: Taker, qty: int, s: seq<Order>)
    requires Meets(policy, t, qty, s, false) && qty < s[0].qty
    ensures Match(policy, t, qty, s) ==
            Outcome([Fill(s[0].px, qty, t.id, s[0].id)], 0, [s[0].(qty := s[0].qty - qty)] + s[1..], false, [], {})
  {}

  /** Where a matching loop stands: `acc` is done, and if the taker is still
      alive the rest is what `Match` would do from here. */
  function Resume(policy: Policy, t: Taker, acc: Outcome): Outcome {
    if acc.stopped then acc else Then(acc, Match(policy, t, acc.rem, acc.book))
  }

  lemma ResumeStart(policy: Policy, t: Taker, qty: int, s: seq<Order>)
    ensures Resume(policy, t, Idle(qty, s)) == Match(policy, t, qty, s)
  {
    var m := Match(policy, t, qty, s);
    assert Idle(qty, s).gone + m.gone == m.gone;
  }

  /** One contact moves the loop forward without changing where it ends. */
  lemma ResumeContact(policy: Policy, t: Taker, acc: Outcome)
    requires !acc.stopped && Active(t, acc.rem, acc.book)
    ensures Resume(policy, t, acc)
         == Resume(policy, t, Then(acc, Contact(policy, t, acc.rem, acc.book)))
  {
    var h := Contact(policy, t, acc.rem, acc.book);
    if !h.stopped {
      var r := Match(policy, t, h.rem, h.book);
      assert (acc.fills + h.fills) + r.fills == acc.fills + (h.fills + r.fills);
      assert (acc.pulled + h.pulled) + r.pulled == acc.pulled + (h.pulled + r.pulled);
      assert (acc.gone + h.gone) + r.gone == acc.gone + (h.gone + r.gone);
    }
  }

  lemma ResumeEnd(policy: Policy, t: Taker, acc: Outcome)
    requires acc.stopped || !Active(t, acc.rem, acc.book)
    ensures Resume(policy, t, acc) == acc
  {
    assert acc.gone + {} == acc.gone;
  }

  // ----- queues at one price -----

  /** A resting order as the engines store it inside one price's queue. */
  datatype Rest = Rest(id: Id, client: Id, qty: int)

  function Priced(px: int, r: Rest): Order { Order(r.id, r.client, px, r.qty) }

  /** The queue of one price level, as flat orders. */
  function At(px: int, q: seq<Rest>): (s: seq<Order>)
    ensures |s| == |q|
    ensures forall i | 0 <= i < |q| :: s[i] == Priced(px, q[i])
  {
    seq(|q|, i requires 0 <= i < |q| => Priced(px, q[i]))
  }
}
