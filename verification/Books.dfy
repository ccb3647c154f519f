// The two-sided book: trading, resting and cancelling on it, and the shape every
// one of these keeps.
module Books {
  import opened Flat
  import opened MatchLaws
  import opened SideLaws

  datatype Book = Book(bids: seq<Order>, asks: seq<Order>)

  const EMPTY := Book([], [])

  /** The side an order of side `side` trades against. */
  function Opposite(b: Book, side: Side): seq<Order> {
    if side.Buy? then b.asks else b.bids
  }

  function WithOpposite(b: Book, side: Side, s: seq<Order>): Book {
    if side.Buy? then b.(asks := s) else b.(bids := s)
  }

  function Rested(b: Book, side: Side, o: Order): Book {
    if side.Buy? then b.(bids := Insert(Buy, b.bids, o)) else b.(asks := Insert(Sell, b.asks, o))
  }

  function Cancelled(b: Book, side: Side, px: int, id: Id): Book {
    if side.Sell? then b.(asks := Remove(b.asks, px, id)) else b.(bids := Remove(b.bids, px, id))
  }

  /** The ids resting on either side. */
  function IdsOf(b: Book): set<Id> { Ids(b.bids) + Ids(b.asks) }

  /** What a taker that does not trade on arrival meets. */
  predicate WouldCross(b: Book, t: Taker) {
    Opposite(b, t.side) != [] && Crosses(t, Opposite(b, t.side)[0].px)
  }

  /** The book after trading with outcome `m`, the remainder resting if allowed. */
  function Settle(b: Book, t: Taker, m: Outcome, mayRest: bool): Book {
    var b1 := WithOpposite(b, t.side, m.book);
    if mayRest && !m.stopped && m.rem > 0 then Rested(b1, t.side, Order(t.id, t.client, t.px, m.rem)) else b1
  }

  /** The quantity resting under one id, on either side. */
  function RestingQty(b: Book, x: Id): int { QtyOf(b.bids, x) + QtyOf(b.asks, x) }

  /** `s'` is `s` without one occurrence of `e`. */
  ghost predicate CutOut(s: seq<Order>, s': seq<Order>, e: Order) {
    exists i :: 0 <= i < |s| && s[i] == e && s' == s[..i] + s[i + 1..]
  }

  /** Every bid is below every ask. */
  ghost predicate Uncrossed(b: Book) {
    forall p, q | p in Prices(b.bids) && q in Prices(b.asks) :: p < q
  }

  /** Well shaped and uncrossed: both sides in priority order, every resting
      quantity and price positive, every bid below every ask. */
  ghost predicate Shape(b: Book) {
    Lawful(Buy, b.bids) && Lawful(Sell, b.asks) && Uncrossed(b)
  }

  lemma OppositeShape(b: Book, side: Side)
    requires Shape(b)
    ensures Lawful(Against(side), Opposite(b, side))
  {}

  lemma TradeShape(b: Book, policy: Policy, t: Taker, m: Outcome)
    requires Shape(b) && Leaves(policy, t, Opposite(b, t.side), m)
    ensures Shape(WithOpposite(b, t.side, m.book))
  {
    LeavesLawful(Against(t.side), policy, t, Opposite(b, t.side), m);
  }

  lemma ClearOfCross(t: Taker, s: seq<Order>)
    requires Sorted(Against(t.side), s) && (s == [] || !Crosses(t, s[0].px))
    ensures forall p | p in Prices(s) :: !Crosses(t, p)
  {
    forall p | p in Prices(s) ensures !Crosses(t, p) {
      var j :| 0 <= j < |s| && s[j].px == p;
      BeyondCross(t, s, 0, j);
    }
  }

  /** A priced order that meets no crossing order may rest. */
  lemma RestShape(b: Book, t: Taker, o: Order)
    requires Shape(b) && !WouldCross(b, t)
    requires !t.market && !t.side.OtherSide? && o.px == t.px && o.px > 0 && o.qty > 0
    ensures Shape(Rested(b, t.side, o))
  {
    ClearOfCross(t, Opposite(b, t.side));
    if t.side.Buy? { InsertLawful(Buy, b.bids, o); } else { InsertLawful(Sell, b.asks, o); }
  }

  /** Trading and resting keeps the shape, under every policy and order type. */
  lemma SettleShape(b: Book, policy: Policy, t: Taker, qty: int, m: Outcome, mayRest: bool)
    requires Shape(b)
    requires m == Idle(qty, Opposite(b, t.side)) || (qty >= 0 && m == Match(policy, t, qty, Opposite(b, t.side)))
    requires m == Idle(qty, Opposite(b, t.side)) && mayRest && qty > 0 ==> !WouldCross(b, t)
    requires mayRest ==> !t.market && !t.side.OtherSide? && t.px > 0
    ensures Shape(Settle(b, t, m, mayRest))
  {
    var s := Opposite(b, t.side);
    OppositeShape(b, t.side);
    if m == Idle(qty, s) {
      LeavesAll(policy, t, qty, s);
    } else {
      MatchLeaves(policy, t, qty, s);
      MatchExhausts(policy, t, qty, s);
    }
    TradeShape(b, policy, t, m);
    if mayRest && !m.stopped && m.rem > 0 {
      RestShape(WithOpposite(b, t.side, m.book), t, Order(t.id, t.client, t.px, m.rem));
    }
  }

  lemma CancelShape(b: Book, side: Side, px: int, id: Id)
    requires Shape(b)
    ensures Shape(Cancelled(b, side, px, id))
  {
    RemoveLawful(Buy, b.bids, px, id);
    RemoveLawful(Sell, b.asks, px, id);
  }

  // ----- books that may hold orders without quantity -----

  ghost predicate Nonneg(s: seq<Order>) { forall i | 0 <= i < |s| :: s[i].qty >= 0 }

  /** `r` keeps order and prices, and a remainder meets nothing more. */
  ghost predicate Clears(t: Taker, qty: int, s: seq<Order>, r: Outcome) {
    && Sorted(Against(t.side), r.book) && Prices(r.book) <= Prices(s) && 0 <= r.rem <= qty
    && (r.rem > 0 ==> r.book == [] || !Crosses(t, r.book[0].px))
  }

  lemma ClearsOn(t: Taker, qty: int, s: seq<Order>, r: Outcome, r': Outcome)
    requires s != [] && 0 <= s[0].qty <= qty && Clears(t, qty - s[0].qty, s[1..], r)
    requires r'.book == r.book && r'.rem == r.rem
    ensures Clears(t, qty, s, r')
  {
    assert forall x | x in s[1..] :: x in s;
  }

  lemma ClearsPart(t: Taker, qty: int, s: seq<Order>, r: Outcome)
    requires s != [] && 0 <= qty && Sorted(Against(t.side), s)
    requires r.rem == 0 && r.book == [s[0].(qty := s[0].qty - qty)] + s[1..]
    ensures Clears(t, qty, s, r)
  {
    assert s[0] in s && forall x | x in s[1..] :: x in s;
  }

  /** Matching without a policy clears what it crosses. */
  lemma {:induction false} MatchClears(t: Taker, qty: int, s: seq<Order>)
    requires qty >= 0 && Sorted(Against(t.side), s) && Nonneg(s)
    ensures Clears(t, qty, s, Match(NoPolicy, t, qty, s))
    decreases |s|
  {
    if !Active(t, qty, s) {
    } else if s[0].qty <= qty {
      MatchWhole(NoPolicy, t, qty, s);
      MatchClears(t, qty - s[0].qty, s[1..]);
      ClearsOn(t, qty, s, Match(NoPolicy, t, qty - s[0].qty, s[1..]), Match(NoPolicy, t, qty, s));
    } else {
      MatchPart(NoPolicy, t, qty, s);
      ClearsPart(t, qty, s, Match(NoPolicy, t, qty, s));
    }
  }

  /** A book stays uncrossed when an order trades, and when it rests after meeting nothing more. */
  lemma TradeUncrossed(b: Book, t: Taker, qty: int, m: Outcome)
    requires Uncrossed(b) && qty >= 0 && m == Match(NoPolicy, t, qty, Opposite(b, t.side))
    requires Sorted(Against(t.side), Opposite(b, t.side)) && Nonneg(Opposite(b, t.side))
    ensures var b1 := WithOpposite(b, t.side, m.book);
            Uncrossed(b1) && (m.rem > 0 || (qty == 0 && !WouldCross(b, t)) ==> !WouldCross(b1, t))
    ensures Sorted(Against(t.side), m.book)
  {
    MatchClears(t, qty, Opposite(b, t.side));
  }

  lemma InsertPrices(side: Side, s: seq<Order>, o: Order)
    ensures Prices(Insert(side, s, o)) == Prices(s) + {o.px}
  {
    InsertMembers(side, s, o);
    var r := Insert(side, s, o);
    assert o in r && forall x | x in s :: x in r;
    assert forall x | x in r :: x == o || x in s;
  }

  lemma RestUncrossed(b: Book, t: Taker, o: Order)
    requires Uncrossed(b) && !WouldCross(b, t) && Sorted(Against(t.side), Opposite(b, t.side))
    requires !t.market && !t.side.OtherSide? && o.px == t.px
    ensures Uncrossed(Rested(b, t.side, o))
  {
    ClearOfCross(t, Opposite(b, t.side));
    InsertPrices(Buy, b.bids, o);
    InsertPrices(Sell, b.asks, o);
  }

  lemma CutPrices(s: seq<Order>, s': seq<Order>, e: Order)
    requires CutOut(s, s', e)
    ensures Prices(s') <= Prices(s)
  {
    forall x | x in s' ensures x in s {}
  }
}
