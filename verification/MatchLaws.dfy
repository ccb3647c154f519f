// What matching means, stated without following the matching loop: how much is
// filled, against whom, in which order, and what is left behind, for every
// self-trade policy.
module MatchLaws {
  import opened Flat

  function Total(s: seq<Order>): int {
    if s == [] then 0 else s[0].qty + Total(s[1..])
  }

  function Volume(fills: seq<Fill>): int {
    if fills == [] then 0 else fills[0].qty + Volume(fills[1..])
  }

  /** The orders of `s` at a crossing price that the policy lets the taker trade with. */
  function Eligible(policy: Policy, t: Taker, s: seq<Order>): seq<Order> {
    if s == [] then []
    else (if Crosses(t, s[0].px) && !Own(policy, t.client, s[0].client) then [s[0]] else [])
         + Eligible(policy, t, s[1..])
  }

  /** The taker's own orders in `s`. */
  function Owned(policy: Policy, t: Taker, s: seq<Order>): seq<Order> {
    if s == [] then []
    else (if Own(policy, t.client, s[0].client) then [s[0]] else []) + Owned(policy, t, s[1..])
  }

  function FirstOwn(policy: Policy, t: Taker, s: seq<Order>): (k: nat)
    ensures k <= |s|
    ensures forall i | 0 <= i < k :: !Own(policy, t.client, s[i].client)
    ensures k < |s| ==> Own(policy, t.client, s[k].client)
  {
    if s == [] || Own(policy, t.client, s[0].client) then 0 else 1 + FirstOwn(policy, t, s[1..])
  }

  /** Policies under which meeting an own order ends the taker. */
  predicate Halts(policy: Policy) { policy.CancelTaker? || policy.CancelBoth? }

  /** The orders a taker may consume, best first: all eligible ones, cut at the
      first own order when the policy halts there. */
  function Tradable(policy: Policy, t: Taker, s: seq<Order>): seq<Order> {
    Eligible(policy, t, if Halts(policy) then s[..FirstOwn(policy, t, s)] else s)
  }

  /** All crossing quantity, whoever owns it. */
  function CrossQty(t: Taker, s: seq<Order>): int { Total(Eligible(NoPolicy, t, s)) }

  function Ids(s: seq<Order>): set<Id> { set o | o in s :: o.id }

  ghost predicate Reduced(a: Order, b: Order) {
    b == a.(qty := b.qty) && 0 < b.qty <= a.qty
  }

  /** Fill `f` took from order `o`, at the price of `o`. */
  ghost predicate TakesFrom(f: Fill, t: Taker, o: Order) {
    f.maker == o.id && f.px == o.px && f.taker == t.id && 0 < f.qty <= o.qty
  }

  // ----- sorted sides -----

  lemma BeyondCross(t: Taker, s: seq<Order>, i: nat, j: nat)
    requires Sorted(Against(t.side), s) && i <= j < |s| && !Crosses(t, s[i].px)
    ensures !Crosses(t, s[j].px)
  {}

  lemma {:induction false} NoneEligible(policy: Policy, t: Taker, s: seq<Order>)
    requires forall i | 0 <= i < |s| :: !Crosses(t, s[i].px)
    ensures Eligible(policy, t, s) == []
  {
    if s == [] {
    } else {
      NoneEligible(policy, t, s[1..]);
    }
  }

  /** Eligibility unrolled at the front of a sorted side. */
  lemma TradableFront(policy: Policy, t: Taker, s: seq<Order>)
    requires Sorted(Against(t.side), s)
    ensures s == [] || !Crosses(t, s[0].px) ==> Tradable(policy, t, s) == []
    ensures s != [] && Crosses(t, s[0].px) && Own(policy, t.client, s[0].client)
        ==> Tradable(policy, t, s) == if Halts(policy) then [] else Tradable(policy, t, s[1..])
    ensures s != [] && Crosses(t, s[0].px) && !Own(policy, t.client, s[0].client)
        ==> Tradable(policy, t, s) == [s[0]] + Tradable(policy, t, s[1..])
  {
    if s != [] {
      var k := FirstOwn(policy, t, s);
      if !Crosses(t, s[0].px) {
        NoneEligible(policy, t, s);
        NoneEligible(policy, t, s[..k]);
      }
      if k > 0 { assert s[..k][1..] == s[1..][..k - 1]; }
    }
  }

  // ----- how much is filled, and by whom -----

  /** The fills walk the orders `l` from the front, at their prices, each but the
      last consuming its maker completely. */
  ghost predicate Walks(fills: seq<Fill>, t: Taker, l: seq<Order>) {
    && |fills| <= |l|
    && (forall i | 0 <= i < |fills| :: TakesFrom(fills[i], t, l[i]))
    && (forall i | 0 <= i < |fills| - 1 :: fills[i].qty == l[i].qty)
  }

  lemma WalksOn(f: Fill, fills: seq<Fill>, t: Taker, o: Order, l: seq<Order>)
    requires TakesFrom(f, t, o) && (f.qty == o.qty || fills == []) && Walks(fills, t, l)
    ensures Walks([f] + fills, t, [o] + l)
    ensures Volume([f] + fills) == f.qty + Volume(fills)
    ensures Total([o] + l) == o.qty + Total(l)
  {
    assert ([f] + fills)[1..] == fills && ([o] + l)[1..] == l;
  }

  lemma {:induction false} EligibleNonneg(policy: Policy, t: Taker, s: seq<Order>)
    requires Positive(s)
    ensures Total(Eligible(policy, t, s)) >= 0
  {
    if s == [] {
    } else {
      EligibleNonneg(policy, t, s[1..]);
      var e := Eligible(policy, t, s[1..]);
      assert ([s[0]] + e)[1..] == e && [] + e == e;
    }
  }

  lemma TradableNonneg(policy: Policy, t: Taker, s: seq<Order>)
    requires Positive(s)
    ensures Total(Tradable(policy, t, s)) >= 0
  {
    EligibleNonneg(policy, t, if Halts(policy) then s[..FirstOwn(policy, t, s)] else s);
  }

  /** `r` fills the smaller of `qty` and the quantity of `l`, walking `l` from the front. */
  ghost predicate FillsFrom(r: Outcome, t: Taker, qty: int, l: seq<Order>) {
    r.rem == qty - Min(qty, Total(l)) && Volume(r.fills) == qty - r.rem && Walks(r.fills, t, l)
  }

  /** A whole order, then what `r` did. */
  lemma FillsOn(r: Outcome, r': Outcome, t: Taker, qty: int, o: Order, l: seq<Order>)
    requires FillsFrom(r, t, qty - o.qty, l) && Total(l) >= 0 && 0 < o.qty <= qty
    requires r'.rem == r.rem && r'.fills == [Fill(o.px, o.qty, t.id, o.id)] + r.fills
    ensures FillsFrom(r', t, qty, [o] + l)
  {
    WalksOn(Fill(o.px, o.qty, t.id, o.id), r.fills, t, o, l);
  }

  /** A part of an order. */
  lemma FillsPart(r: Outcome, t: Taker, qty: int, o: Order, l: seq<Order>)
    requires Total(l) >= 0 && 0 < qty < o.qty && r.rem == 0 && r.fills == [Fill(o.px, qty, t.id, o.id)]
    ensures FillsFrom(r, t, qty, [o] + l)
  {
    WalksOn(r.fills[0], [], t, o, l);
  }

  lemma ExactForeign(policy: Policy, t: Taker, qty: int, s: seq<Order>, l: seq<Order>)
    requires Meets(policy, t, qty, s, false) && s[0].qty > 0 && Total(l) >= 0
    requires s[0].qty <= qty ==> FillsFrom(Match(policy, t, qty - s[0].qty, s[1..]), t, qty - s[0].qty, l)
    ensures FillsFrom(Match(policy, t, qty, s), t, qty, [s[0]] + l)
  {
    if s[0].qty <= qty {
      MatchWhole(policy, t, qty, s);
      FillsOn(Match(policy, t, qty - s[0].qty, s[1..]), Match(policy, t, qty, s), t, qty, s[0], l);
    } else {
      MatchPart(policy, t, qty, s);
      FillsPart(Match(policy, t, qty, s), t, qty, s[0], l);
    }
  }

  /** Matching fills exactly the smaller of the taker's quantity and the tradable
      quantity, walking the tradable orders in priority order. */
  lemma {:induction false} MatchExact(policy: Policy, t: Taker, qty: int, s: seq<Order>)
    requires qty >= 0 && Positive(s) && Sorted(Against(t.side), s)
    ensures FillsFrom(Match(policy, t, qty, s), t, qty, Tradable(policy, t, s))
    decreases |s|
  {
    TradableNonneg(policy, t, s);
    TradableFront(policy, t, s);
    if Meets(policy, t, qty, s, true) {
      if policy.CancelMaker? {
        MatchSkip(policy, t, qty, s);
        MatchExact(policy, t, qty, s[1..]);
      } else {
        MatchHalt(policy, t, qty, s);
      }
    } else if Active(t, qty, s) {
      if s[0].qty <= qty { MatchExact(policy, t, qty - s[0].qty, s[1..]); }
      TradableNonneg(policy, t, s[1..]);
      ExactForeign(policy, t, qty, s, Tradable(policy, t, s[1..]));
    }
  }

  // ----- self-trade policies -----

  lemma {:induction false} EligibleFrom(policy: Policy, t: Taker, s: seq<Order>)
    ensures forall o | o in Eligible(policy, t, s) ::
              o in s && Crosses(t, o.px) && !Own(policy, t.client, o.client)
  {
    if s == [] {
    } else {
      EligibleFrom(policy, t, s[1..]);
    }
  }

  /** No fill ever pairs two orders of one client unless the policy is "none". */
  lemma NoSelfTrade(policy: Policy, t: Taker, qty: int, s: seq<Order>)
    requires qty >= 0 && Positive(s) && Sorted(Against(t.side), s)
    ensures forall f | f in Match(policy, t, qty, s).fills ::
              exists o | o in s :: TakesFrom(f, t, o) && Crosses(t, o.px) && !Own(policy, t.client, o.client)
  {
    MatchExact(policy, t, qty, s);
    var l := Tradable(policy, t, s);
    EligibleFrom(policy, t, if Halts(policy) then s[..FirstOwn(policy, t, s)] else s);
    var fills := Match(policy, t, qty, s).fills;
    forall f | f in fills
      ensures exists o | o in s :: TakesFrom(f, t, o) && Crosses(t, o.px) && !Own(policy, t.client, o.client)
    {
      var i :| 0 <= i < |fills| && fills[i] == f;
      assert l[i] in s && TakesFrom(f, t, l[i]);
    }
  }

  lemma {:induction false} HaltWhen(policy: Policy, t: Taker, qty: int, s: seq<Order>)
    requires qty >= 0 && Positive(s) && Sorted(Against(t.side), s)
    ensures var r := Match(policy, t, qty, s);
            var j := FirstOwn(policy, t, s);
            r.stopped <==> Halts(policy) && j < |s| && Crosses(t, s[j].px) && r.rem > 0
    decreases |s|
  {
    if Meets(policy, t, qty, s, true) {
      if policy.CancelMaker? {
        MatchSkip(policy, t, qty, s);
        HaltWhen(policy, t, qty, s[1..]);
      } else {
        MatchHalt(policy, t, qty, s);
      }
    } else if Active(t, qty, s) {
      if s[0].qty <= qty {
        MatchWhole(policy, t, qty, s);
        HaltWhen(policy, t, qty - s[0].qty, s[1..]);
      } else {
        MatchPart(policy, t, qty, s);
      }
    }
  }

  /** A halting policy cancels the taker exactly when it still wants quantity after
      everything ahead of its first own order, and that order is at a crossing price. */
  lemma HaltExact(policy: Policy, t: Taker, qty: int, s: seq<Order>)
    requires qty >= 0 && Positive(s) && Sorted(Against(t.side), s)
    ensures var j := FirstOwn(policy, t, s);
            Match(policy, t, qty, s).stopped <==>
            Halts(policy) && j < |s| && Crosses(t, s[j].px) && qty > Total(Tradable(policy, t, s))
  {
    HaltWhen(policy, t, qty, s);
    MatchExact(policy, t, qty, s);
  }

  /** A halting policy that meets no own order at a crossing price leaves everything tradable. */
  lemma {:induction false} TradableAll(policy: Policy, t: Taker, s: seq<Order>)
    requires Halts(policy) && Sorted(Against(t.side), s)
    requires var j := FirstOwn(policy, t, s); j == |s| || !Crosses(t, s[j].px)
    ensures Tradable(policy, t, s) == Eligible(NoPolicy, t, s)
  {
    TradableFront(policy, t, s);
    TradableFront(NoPolicy, t, s);
    if s != [] && Crosses(t, s[0].px) {
      TradableAll(policy, t, s[1..]);
    }
  }

  /** "cancel-both" withdraws the order it halted at, "cancel-taker" leaves it. */
  lemma {:induction false} HaltLeaves(policy: Policy, t: Taker, qty: int, s: seq<Order>)
    requires Match(policy, t, qty, s).stopped
    ensures var r := Match(policy, t, qty, s);
            var j := FirstOwn(policy, t, s);
            && j < |s|
            && (policy.CancelTaker? ==> r.book == s[j..] && r.pulled == [])
            && (policy.CancelBoth? ==> r.book == s[j + 1..] && r.pulled == [s[j]])
    decreases |s|
  {
    if Meets(policy, t, qty, s, true) {
      if policy.CancelMaker? {
        MatchSkip(policy, t, qty, s);
        HaltLeaves(policy, t, qty, s[1..]);
      } else {
        MatchHalt(policy, t, qty, s);
      }
    } else if s[0].qty <= qty {
      MatchWhole(policy, t, qty, s);
      HaltLeaves(policy, t, qty - s[0].qty, s[1..]);
    } else {
      MatchPart(policy, t, qty, s);
    }
  }

  lemma {:induction false} NoPolicyNeverStops(t: Taker, qty: int, s: seq<Order>)
    ensures !Match(NoPolicy, t, qty, s).stopped
    decreases |s|
  {
    if Active(t, qty, s) {
      if s[0].qty <= qty {
        MatchWhole(NoPolicy, t, qty, s);
        NoPolicyNeverStops(t, qty - s[0].qty, s[1..]);
      } else {
        MatchPart(NoPolicy, t, qty, s);
      }
    }
  }

  // ----- what is left behind -----

  /** What stays is the tail of the old list with only its front order possibly
      reduced; everything before it crossed and is gone, and the orders withdrawn
      are exactly the taker's own ones among those. */
  ghost predicate Leaves(policy: Policy, t: Taker, s: seq<Order>, r: Outcome) {
    && |r.book| <= |s|
    && var n := |s| - |r.book|;
    && (forall i | 0 < i < |r.book| :: r.book[i] == s[n + i])
    && (r.book != [] ==> Reduced(s[n], r.book[0]))
    && (r.book != [] && r.book[0] != s[n] ==> r.rem == 0 && !r.stopped)
    && (forall i | 0 <= i < n :: Crosses(t, s[i].px))
    && r.gone == Ids(s[..n])
    && r.pulled == Owned(policy, t, s[..n])
  }

  lemma LeavesOn(policy: Policy, t: Taker, s: seq<Order>, r: Outcome, r': Outcome)
    requires s != [] && Crosses(t, s[0].px) && Leaves(policy, t, s[1..], r)
    requires r'.book == r.book && r'.rem == r.rem && r'.stopped == r.stopped && r'.gone == {s[0].id} + r.gone
    requires r'.pulled == (if Own(policy, t.client, s[0].client) then [s[0]] else []) + r.pulled
    ensures Leaves(policy, t, s, r')
  {
    var n := |s| - |r.book|;
    assert s[..n][1..] == s[1..][..n - 1];
    assert s[..n] == [s[0]] + s[1..][..n - 1];
    assert r'.gone == Ids(s[..n]);
    assert r'.book != [] ==> s[1..][n - 1] == s[n];
    forall i | 0 < i < |r'.book| ensures r'.book[i] == s[n + i] {
      assert s[1..][n - 1 + i] == s[n + i];
    }
    forall i | 0 <= i < n ensures Crosses(t, s[i].px) {
      if i > 0 { assert s[1..][i - 1] == s[i]; }
    }
  }

  lemma LeavesAll(policy: Policy, t: Taker, qty: int, s: seq<Order>)
    requires Positive(s)
    ensures Leaves(policy, t, s, Idle(qty, s))
  {
    assert s[..0] == [];
  }

  lemma LeavesHalt(policy: Policy, t: Taker, qty: int, s: seq<Order>)
    requires Positive(s) && Meets(policy, t, qty, s, true) && !policy.CancelMaker?
    ensures Leaves(policy, t, s, Match(policy, t, qty, s))
  {
    MatchHalt(policy, t, qty, s);
    assert s[..0] == [] && s[..1] == [s[0]];
    assert Owned(policy, t, s[..1]) == [s[0]];
  }

  lemma {:induction false} MatchLeaves(policy: Policy, t: Taker, qty: int, s: seq<Order>)
    requires qty >= 0 && Positive(s)
    ensures Leaves(policy, t, s, Match(policy, t, qty, s))
    decreases |s|
  {
    if Meets(policy, t, qty, s, true) {
      if policy.CancelMaker? {
        MatchSkip(policy, t, qty, s);
        MatchLeaves(policy, t, qty, s[1..]);
        LeavesOn(policy, t, s, Match(policy, t, qty, s[1..]), Match(policy, t, qty, s));
      } else {
        LeavesHalt(policy, t, qty, s);
      }
    } else if !Active(t, qty, s) {
      LeavesAll(policy, t, qty, s);
    } else if s[0].qty <= qty {
      MatchWhole(policy, t, qty, s);
      MatchLeaves(policy, t, qty - s[0].qty, s[1..]);
      var q := Match(policy, t, qty - s[0].qty, s[1..]);
      assert [] + q.pulled == q.pulled;
      LeavesOn(policy, t, s, q, Match(policy, t, qty, s));
    } else {
      MatchPart(policy, t, qty, s);
      assert s[..0] == [];
    }
  }

  /** A taker that is alive and still wants quantity has met no crossing order. */
  lemma {:induction false} MatchExhausts(policy: Policy, t: Taker, qty: int, s: seq<Order>)
    requires qty >= 0 && Positive(s)
    ensures var r := Match(policy, t, qty, s);
            0 <= r.rem <= qty && (r.rem > 0 && !r.stopped ==> r.book == [] || !Crosses(t, r.book[0].px))
    decreases |s|
  {
    if Meets(policy, t, qty, s, true) {
      if policy.CancelMaker? {
        MatchSkip(policy, t, qty, s);
        MatchExhausts(policy, t, qty, s[1..]);
      }
    } else if Active(t, qty, s) && s[0].qty <= qty {
      MatchWhole(policy, t, qty, s);
      MatchExhausts(policy, t, qty - s[0].qty, s[1..]);
    }
  }

  /** Order `k` of `s` was reached: it is gone, or it is the reduced front. */
  ghost predicate Reached(s: seq<Order>, r: Outcome, k: int) {
    0 <= k < |s| && (k < |s| - |r.book| || (k == |s| - |r.book| && r.book != [] && r.book[0] != s[k]))
  }

  /** The fills came from orders that were reached. */
  ghost predicate FromReached(t: Taker, s: seq<Order>, r: Outcome) {
    forall f | f in r.fills :: exists k :: Reached(s, r, k) && TakesFrom(f, t, s[k])
  }

  lemma {:induction false} FromReachedOn(t: Taker, s: seq<Order>, q: Outcome, r: Outcome)
    requires s != [] && FromReached(t, s[1..], q) && r.book == q.book && |q.book| < |s|
    requires forall f | f in r.fills :: f in q.fills || TakesFrom(f, t, s[0])
    ensures FromReached(t, s, r)
  {
    forall f | f in r.fills ensures exists k :: Reached(s, r, k) && TakesFrom(f, t, s[k]) {
      if f in q.fills {
        var k :| Reached(s[1..], q, k) && TakesFrom(f, t, s[1..][k]);
        assert Reached(s, r, k + 1) && TakesFrom(f, t, s[k + 1]);
      } else {
        assert Reached(s, r, 0) && TakesFrom(f, t, s[0]);
      }
    }
  }

  lemma {:induction false} MakersReached(policy: Policy, t: Taker, qty: int, s: seq<Order>)
    requires qty >= 0 && Positive(s)
    ensures FromReached(t, s, Match(policy, t, qty, s))
    decreases |s|
  {
    if Meets(policy, t, qty, s, true) {
      if policy.CancelMaker? {
        MatchSkip(policy, t, qty, s);
        MakersReached(policy, t, qty, s[1..]);
        MatchLeaves(policy, t, qty, s[1..]);
        FromReachedOn(t, s, Match(policy, t, qty, s[1..]), Match(policy, t, qty, s));
      }
    } else if Active(t, qty, s) {
      if s[0].qty <= qty {
        MatchWhole(policy, t, qty, s);
        MakersReached(policy, t, qty - s[0].qty, s[1..]);
        MatchLeaves(policy, t, qty - s[0].qty, s[1..]);
        FromReachedOn(t, s, Match(policy, t, qty - s[0].qty, s[1..]), Match(policy, t, qty, s));
      } else {
        MatchPart(policy, t, qty, s);
        var r := Match(policy, t, qty, s);
        assert Reached(s, r, 0) && TakesFrom(r.fills[0], t, s[0]);
      }
    }
  }

  ghost predicate DistinctIds(s: seq<Order>) {
    forall i, j | 0 <= i < j < |s| :: s[i].id != s[j].id
  }

  lemma AheadGone(policy: Policy, t: Taker, s: seq<Order>, r: Outcome, i: nat)
    requires DistinctIds(s) && Leaves(policy, t, s, r) && i < |s| - |r.book|
    ensures s[i].id !in Ids(r.book)
  {
    forall x | 0 <= x < |r.book| ensures r.book[x].id != s[i].id {
      assert r.book[x].id == s[|s| - |r.book| + x].id;
    }
  }

  /** No trade-through: when an order trades as maker, every order ahead of it in
      its queue of priority has left the book. */
  lemma NoTradeThrough(policy: Policy, t: Taker, qty: int, s: seq<Order>, i: nat, j: nat, f: Fill)
    requires qty >= 0 && Positive(s) && DistinctIds(s) && i < j < |s|
    requires f in Match(policy, t, qty, s).fills && f.maker == s[j].id
    ensures s[i].id !in Ids(Match(policy, t, qty, s).book)
  {
    MakersReached(policy, t, qty, s);
    MatchLeaves(policy, t, qty, s);
    var r := Match(policy, t, qty, s);
    var k :| Reached(s, r, k) && TakesFrom(f, t, s[k]);
    assert k == j;
    AheadGone(policy, t, s, r, i);
  }

  // ----- conservation -----

  /** Resting quantity under one id. */
  function QtyOf(s: seq<Order>, x: Id): int {
    if s == [] then 0 else (if s[0].id == x then s[0].qty else 0) + QtyOf(s[1..], x)
  }

  /** Quantity filled with `x` as the maker. */
  function MadeBy(fills: seq<Fill>, x: Id): int {
    if fills == [] then 0 else (if fills[0].maker == x then fills[0].qty else 0) + MadeBy(fills[1..], x)
  }

  lemma SumsCons(o: Order, s: seq<Order>, f: Fill, fills: seq<Fill>, x: Id)
    ensures QtyOf([o] + s, x) == (if o.id == x then o.qty else 0) + QtyOf(s, x)
    ensures MadeBy([f] + fills, x) == (if f.maker == x then f.qty else 0) + MadeBy(fills, x)
  {
    assert ([o] + s)[1..] == s && ([f] + fills)[1..] == fills;
  }

  /** What `x` has in `s` is what it has, made and had withdrawn after `r`. */
  predicate Balanced(s: seq<Order>, r: Outcome, x: Id) {
    QtyOf(s, x) == QtyOf(r.book, x) + MadeBy(r.fills, x) + QtyOf(r.pulled, x)
  }

  lemma BalancedSkip(s: seq<Order>, r: Outcome, x: Id)
    requires s != [] && Balanced(s[1..], r, x)
    ensures Balanced(s, r.(pulled := [s[0]] + r.pulled, gone := {s[0].id} + r.gone), x)
  {
    SumsCons(s[0], r.pulled, Fill(0, 0, None, None), [], x);
  }

  lemma BalancedWhole(s: seq<Order>, r: Outcome, f: Fill, x: Id)
    requires s != [] && Balanced(s[1..], r, x) && f.maker == s[0].id && f.qty == s[0].qty
    ensures Balanced(s, r.(fills := [f] + r.fills, gone := {s[0].id} + r.gone), x)
  {
    SumsCons(s[0], [], f, r.fills, x);
  }

  lemma BalancedPart(s: seq<Order>, r: Outcome, f: Fill, x: Id)
    requires s != [] && f.maker == s[0].id && r.fills == [f] && r.pulled == []
    requires r.book == [s[0].(qty := s[0].qty - f.qty)] + s[1..]
    ensures Balanced(s, r, x)
  {
    SumsCons(r.book[0], s[1..], f, [], x);
  }

  /** Whatever an order loses in matching, it traded or had withdrawn. */
  lemma {:induction false} MatchConserves(policy: Policy, t: Taker, qty: int, s: seq<Order>, x: Id)
    requires qty >= 0 && Positive(s)
    ensures var r := Match(policy, t, qty, s);
            QtyOf(s, x) == QtyOf(r.book, x) + MadeBy(r.fills, x) + QtyOf(r.pulled, x)
    decreases |s|
  {
    if Meets(policy, t, qty, s, true) {
      if policy.CancelMaker? {
        MatchSkip(policy, t, qty, s);
        MatchConserves(policy, t, qty, s[1..], x);
        BalancedSkip(s, Match(policy, t, qty, s[1..]), x);
      } else {
        MatchHalt(policy, t, qty, s);
        BalancedSkip(s, Idle(qty, s[1..]), x);
      }
    } else if !Active(t, qty, s) {
    } else if s[0].qty <= qty {
      MatchWhole(policy, t, qty, s);
      MatchConserves(policy, t, qty - s[0].qty, s[1..], x);
      BalancedWhole(s, Match(policy, t, qty - s[0].qty, s[1..]), Fill(s[0].px, s[0].qty, t.id, s[0].id), x);
    } else {
      MatchPart(policy, t, qty, s);
      BalancedPart(s, Match(policy, t, qty, s), Fill(s[0].px, qty, t.id, s[0].id), x);
    }
  }

  /** Matching brings no id to the side. */
  lemma {:induction false} MatchIds(policy: Policy, t: Taker, qty: int, s: seq<Order>)
    ensures Ids(Match(policy, t, qty, s).book) <= Ids(s)
    decreases |s|
  {
    if Active(t, qty, s) {
      assert s[0] in s && forall x | x in s[1..] :: x in s;
      if Own(policy, t.client, s[0].client) {
        if policy.CancelMaker? {
          MatchSkip(policy, t, qty, s);
          MatchIds(policy, t, qty, s[1..]);
        } else {
          MatchHalt(policy, t, qty, s);
        }
      } else if s[0].qty <= qty {
        MatchWhole(policy, t, qty, s);
        MatchIds(policy, t, qty - s[0].qty, s[1..]);
      } else {
        MatchPart(policy, t, qty, s);
      }
    }
  }

  // ----- which orders trade -----

  /** Order `k` is tradable, and the quantity tradable ahead of it does not cover the taker. */
  ghost predicate Reaches(policy: Policy, t: Taker, qty: int, s: seq<Order>, k: Id) {
    var l := Tradable(policy, t, s);
    exists i :: 0 <= i < |l| && l[i].id == k && qty > Total(l[..i])
  }

  lemma {:induction false} TotalPrefix(l: seq<Order>, i: nat)
    requires i <= |l| && forall o | o in l :: o.qty > 0
    ensures 0 <= Total(l[..i]) <= Total(l) && (i < |l| ==> Total(l[..i]) < Total(l))
    ensures i > 0 ==> Total(l[..i]) == l[0].qty + Total(l[1..][..i - 1]) && Total(l[..i]) >= l[0].qty
  {
    if i > 0 {
      assert l[..i][1..] == l[1..][..i - 1] && forall o | o in l[1..] :: o in l;
      TotalPrefix(l[1..], i - 1);
    } else if l != [] {
      assert forall o | o in l[1..] :: o in l;
      TotalPrefix(l[1..], 0);
    }
  }

  lemma {:induction false} VolumePositive(fills: seq<Fill>)
    requires forall i | 0 <= i < |fills| :: fills[i].qty > 0
    ensures Volume(fills) >= 0 && (Volume(fills) > 0 <==> fills != [])
  {
    if fills == [] {
    } else {
      VolumePositive(fills[1..]);
    }
  }

  lemma {:induction false} WalkCount(fills: seq<Fill>, t: Taker, l: seq<Order>, qty: int, i: nat)
    requires Walks(fills, t, l) && qty >= 0 && Volume(fills) == Min(qty, Total(l))
    requires i < |l| && forall o | o in l :: o.qty > 0
    ensures i < |fills| <==> qty > Total(l[..i])
    decreases |l|
  {
    TotalPrefix(l, i);
    VolumePositive(fills);
    if fills != [] && i > 0 {
      VolumePositive(fills[1..]);
      assert forall o | o in l[1..] :: o in l;
      if |fills| > 1 {
        WalkCount(fills[1..], t, l[1..], qty - l[0].qty, i - 1);
      } else {
        TotalPrefix(l, 1);
        assert fills[1..] == [] && l[..1][1..] == [];
      }
    }
  }

  lemma {:induction false} MadeByPositive(fills: seq<Fill>, k: Id)
    requires forall f | f in fills :: f.qty > 0
    ensures MadeBy(fills, k) >= 0 && (MadeBy(fills, k) > 0 <==> exists i :: 0 <= i < |fills| && fills[i].maker == k)
  {
    if fills == [] {
    } else {
      var rest := fills[1..];
      assert fills[0] in fills && forall f | f in rest :: f in fills;
      MadeByPositive(rest, k);
      if i :| 0 <= i < |rest| && rest[i].maker == k { assert fills[i + 1].maker == k; }
      if i :| 0 <= i < |fills| && fills[i].maker == k { assert i > 0 ==> rest[i - 1].maker == k; }
    }
  }

  lemma {:induction false} WalkReaches(m: Outcome, t: Taker, qty: int, l: seq<Order>, k: Id)
    requires FillsFrom(m, t, qty, l) && qty >= 0 && forall o | o in l :: o.qty > 0
    ensures MadeBy(m.fills, k) >= 0
    ensures MadeBy(m.fills, k) > 0 <==> exists i :: 0 <= i < |l| && l[i].id == k && qty > Total(l[..i])
  {
    var fills := m.fills;
    MadeByPositive(fills, k);
    forall i | 0 <= i < |l| ensures i < |fills| <==> qty > Total(l[..i]) {
      WalkCount(fills, t, l, qty, i);
    }
    if i :| 0 <= i < |l| && l[i].id == k && qty > Total(l[..i]) { assert fills[i].maker == k; }
    if i :| 0 <= i < |fills| && fills[i].maker == k { assert l[i].id == k; }
  }

  lemma TradablePositive(policy: Policy, t: Taker, s: seq<Order>)
    requires Positive(s)
    ensures forall o | o in Tradable(policy, t, s) :: o.qty > 0
  {
    EligibleFrom(policy, t, if Halts(policy) then s[..FirstOwn(policy, t, s)] else s);
  }

  /** An order trades as maker exactly when the taker reaches it. */
  lemma MadeByReaches(policy: Policy, t: Taker, qty: int, s: seq<Order>, k: Id)
    requires qty >= 0 && Positive(s) && Sorted(Against(t.side), s)
    ensures var made := MadeBy(Match(policy, t, qty, s).fills, k);
            made >= 0 && (made > 0 <==> Reaches(policy, t, qty, s, k))
  {
    MatchExact(policy, t, qty, s);
    TradablePositive(policy, t, s);
    WalkReaches(Match(policy, t, qty, s), t, qty, Tradable(policy, t, s), k);
  }

  /** What the policy withdraws is gone. */
  lemma {:induction false} OwnedAbsent(policy: Policy, t: Taker, s: seq<Order>, k: Id)
    requires k !in Ids(s)
    ensures QtyOf(Owned(policy, t, s), k) == 0
  {
    if s == [] {
    } else {
      assert s[0] in s && forall x | x in s[1..] :: x in s;
      OwnedAbsent(policy, t, s[1..], k);
      var o := Owned(policy, t, s[1..]);
      assert ([s[0]] + o)[1..] == o && [] + o == o;
    }
  }

  lemma {:induction false} QtyAbsent(s: seq<Order>, id: Id)
    requires id !in Ids(s)
    ensures QtyOf(s, id) == 0
  {
    if s == [] {
    } else {
      assert s[0] in s && forall x | x in s[1..] :: x in s;
      QtyAbsent(s[1..], id);
    }
  }
}
