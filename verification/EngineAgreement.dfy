// The Go and the JS engine side by side: on one run of requests they hold the same
// book and index and report the same fills under every policy, and their acks differ
// exactly when self-trade prevention cancels a taker that could not have rested.
module EngineAgreement {
  import opened Flat
  import opened MatchLaws
  import opened Books
  import opened Wire
  import Go = GoRules
  import Js = JsRules
  import GoIndex

  /** Requests both engines handle, each order id used by one client only. */
  ghost predicate Comparable(owner: Id -> Id, q: Request) {
    && !q.kind.Modify? && !q.kind.OtherKind?
    && (q.kind.Cancel? || q.id.None? || q.client == owner(q.id))
  }

  /** The Go dedup set, keyed by client and id, and the JS one, keyed by id, say the same. */
  ghost predicate SameSeen(owner: Id -> Id, seen: set<(Id, Id)>, seenIds: set<Id>) {
    && (forall k | k in seen :: k.1 in seenIds && k.0 == owner(k.1))
    && (forall i | i in seenIds :: (owner(i), i) in seen)
  }

  ghost predicate Same(owner: Id -> Id, g: Go.State, j: Js.State) {
    && Shape(g.book) && g.book == j.book && g.idx == Js.Locs(j.orders)
    && j.fillIdSeq == g.fillSeq + 1 && SameSeen(owner, g.seen, j.seenIds)
  }

  /** Both engines word the outcome of an unstopped order alike. */
  lemma AcksAgree(q: Request, stopped: bool, rem: int)
    requires !q.kind.Cancel? && !q.kind.Modify? && !q.kind.OtherKind? && 0 <= rem <= q.qty && q.qty > 0
    ensures Go.AckOf(q, stopped, rem) == Js.AckOf(q, stopped, rem) <==> !(stopped && !MayRest(q))
  {}

  lemma FinishAgrees(owner: Id -> Id, g: Go.State, j: Js.State, q: Request, m: Outcome)
    requires Same(owner, g, j) && Shape(Settle(g.book, TakerOf(q), m, MayRest(q)))
    ensures Same(owner, Go.Finish(g, q, m).0, Js.Finish(j, q, m).0)
    ensures Go.Finish(g, q, m).1.fills == Js.Finish(j, q, m).1.fills
  {
    var orders1 := j.orders - m.gone;
    assert Js.Locs(orders1) == Js.Locs(j.orders) - m.gone;
    var rec := Js.Rec(q.side, q.px, m.rem, q.client);
    assert Js.Locs(orders1[q.id := rec]) == Js.Locs(orders1)[q.id := Go.Loc(q.side, q.px, q.client)];
  }

  /** The request may not rest and reaches an own order it has to stop at: that order is at a
      crossing price, and what it may trade with ahead of it does not cover its quantity. */
  predicate StoppedInFlight(policy: Policy, g: Go.State, q: Request) {
    var t, s := TakerOf(q), Opposite(g.book, q.side);
    var j := FirstOwn(policy, t, s);
    && Go.Trades(g, q) && !MayRest(q) && Halts(policy)
    && j < |s| && Crosses(t, s[j].px) && q.qty > Total(Tradable(policy, t, s))
  }

  lemma TradeAgrees(owner: Id -> Id, policy: Policy, g: Go.State, j: Js.State, q: Request)
    requires Same(owner, g, j) && Comparable(owner, q) && Go.Trades(g, q)
    ensures var (g', a) := Go.Step(policy, g, q);
            var (j', b) := Js.Place(policy, j, q);
            Same(owner, g', j') && a.fills == b.fills && (a.ack == b.ack <==> !StoppedInFlight(policy, g, q))
  {
    var m := Trading(policy, g.book, q);
    var g1, j1 := Go.Noted(g, q), Js.Noted(j, q);
    TradingShape(policy, g.book, q);
    OppositeShape(g.book, q.side);
    MatchExhausts(policy, TakerOf(q), q.qty, Opposite(g.book, q.side));
    HaltExact(policy, TakerOf(q), q.qty, Opposite(g.book, q.side));
    assert Same(owner, g1, j1);
    FinishAgrees(owner, g1, j1, q, m);
    AcksAgree(q, m.stopped, m.rem);
    assert Go.Step(policy, g, q) == Go.Finish(g1, q, m) && Js.Place(policy, j, q) == Js.Finish(j1, q, m);
  }

  lemma CountedSame(owner: Id -> Id, g: Go.State, j: Js.State)
    requires Same(owner, g, j)
    ensures Same(owner, g, Js.Counted(j))
  {}

  lemma CancelAgrees(owner: Id -> Id, policy: Policy, g: Go.State, j: Js.State, q: Request)
    requires Same(owner, g, j) && q.kind.Cancel?
    ensures var (g', a) := Go.Step(policy, g, q);
            var (j', b) := Js.Step(policy, j, q);
            Same(owner, g', j') && a == b
  {
    Go.StepShape(policy, g, q);
    assert Js.Locs(j.orders - {q.target}) == Js.Locs(j.orders) - {q.target};
  }

  /** One request: the same fills, book, index and dedup, and the same ack unless the
      policy stops a market, ioc or fok order in flight. */
  lemma StepAgrees(owner: Id -> Id, policy: Policy, g: Go.State, j: Js.State, q: Request)
    requires Same(owner, g, j) && Comparable(owner, q)
    ensures var (g', a) := Go.Step(policy, g, q);
            var (j', b) := Js.Step(policy, j, q);
            Same(owner, g', j') && a.fills == b.fills && (a.ack == b.ack <==> !StoppedInFlight(policy, g, q))
  {
    if q.kind.Cancel? {
      CancelAgrees(owner, policy, g, j, q);
    } else {
      CountedSame(owner, g, j);
      Js.StepPlaces(policy, j, q);
      if Go.Trades(g, q) { TradeAgrees(owner, policy, g, Js.Counted(j), q); }
    }
  }

  lemma StartsSame(owner: Id -> Id)
    ensures Same(owner, Go.INITIAL, Js.INITIAL)
  {
    assert Js.Locs(map[]) == map[];
  }

  lemma {:induction false} RunsAgree(owner: Id -> Id, policy: Policy, qs: seq<Request>)
    requires forall q | q in qs :: Comparable(owner, q)
    ensures Same(owner, Go.Run(policy, Go.INITIAL, qs), Js.Run(policy, qs))
    decreases |qs|
  {
    if qs == [] {
      StartsSame(owner);
    } else {
      var n := |qs| - 1;
      assert qs[n] in qs;
      RunsAgree(owner, policy, qs[..n]);
      StepAgrees(owner, policy, Go.Run(policy, Go.INITIAL, qs[..n]), Js.Run(policy, qs[..n]), qs[n]);
    }
  }

  /** Without self-trade prevention the two engines answer every request of every run
      with the same ack and the same numbered fills. */
  lemma {:induction false} AnswersAgree(owner: Id -> Id, qs: seq<Request>, k: nat)
    requires (forall q | q in qs :: Comparable(owner, q)) && k < |qs|
    ensures Go.Step(NoPolicy, Go.Run(NoPolicy, Go.INITIAL, qs[..k]), qs[k]).1
         == Js.Step(NoPolicy, Js.Run(NoPolicy, qs[..k]), qs[k]).1
  {
    assert qs[k] in qs && forall q | q in qs[..k] :: q in qs;
    RunsAgree(owner, NoPolicy, qs[..k]);
    var g := Go.Run(NoPolicy, Go.INITIAL, qs[..k]);
    StepAgrees(owner, NoPolicy, g, Js.Run(NoPolicy, qs[..k]), qs[k]);
  }

  /** A market order that meets its own client's order first under cancel-taker: Go reports it
      unfilled, JS cancelled by self-trade prevention. */
  lemma StoppedMarketDiffers()
    ensures var ask := Request(Some(1), Some(7), Sell, Limit, 100, 5, None);
            var take := Request(Some(2), Some(7), Buy, Market, 0, 3, None);
            var g, j := Go.Run(CancelTaker, Go.INITIAL, [ask]), Js.Run(CancelTaker, [ask]);
            && Go.Step(CancelTaker, g, take).1 == Response(Ack(Some(2), Unfilled, 0, 3, None), [])
            && Js.Step(CancelTaker, j, take).1 == Response(Ack(Some(2), StpCancelTaker, 0, 3, None), [])
  {
    var ask := Request(Some(1), Some(7), Sell, Limit, 100, 5, None);
    var take := Request(Some(2), Some(7), Buy, Market, 0, 3, None);
    assert [ask][..0] == [] && Go.Run(CancelTaker, Go.INITIAL, []) == Go.INITIAL;
    assert Js.Run(CancelTaker, []) == Js.INITIAL;
    GoIndex.RestsAlone(CancelTaker, Go.INITIAL, ask);
    Js.SellRests(CancelTaker, Js.INITIAL, ask);
    var g, j := Go.Run(CancelTaker, Go.INITIAL, [ask]), Js.Run(CancelTaker, [ask]);
    assert g.book == j.book == Book([], [Order(Some(1), Some(7), 100, 5)]);
    MatchHalt(CancelTaker, TakerOf(take), 3, g.book.asks);
  }
}
