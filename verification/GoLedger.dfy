// Where every unit of quantity goes in the Go engine: conservation per order over
// whole runs, what acks report, fill-or-kill, and what rejections leave alone.
module GoLedger {
  import opened Flat
  import opened MatchLaws
  import opened SideLaws
  import opened Books
  import opened Wire
  import opened GoRules
  import GoIndex

  predicate Handled(q: Request) { !q.kind.Modify? && !q.kind.OtherKind? }

  /** Quantity traded by `x` as the taker. */
  function TakenBy(fills: seq<Fill>, x: Id): int {
    if fills == [] then 0 else (if fills[0].taker == x then fills[0].qty else 0) + TakenBy(fills[1..], x)
  }

  function Bare(reports: seq<Report>): (fills: seq<Fill>)
    ensures |fills| == |reports|
    ensures forall i | 0 <= i < |reports| :: fills[i] == reports[i].fill
  {
    seq(|reports|, i requires 0 <= i < |reports| => reports[i].fill)
  }

  /** Quantity taken on under id `x` by a request that is not rejected. */
  function Accepted(s: State, q: Request, x: Id): int {
    if Trades(s, q) && Handled(q) && q.id == x then q.qty else 0
  }

  /** Quantity of `x` that leaves without trading: cancelled, withdrawn by the
      self-trade policy, or a remainder that may not rest. */
  function Withdrawn(policy: Policy, s: State, q: Request, x: Id): int {
    if q.kind.Cancel? && q.target in s.idx then
      var loc := s.idx[q.target];
      var l := if loc.side.Sell? then s.book.asks else s.book.bids;
      var k := Find(l, loc.px, q.target);
      if k < |l| && l[k].id == x then l[k].qty else 0
    else if Trades(s, q) then
      var m := Trading(policy, s.book, q);
      QtyOf(m.pulled, x) + if Handled(q) && q.id == x && (m.stopped || !MayRest(q)) then m.rem else 0
    else 0
  }

  /** What the request can take: the smaller of its quantity and the tradable quantity. */
  function Takes(policy: Policy, b: Book, q: Request): int {
    if q.kind.PostOnly? || q.qty <= 0 then 0
    else Min(q.qty, Total(Tradable(policy, TakerOf(q), Opposite(b, q.side))))
  }

  /** The request is of a kind the engine rejects only after matching it. */
  predicate MatchedThenRejected(policy: Policy, s: State, q: Request) {
    !Handled(q) && Trades(s, q) && Takes(policy, s.book, q) > 0
  }

  lemma {:induction false} TakenByOne(fills: seq<Fill>, taker: Id, x: Id)
    requires forall f | f in fills :: f.taker == taker
    ensures TakenBy(fills, x) == if taker == x then Volume(fills) else 0
  {
    if fills == [] {
    } else {
      TakenByOne(fills[1..], taker, x);
    }
  }

  /** The matching phase: fills add up to what is taken, all under the request's id,
      and each maker loses exactly what it traded or had withdrawn. */
  lemma TradingAdds(policy: Policy, b: Book, q: Request, x: Id)
    requires Shape(b) && (q.qty >= 0 || q.kind.Modify?)
    ensures var m := Trading(policy, b, q);
            && Volume(m.fills) == q.qty - m.rem == Takes(policy, b, q)
            && TakenBy(m.fills, x) == (if q.id == x then q.qty - m.rem else 0)
            && QtyOf(Opposite(b, q.side), x) == QtyOf(m.book, x) + MadeBy(m.fills, x) + QtyOf(m.pulled, x)
  {
    var s, t, m := Opposite(b, q.side), TakerOf(q), Trading(policy, b, q);
    OppositeShape(b, q.side);
    TradableNonneg(policy, t, s);
    if q.qty >= 0 && !q.kind.PostOnly? {
      MatchExact(policy, t, q.qty, s);
      MatchConserves(policy, t, q.qty, s, x);
    }
    assert forall i | 0 <= i < |m.fills| :: m.fills[i].taker == q.id;
    TakenByOne(m.fills, q.id, x);
  }

  lemma SettleQty(b: Book, t: Taker, m: Outcome, mayRest: bool, x: Id)
    ensures RestingQty(Settle(b, t, m, mayRest), x) ==
            RestingQty(b, x) - QtyOf(Opposite(b, t.side), x) + QtyOf(m.book, x)
            + if mayRest && !m.stopped && m.rem > 0 && t.id == x then m.rem else 0
  {
    var b1, o := WithOpposite(b, t.side, m.book), Order(t.id, t.client, t.px, m.rem);
    QtyOfInsert(Buy, b1.bids, o, x);
    QtyOfInsert(Sell, b1.asks, o, x);
  }

  lemma BareNumber(last: int, fills: seq<Fill>)
    ensures Bare(Number(last, fills)) == fills
  {}

  lemma RemNonneg(policy: Policy, b: Book, q: Request)
    requires Shape(b) && (q.qty >= 0 || q.kind.Modify?)
    ensures Takes(policy, b, q) >= 0
    ensures !q.kind.Modify? ==> Trading(policy, b, q).rem >= 0
  {
    var s, t := Opposite(b, q.side), TakerOf(q);
    OppositeShape(b, q.side);
    TradableNonneg(policy, t, s);
    if q.qty >= 0 { MatchExhausts(policy, t, q.qty, s); }
  }

  /** A remainder either rests under the request's id or, if accepted, is withdrawn. */
  function RestedQty(m: Outcome, q: Request, x: Id): int {
    if MayRest(q) && !m.stopped && m.rem > 0 && q.id == x then m.rem else 0
  }

  lemma TradeConserves(policy: Policy, s: State, q: Request, x: Id)
    requires Shape(s.book) && Trades(s, q)
    ensures var (s', r) := Step(policy, s, q);
            RestingQty(s'.book, x) + TakenBy(Bare(r.fills), x) + MadeBy(Bare(r.fills), x) + Withdrawn(policy, s, q, x)
            == RestingQty(s.book, x) + Accepted(s, q, x)
               + if !Handled(q) && q.id == x then Takes(policy, s.book, q) else 0
    ensures Takes(policy, s.book, q) >= 0
  {
    var (s', r) := Step(policy, s, q);
    var m := Trading(policy, s.book, q);
    TradingAdds(policy, s.book, q, x);
    BareNumber(s.fillSeq, m.fills);
    RemNonneg(policy, s.book, q);
    assert RestingQty(s'.book, x) == RestingQty(s.book, x) - QtyOf(Opposite(s.book, q.side), x)
                                     + QtyOf(m.book, x) + RestedQty(m, q, x) by {
      SettleQty(s.book, TakerOf(q), m, MayRest(q), x);
    }
    assert Withdrawn(policy, s, q, x) == QtyOf(m.pulled, x)
           + (if Handled(q) && q.id == x then m.rem else 0) - RestedQty(m, q, x);
  }

  /** One step conserves the quantity of every id, except exactly when an unknown
      kind trades before it is rejected: then its fills have no accepted order. */
  lemma StepConserves(policy: Policy, s: State, q: Request, x: Id)
    requires Shape(s.book)
    ensures var (s', r) := Step(policy, s, q);
            RestingQty(s.book, x) + Accepted(s, q, x)
            == RestingQty(s'.book, x) + TakenBy(Bare(r.fills), x) + MadeBy(Bare(r.fills), x)
               + Withdrawn(policy, s, q, x)
            <==> !(MatchedThenRejected(policy, s, q) && q.id == x)
  {
    if q.kind.Cancel? {
      if q.target in s.idx {
        var loc := s.idx[q.target];
        QtyOfRemove(if loc.side.Sell? then s.book.asks else s.book.bids, loc.px, q.target, x);
      }
    } else if Trades(s, q) {
      TradeConserves(policy, s, q, x);
    }
  }

  // ----- whole runs -----

  /** The account of one id over a run. */
  datatype Account = Account(accepted: int, taken: int, made: int, withdrawn: int)

  function AccountOf(policy: Policy, qs: seq<Request>, x: Id): Account
    decreases |qs|
  {
    if qs == [] then Account(0, 0, 0, 0)
    else
      var n := |qs| - 1;
      var a := AccountOf(policy, qs[..n], x);
      var s := Run(policy, INITIAL, qs[..n]);
      var fills := Bare(Step(policy, s, qs[n]).1.fills);
      Account(a.accepted + Accepted(s, qs[n], x), a.taken + TakenBy(fills, x),
              a.made + MadeBy(fills, x), a.withdrawn + Withdrawn(policy, s, qs[n], x))
  }

  /** Over every run of the six handled types, everything accepted under an id was
      taken, made, withdrawn or still rests. */
  lemma {:induction false} RunConserves(policy: Policy, qs: seq<Request>, x: Id)
    requires forall q | q in qs :: Handled(q)
    ensures var a := AccountOf(policy, qs, x);
            a.accepted == a.taken + a.made + a.withdrawn + RestingQty(Run(policy, INITIAL, qs).book, x)
    decreases |qs|
  {
    if qs == [] {
    } else {
      var n := |qs| - 1;
      RunConserves(policy, qs[..n], x);
      RunShape(policy, qs[..n]);
      assert qs[n] in qs;
      StepConserves(policy, Run(policy, INITIAL, qs[..n]), qs[n], x);
    }
  }

  // ----- acks, fill-or-kill, rejections -----

  /** The ack's filled quantity is the sum of the step's fills and the tradable
      quantity up to the order's own; filled plus remaining is the order's quantity,
      except for a fill-or-kill that came out short. */
  lemma AckTells(policy: Policy, s: State, q: Request)
    requires Shape(s.book) && Trades(s, q) && Handled(q)
    ensures var (s', r) := Step(policy, s, q);
            && r.ack.filled == Volume(Bare(r.fills)) == Takes(policy, s.book, q)
            && (r.ack.filled + r.ack.rem == q.qty <==> !(q.kind.Fok? && Takes(policy, s.book, q) < q.qty))
  {
    TradingAdds(policy, s.book, q, None);
    BareNumber(s.fillSeq, Trading(policy, s.book, q).fills);
  }

  /** A fill-or-kill is refused, with book and index untouched, exactly when the
      crossing quantity falls short of it; otherwise it is acked "filled". */
  lemma FokRefused(policy: Policy, s: State, q: Request)
    requires Shape(s.book) && q.kind.Fok? && Invalid(s, q).None?
    ensures var (s', r) := Step(policy, s, q);
            && (r.ack.status == Rejected(FokUnfillable) <==> CrossQty(TakerOf(q), Opposite(s.book, q.side)) < q.qty)
            && (r.ack.status.Rejected? ==> s'.book == s.book && s'.idx == s.idx && r.fills == [])
            && (!r.ack.status.Rejected? ==> r.ack.status == Filled)
  {}

  /** An accepted fill-or-kill is filled completely if and only if the quantity it may
      trade with, after self-trade prevention, covers it; without a policy it always is. */
  lemma FokAllOrNothing(policy: Policy, s: State, q: Request)
    requires Shape(s.book) && q.kind.Fok? && Trades(s, q)
    ensures Step(policy, s, q).1.ack.filled == q.qty
       <==> Total(Tradable(policy, TakerOf(q), Opposite(s.book, q.side))) >= q.qty
    ensures policy.NoPolicy? ==> Step(policy, s, q).1.ack.filled == q.qty
  {
    AckTells(policy, s, q);
  }

  lemma CoveredByOne(t: Taker, o: Order)
    requires Crosses(t, o.px)
    ensures CrossQty(t, [o]) == o.qty
  {
    assert [o][1..] == [];
    assert Eligible(NoPolicy, t, [o]) == [o] + Eligible(NoPolicy, t, []) == [o];
    assert Total([o]) == o.qty + Total([]);
  }

  lemma FokStops(s: State, q: Request, o: Order)
    requires s.book == Book([], [o]) && q.kind.Fok? && q.side.Buy? && q.px == o.px > 0 && q.qty == o.qty > 0
    requires Own(CancelTaker, q.client, o.client) && (q.client, q.id) !in s.seen
    ensures Step(CancelTaker, s, q).1 == Response(Ack(q.id, Filled, 0, 0, None), [])
  {
    CoveredByOne(TakerOf(q), o);
    MatchHalt(CancelTaker, TakerOf(q), q.qty, [o]);
  }

  /** Under "cancel-taker" a fill-or-kill against the client's own order is acked
      "filled" although nothing traded. */
  lemma FokShort()
    ensures var s := Run(CancelTaker, INITIAL, [Request(Some(1), Some(9), Sell, Limit, 100, 5, None)]);
            var r := Step(CancelTaker, s, Request(Some(2), Some(9), Buy, Fok, 100, 5, None)).1;
            r.ack == Ack(Some(2), Filled, 0, 0, None) && r.fills == []
  {
    var a := Request(Some(1), Some(9), Sell, Limit, 100, 5, None);
    assert [a][..0] == [] && Run(CancelTaker, INITIAL, []) == INITIAL;
    GoIndex.RestsAlone(CancelTaker, INITIAL, a);
    var s, o := Run(CancelTaker, INITIAL, [a]), Order(Some(1), Some(9), 100, 5);
    assert s.book == Book([], [o]);
    FokStops(s, Request(Some(2), Some(9), Buy, Fok, 100, 5, None), o);
  }

  /** The front order trades with the taker or is withdrawn by it. */
  predicate Moves(policy: Policy, t: Taker, qty: int, s: seq<Order>) {
    Active(t, qty, s) && !(policy.CancelTaker? && Own(policy, t.client, s[0].client))
  }

  predicate Disturbs(policy: Policy, b: Book, q: Request) { Moves(policy, TakerOf(q), q.qty, Opposite(b, q.side)) }

  lemma MatchDisturbs(policy: Policy, t: Taker, qty: int, s: seq<Order>)
    requires Lawful(Against(t.side), s)
    ensures var m := Match(policy, t, qty, s);
            m.book == s && m.fills == [] <==> !Moves(policy, t, qty, s)
  {
    if Meets(policy, t, qty, s, true) {
      if policy.CancelMaker? {
        MatchSkip(policy, t, qty, s);
        MatchLeaves(policy, t, qty, s[1..]);
      } else {
        MatchHalt(policy, t, qty, s);
      }
    }
  }

  /** A rejection leaves book and fills alone, except exactly when an unknown or
      "modify" request reaches the matching phase and meets a crossing order. */
  lemma RejectionExact(policy: Policy, s: State, q: Request)
    requires Shape(s.book) && Step(policy, s, q).1.ack.status.Rejected?
    ensures var (s', r) := Step(policy, s, q);
            s'.book == s.book && r.fills == [] <==> !(!Handled(q) && Trades(s, q) && Disturbs(policy, s.book, q))
  {
    if Trades(s, q) {
      OppositeShape(s.book, q.side);
      MatchDisturbs(policy, TakerOf(q), q.qty, Opposite(s.book, q.side));
    }
  }

  lemma ModifyTakes(policy: Policy, s: State, q: Request, o: Order)
    requires q.kind.Modify? && q.side.Buy? && q.client != o.client && q.px == o.px && 0 < q.qty < o.qty
    requires s.book == Book([], [o])
    ensures var (s', r) := Step(policy, s, q);
            && s'.book == Book([], [o.(qty := o.qty - q.qty)])
            && r == Response(Ack(q.id, Rejected(UnknownType), 0, 0, None),
                             [Report(s.fillSeq + 1, Fill(o.px, q.qty, q.id, o.id))])
            && Accepted(s, q, q.id) == 0 && TakenBy(Bare(r.fills), q.id) == q.qty
  {
    var f := Fill(o.px, q.qty, q.id, o.id);
    assert [o][1..] == [];
    MatchPart(policy, TakerOf(q), q.qty, s.book.asks);
    var r := Step(policy, s, q).1;
    assert Bare(r.fills) == [f] && [f][1..] == [];
  }

  /** Against a resting sell of 5, a modify of quantity 3 is rejected as unknown, having taken 3
      that no request was accepted for. */
  lemma RejectedModifyTakes(policy: Policy)
    ensures var ask := Request(Some(1), Some(9), Sell, Limit, 100, 5, None);
            var change := Request(Some(2), Some(8), Buy, Modify, 100, 3, Some(1));
            var s := Run(policy, INITIAL, [ask]);
            var (s', r) := Step(policy, s, change);
            && s.book == Book([], [Order(Some(1), Some(9), 100, 5)])
            && s'.book == Book([], [Order(Some(1), Some(9), 100, 2)])
            && r == Response(Ack(Some(2), Rejected(UnknownType), 0, 0, None),
                             [Report(1, Fill(100, 3, Some(2), Some(1)))])
            && Accepted(s, change, Some(2)) == 0 && TakenBy(Bare(r.fills), Some(2)) == 3
  {
    var ask := Request(Some(1), Some(9), Sell, Limit, 100, 5, None);
    var change := Request(Some(2), Some(8), Buy, Modify, 100, 3, Some(1));
    assert [ask][..0] == [] && Run(policy, INITIAL, []) == INITIAL;
    var s := Run(policy, INITIAL, [ask]);
    GoIndex.RestsAlone(policy, INITIAL, ask);
    ModifyTakes(policy, s, change, Order(Some(1), Some(9), 100, 5));
  }
}
