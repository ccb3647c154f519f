// The JS reference engine's submit as a step function on flat books: its order
// index, its global dedup set, its counters, and modify as cancel and resubmit.
module JsRules {
  import opened Flat
  import opened MatchLaws
  import opened SideLaws
  import opened Books
  import opened Wire
  import GoIndex
  import Go = GoRules
  import Ledger = GoLedger

  datatype Rec = Rec(side: Side, price: int, qtyRemaining: int, client: Id)

  datatype State = State(book: Book, orders: map<Id, Rec>, seenIds: set<Id>, fillIdSeq: int,
                         ordersProcessed: int, fillsTotal: int, lastTrade: Option<(int, int)>)

  const INITIAL := State(EMPTY, map[], {}, 1, 0, 0, None)

  /** Validation of a trading order, in the engine's order. */
  function Invalid(s: State, q: Request): Option<Reason> {
    if q.kind.OtherKind? then Some(UnknownType)
    else if q.side.OtherSide? then Some(BadSide)
    else if q.qty <= 0 then Some(BadQty)
    else if !q.kind.Market? && q.px <= 0 then Some(BadPrice)
    else if q.id.Some? && q.id in s.seenIds then Some(DuplicateId)
    else None
  }

  function Noted(s: State, q: Request): State {
    if q.id.None? then s else s.(seenIds := s.seenIds + {q.id})
  }

  /** The state without the order `target`, which the index knows. */
  function Unlisted(s: State, target: Id): State
    requires target in s.orders
  {
    var rec := s.orders[target];
    s.(book := Cancelled(s.book, rec.side, rec.price, target), orders := s.orders - {target})
  }

  function StatusOf(kind: Kind, filled: int, rem: int): Status {
    match kind
    case Market => if filled == 0 then Unfilled else if rem == 0 then Filled else PartialUnfilled
    case Ioc => if filled == 0 then CancelledIoc else if rem == 0 then Filled else PartialCancelledIoc
    case Fok => Filled
    case _ => if filled == 0 then Accepted else if rem == 0 then Filled else Partial
  }

  function AckOf(q: Request, stopped: bool, rem: int): Ack {
    if stopped then Ack(q.id, StpCancelTaker, q.qty - rem, rem, None)
    else Ack(q.id, StatusOf(q.kind, q.qty - rem, rem), q.qty - rem, if q.kind.Fok? then 0 else rem, None)
  }

  function LastTrade(last: Option<(int, int)>, fills: seq<Fill>): Option<(int, int)> {
    if fills == [] then last else Some((fills[|fills| - 1].px, fills[|fills| - 1].qty))
  }

  /** The state after matching with outcome `m`, before anything rests. */
  function Matched(s: State, q: Request, m: Outcome): State {
    s.(book := WithOpposite(s.book, q.side, m.book), orders := s.orders - m.gone,
       fillIdSeq := s.fillIdSeq + |m.fills|, fillsTotal := s.fillsTotal + |m.fills|,
       lastTrade := LastTrade(s.lastTrade, m.fills))
  }

  /** Rest and acknowledge after matching with outcome `m`. */
  function Finish(s: State, q: Request, m: Outcome): (State, Response) {
    var s1 := Matched(s, q, m);
    var rests := MayRest(q) && !m.stopped && m.rem > 0;
    (s1.(book := Settle(s.book, TakerOf(q), m, MayRest(q)),
         orders := if rests then s1.orders[q.id := Rec(q.side, q.px, m.rem, q.client)] else s1.orders),
     Response(AckOf(q, m.stopped, m.rem), Number(s.fillIdSeq - 1, m.fills)))
  }

  /** A trading order. */
  function Place(policy: Policy, s: State, q: Request): (State, Response) {
    if Invalid(s, q).Some? then (s, Refuse(q, Invalid(s, q).value))
    else
      var s1 := Noted(s, q);
      if Blocked(s.book, q).Some? then (s1, Refuse(q, Blocked(s.book, q).value))
      else Finish(s1, q, Trading(policy, s.book, q))
  }

  /** The limit order a modify resubmits: the target's side, the modify's id, price and quantity. */
  function Replacement(q: Request, side: Side): Request {
    Request(q.id, q.client, side, Limit, q.px, q.qty, None)
  }

  function Counted(s: State): State { s.(ordersProcessed := s.ordersProcessed + 1) }

  function Step(policy: Policy, s0: State, q: Request): (State, Response) {
    var s := Counted(s0);
    if q.kind.Cancel? then
      if q.target in s.orders then (Unlisted(s, q.target), Response(Ack(q.id, CancelledAck, 0, 0, q.target), []))
      else (s, Response(Ack(q.id, CancelMiss, 0, 0, q.target), []))
    else if q.kind.Modify? then
      if q.target in s.orders then
        Place(policy, Counted(Unlisted(s, q.target)), Replacement(q, s.orders[q.target].side))
      else (s, Response(Ack(q.id, ModifyMiss, 0, 0, q.target), []))
    else Place(policy, s, q)
  }

  function Run(policy: Policy, qs: seq<Request>): State
    decreases |qs|
  {
    if qs == [] then INITIAL else Step(policy, Run(policy, qs[..|qs| - 1]), qs[|qs| - 1]).0
  }

  // ----- invariants of every run -----

  /** The index with its stale quantities dropped. */
  function Locs(orders: map<Id, Rec>): map<Id, Go.Loc> {
    map k | k in orders :: Go.Loc(orders[k].side, orders[k].price, orders[k].client)
  }

  ghost predicate IndexExact(s: State) { GoIndex.IndexExact(s.book, Locs(s.orders)) }

  /** Shaped, and every resting id noted. */
  ghost predicate Noting(s: State) { Shape(s.book) && s.orders.Keys <= s.seenIds + {None} }

  /** And indexed exactly by side, price and client. */
  ghost predicate Sound(s: State) { Noting(s) && IndexExact(s) }

  predicate Trades(s: State, q: Request) { Invalid(s, q).None? && Blocked(s.book, q).None? }

  lemma UnlistedSound(s: State, target: Id)
    requires Sound(s) && target in s.orders
    ensures Sound(Unlisted(s, target))
  {
    var rec := s.orders[target];
    CancelShape(s.book, rec.side, rec.price, target);
    GoIndex.IndexCancel(s.book, Locs(s.orders), target);
    assert Locs(s.orders - {target}) == Locs(s.orders) - {target};
  }

  lemma MatchedIndex(s: State, q: Request, policy: Policy, m: Outcome)
    requires Sound(s) && Leaves(policy, TakerOf(q), Opposite(s.book, q.side), m)
    ensures IndexExact(Matched(s, q, m))
  {
    var s1 := Matched(s, q, m);
    assert s1.book == WithOpposite(s.book, q.side, m.book);
    assert Locs(s1.orders) == Locs(s.orders) - m.gone;
    GoIndex.IndexTrade(s.book, Locs(s.orders), policy, TakerOf(q), m);
  }

  lemma RestIndex(b: Book, orders: map<Id, Rec>, q: Request, rem: int)
    requires GoIndex.IndexExact(b, Locs(orders)) && !q.side.OtherSide?
    ensures GoIndex.IndexExact(Rested(b, q.side, Order(q.id, q.client, q.px, rem)),
                               Locs(orders[q.id := Rec(q.side, q.px, rem, q.client)]))
       <==> q.id !in orders
  {
    assert Locs(orders[q.id := Rec(q.side, q.px, rem, q.client)])
      == Locs(orders)[q.id := Go.Loc(q.side, q.px, q.client)];
    GoIndex.IndexRest(b, Locs(orders), q.side, Order(q.id, q.client, q.px, rem));
  }

  /** The trading order comes to rest, after trading, while its id rests already. */
  predicate RestsOnUsedId(policy: Policy, s: State, q: Request) {
    Trades(s, q) && MayRest(q) &&
    var m := Trading(policy, s.book, q);
    !m.stopped && m.rem > 0 && q.id in s.orders.Keys - m.gone
  }

  lemma PlaceExact(policy: Policy, s: State, q: Request)
    requires Sound(s) && !q.kind.Cancel? && !q.kind.Modify?
    ensures var s' := Place(policy, s, q).0;
            Noting(s') && (IndexExact(s') <==> !RestsOnUsedId(policy, s, q))
  {
    if Trades(s, q) {
      var m, s1 := Trading(policy, s.book, q), Noted(s, q);
      TradingLeaves(policy, s.book, q);
      TradingShape(policy, s.book, q);
      MatchedIndex(s1, q, policy, m);
      if MayRest(q) && !m.stopped && m.rem > 0 {
        RestIndex(Matched(s1, q, m).book, s.orders - m.gone, q, m.rem);
      }
    }
  }

  /** The trading order a request comes down to, and the state that order meets. */
  function Incoming(s: State, q: Request): Option<(State, Request)> {
    if q.kind.Cancel? || (q.kind.Modify? && q.target !in s.orders) then None
    else if q.kind.Modify? then
      Some((Counted(Unlisted(Counted(s), q.target)), Replacement(q, s.orders[q.target].side)))
    else Some((Counted(s), q))
  }

  lemma StepPlaces(policy: Policy, s: State, q: Request)
    requires Incoming(s, q).Some?
    ensures Step(policy, s, q) == Place(policy, Incoming(s, q).value.0, Incoming(s, q).value.1)
  {}

  ghost predicate Reuses(policy: Policy, s: State, q: Request) {
    var i := Incoming(s, q);
    i.Some? && RestsOnUsedId(policy, i.value.0, i.value.1)
  }

  lemma IncomingSound(s: State, q: Request)
    requires Sound(s) && Incoming(s, q).Some?
    ensures Sound(Incoming(s, q).value.0)
  {
    if q.kind.Modify? { UnlistedSound(Counted(s), q.target); }
  }

  lemma NoTradeIndex(policy: Policy, s: State, q: Request)
    requires Sound(s) && Incoming(s, q).None?
    ensures Sound(Step(policy, s, q).0)
  {
    if q.kind.Cancel? && q.target in s.orders { UnlistedSound(Counted(s), q.target); }
  }

  /** The exact condition for one request to keep the index in agreement with the book. */
  lemma StepIndex(policy: Policy, s: State, q: Request)
    requires Sound(s)
    ensures var s' := Step(policy, s, q).0;
            Noting(s') && (IndexExact(s') <==> !Reuses(policy, s, q))
  {
    var i := Incoming(s, q);
    if i.Some? {
      IncomingSound(s, q);
      StepPlaces(policy, s, q);
      PlaceExact(policy, i.value.0, i.value.1);
    } else {
      NoTradeIndex(policy, s, q);
    }
  }

  /** Only an order without an id can miss that condition. */
  lemma ReusesUnnamed(policy: Policy, s: State, q: Request)
    requires Sound(s) && Reuses(policy, s, q)
    ensures q.id.None?
  {
    IncomingSound(s, q);
  }

  predicate GivesId(q: Request) { MayRest(q) || q.kind.Modify? ==> q.id.Some? }

  lemma StepNamed(policy: Policy, s: State, q: Request)
    requires Sound(s) && GivesId(q)
    ensures Sound(Step(policy, s, q).0)
  {
    StepIndex(policy, s, q);
    if Reuses(policy, s, q) { ReusesUnnamed(policy, s, q); }
  }

  /** On every run whose resting orders carry ids, repeated ones included, the book is
      shaped and the index holds exactly the resting orders where they rest. */
  lemma {:induction false} RunSound(policy: Policy, qs: seq<Request>)
    requires forall q | q in qs :: GivesId(q)
    ensures Sound(Run(policy, qs))
    decreases |qs|
  {
    if qs == [] {
      assert Locs(map[]) == map[];
    } else {
      var n := |qs| - 1;
      assert qs[n] in qs;
      RunSound(policy, qs[..n]);
      StepNamed(policy, Run(policy, qs[..n]), qs[n]);
    }
  }

  /** A sell that meets no bids rests whole. */
  lemma SellRests(policy: Policy, s: State, q: Request)
    requires s.book.bids == [] && q.kind.Limit? && q.side.Sell? && q.px > 0 && q.qty > 0
    requires q.id.Some? ==> q.id !in s.seenIds
    ensures var s' := Step(policy, s, q).0;
            && s'.book == Book([], Insert(Sell, s.book.asks, Order(q.id, q.client, q.px, q.qty)))
            && s'.orders == s.orders[q.id := Rec(Sell, q.px, q.qty, q.client)]
            && s'.seenIds == Noted(s, q).seenIds
  {
    assert s.orders - {} == s.orders;
  }

  /** Two sells without an id: both rest, and the index has lost the first. */
  lemma UnnamedBreaksIndex(policy: Policy)
    ensures var a := Request(None, Some(1), Sell, Limit, 100, 5, None);
            var b := Request(None, Some(1), Sell, Limit, 200, 5, None);
            var s := Run(policy, [a, b]);
            && s.book == Book([], [Order(None, Some(1), 100, 5), Order(None, Some(1), 200, 5)])
            && s.orders == map[None := Rec(Sell, 200, 5, Some(1))]
  {
    var a := Request(None, Some(1), Sell, Limit, 100, 5, None);
    var b := Request(None, Some(1), Sell, Limit, 200, 5, None);
    assert [a, b][..1] == [a] && [a][..0] == [];
    assert Run(policy, []) == INITIAL;
    SellRests(policy, INITIAL, a);
    SellRests(policy, Run(policy, [a]), b);
    var o := Order(None, Some(1), 100, 5);
    assert Run(policy, [a]).book == Book([], [o]) && [o][1..] == [];
  }

  /** A modify of a known order is a cancel of it followed by a limit order on the
      target's side: the same state and the same answer, rejected or not. */
  lemma ModifyIsCancelThenLimit(policy: Policy, s: State, q: Request, c: Request)
    requires q.kind.Modify? && q.target in s.orders && c.kind.Cancel? && c.target == q.target
    ensures var s1 := Step(policy, s, c).0;
            var q1 := Request(q.id, q.client, s.orders[q.target].side, Limit, q.px, q.qty, None);
            Step(policy, s, q) == Step(policy, s1, q1)
  {}

  lemma TargetSide(s: State, target: Id)
    requires Sound(s) && target in s.orders
    ensures !s.orders[target].side.OtherSide?
    ensures exists o :: (o in s.book.bids || o in s.book.asks) && o.id == target
  {
    var l := Locs(s.orders);
    assert target in l;
    var o :| (o in s.book.bids || o in s.book.asks) && o.id == target;
  }

  /** Of a modify, nothing but its own price, quantity and id can be at fault. */
  lemma ModifyRejected(policy: Policy, s: State, q: Request)
    requires Sound(s) && q.kind.Modify? && q.target in s.orders
    ensures Step(policy, s, q).1.ack.status.Rejected? <==> q.qty <= 0 || q.px <= 0 || (q.id.Some? && q.id in s.seenIds)
  {
    TargetSide(s, q.target);
    StepPlaces(policy, s, q);
  }

  lemma UnlistedDiffers(s: State, target: Id)
    requires Sound(s) && target in s.orders
    ensures Unlisted(s, target).book != s.book
  {
    TargetSide(s, target);
    UnlistedSound(s, target);
    var o :| (o in s.book.bids || o in s.book.asks) && o.id == target;
    assert target !in Locs(Unlisted(s, target).orders);
  }

  /** Modify is not atomic: the target is lost without a replacement exactly when the
      replacement's price, quantity or id is refused. */
  lemma RejectedModifyLosesTarget(policy: Policy, s: State, q: Request)
    requires Sound(s) && q.kind.Modify? && q.target in s.orders
    ensures var (s', r) := Step(policy, s, q);
            q.qty <= 0 || q.px <= 0 || (q.id.Some? && q.id in s.seenIds) <==>
            r.ack.status.Rejected? && r.fills == [] && q.target !in s'.orders
              && s'.book == Unlisted(s, q.target).book != s.book
  {
    ModifyRejected(policy, s, q);
    UnlistedDiffers(s, q.target);
  }

  /** A sell of 5, modified to price 0: rejected, and the book is empty. */
  lemma RefusedModifyEmpties(policy: Policy)
    ensures var ask := Request(Some(1), Some(7), Sell, Limit, 100, 5, None);
            var change := Request(Some(2), Some(7), Sell, Modify, 0, 5, Some(1));
            var s := Run(policy, [ask]);
            var (s', r) := Step(policy, s, change);
            s.book != EMPTY == s'.book && r.ack.status == Rejected(BadPrice) && r.fills == []
  {
    var ask := Request(Some(1), Some(7), Sell, Limit, 100, 5, None);
    assert [ask][..0] == [] && Run(policy, []) == INITIAL;
    SellRests(policy, INITIAL, ask);
    var o := Order(Some(1), Some(7), 100, 5);
    assert Run(policy, [ask]).book == Book([], [o]) && [o][1..] == [];
  }

  lemma PlaceRejected(policy: Policy, s: State, q: Request)
    requires Place(policy, s, q).1.ack.status.Rejected? && !q.kind.Cancel? && !q.kind.Modify?
    ensures Place(policy, s, q).0.book == s.book
  {}

  /** A rejection leaves the book alone exactly when it is not the rejection of a modify. */
  lemma RejectionExact(policy: Policy, s: State, q: Request)
    requires Sound(s) && Step(policy, s, q).1.ack.status.Rejected?
    ensures Step(policy, s, q).0.book == s.book <==> !q.kind.Modify?
  {
    if q.kind.Modify? {
      RejectedModifyLosesTarget(policy, s, q);
      ModifyRejected(policy, s, q);
    } else if !q.kind.Cancel? {
      PlaceRejected(policy, Counted(s), q);
    }
  }

  // ----- the index records -----

  lemma PlaceStands(policy: Policy, s: State, q: Request, k: Id)
    requires k.Some? && s.orders.Keys <= s.seenIds + {None} && k in s.orders && k in Place(policy, s, q).0.orders
    ensures Place(policy, s, q).0.orders[k] == s.orders[k]
  {}

  /** An order's record never changes while it rests. */
  lemma RecordsStand(policy: Policy, s: State, q: Request, k: Id)
    requires Sound(s) && k.Some? && k in s.orders && k in Step(policy, s, q).0.orders
    ensures Step(policy, s, q).0.orders[k] == s.orders[k]
  {
    if q.kind.Modify? && q.target in s.orders {
      UnlistedSound(Counted(s), q.target);
      PlaceStands(policy, Counted(Unlisted(Counted(s), q.target)), Replacement(q, s.orders[q.target].side), k);
    } else if !q.kind.Cancel? && !q.kind.Modify? {
      PlaceStands(policy, Counted(s), q, k);
    }
  }

  // ----- quantities -----

  lemma PlaceAddsUp(policy: Policy, s: State, q: Request)
    requires Shape(s.book) && !q.kind.Cancel? && !q.kind.Modify?
    ensures var r := Place(policy, s, q).1;
            r.ack.filled == Volume(Ledger.Bare(r.fills)) == if Trades(s, q) then Ledger.Takes(policy, s.book, q) else 0
  {
    if Trades(s, q) {
      var m := Trading(policy, s.book, q);
      Ledger.TradingAdds(policy, s.book, q, None);
      Ledger.BareNumber(s.fillIdSeq - 1, m.fills);
    }
  }

  /** The filled quantity of every answer, rejections and modifies included, is the sum of its fills. */
  lemma FillsAddUp(policy: Policy, s: State, q: Request)
    requires Sound(s)
    ensures var r := Step(policy, s, q).1; r.ack.filled == Volume(Ledger.Bare(r.fills))
  {
    if q.kind.Modify? && q.target in s.orders {
      UnlistedSound(Counted(s), q.target);
      PlaceAddsUp(policy, Counted(Unlisted(Counted(s), q.target)), Replacement(q, s.orders[q.target].side));
    } else if !q.kind.Cancel? && !q.kind.Modify? {
      PlaceAddsUp(policy, Counted(s), q);
    }
  }

  // ----- cancels and fill-or-kill -----

  /** A cancel is acknowledged if and only if its target rests, and otherwise leaves the book. */
  lemma CancelAcked(policy: Policy, s: State, q: Request)
    requires Sound(s) && q.kind.Cancel?
    ensures var (s', r) := Step(policy, s, q);
            && (r.ack.status == CancelledAck <==> q.target in Ids(s.book.bids) + Ids(s.book.asks))
            && (r.ack.status != CancelledAck ==> s' == Counted(s))
  {
    if q.target in s.orders { TargetSide(s, q.target); }
    assert q.target in Locs(s.orders) <==> q.target in s.orders;
  }

  /** An accepted fill-or-kill is filled completely if and only if the quantity it may trade with,
      after self-trade prevention, covers it. */
  lemma FokAllOrNothing(policy: Policy, s: State, q: Request)
    requires Shape(s.book) && q.kind.Fok? && Trades(s, q)
    ensures Step(policy, s, q).1.ack.filled == q.qty
       <==> Total(Tradable(policy, TakerOf(q), Opposite(s.book, q.side))) >= q.qty
  {
    StepPlaces(policy, s, q);
    PlaceAddsUp(policy, Counted(s), q);
  }

  /** One that comes out short is worded as filled all the same, unless the policy halts. */
  lemma FokWorded(policy: Policy, s: State, q: Request)
    requires Shape(s.book) && q.kind.Fok? && Trades(s, q)
    ensures Step(policy, s, q).1.ack.status == Filled
       <==> !Halts(policy) || Total(Tradable(policy, TakerOf(q), Opposite(s.book, q.side))) >= q.qty
  {
    var t, l := TakerOf(q), Opposite(s.book, q.side);
    StepPlaces(policy, s, q);
    OppositeShape(s.book, q.side);
    HaltExact(policy, t, q.qty, l);
    var j := FirstOwn(policy, t, l);
    if Halts(policy) && (j == |l| || !Crosses(t, l[j].px)) { TradableAll(policy, t, l); }
  }

  lemma FokSkips(s: State, q: Request, o: Order)
    requires s.book == Book([], [o]) && q.kind.Fok? && q.side.Buy? && q.px == o.px > 0 && q.qty == o.qty > 0
    requires Own(CancelMaker, q.client, o.client) && q.id !in s.seenIds
    ensures Step(CancelMaker, s, q).1 == Response(Ack(q.id, Filled, 0, 0, None), [])
    ensures Step(CancelMaker, s, q).0.book == EMPTY
  {
    Ledger.CoveredByOne(TakerOf(q), o);
    MatchSkip(CancelMaker, TakerOf(q), q.qty, [o]);
    assert [o][1..] == [];
    assert Match(CancelMaker, TakerOf(q), q.qty, []) == Idle(q.qty, []);
  }

  /** Under "cancel-maker" a fill-or-kill against the client's own order is acked "filled" although
      nothing traded, and the own order is gone. */
  lemma FokShort()
    ensures var ask := Request(Some(1), Some(9), Sell, Limit, 100, 5, None);
            var fok := Request(Some(2), Some(9), Buy, Fok, 100, 5, None);
            var (s', r) := Step(CancelMaker, Run(CancelMaker, [ask]), fok);
            r == Response(Ack(Some(2), Filled, 0, 0, None), []) && s'.book == EMPTY
  {
    var ask := Request(Some(1), Some(9), Sell, Limit, 100, 5, None);
    assert [ask][..0] == [] && Run(CancelMaker, []) == INITIAL;
    SellRests(CancelMaker, INITIAL, ask);
    var s, o := Run(CancelMaker, [ask]), Order(Some(1), Some(9), 100, 5);
    assert s.book == Book([], [o]);
    FokSkips(s, Request(Some(2), Some(9), Buy, Fok, 100, 5, None), o);
  }

  // ----- fill numbers -----

  function Answer(policy: Policy, qs: seq<Request>, k: nat): Response
    requires k < |qs|
  {
    Step(policy, Run(policy, qs[..k]), qs[k]).1
  }

  /** A step numbers its fills consecutively from the counter, and moves the counter past them. */
  lemma StepNumbers(policy: Policy, s: State, q: Request)
    ensures var (s', r) := Step(policy, s, q);
            && s'.fillIdSeq == s.fillIdSeq + |r.fills|
            && forall i | 0 <= i < |r.fills| :: r.fills[i].no == s.fillIdSeq + i
  {}

  lemma {:induction false} CounterRises(policy: Policy, qs: seq<Request>, i: nat, j: nat)
    requires i <= j <= |qs|
    ensures Run(policy, qs[..i]).fillIdSeq <= Run(policy, qs[..j]).fillIdSeq
    decreases j
  {
    if i < j {
      CounterRises(policy, qs, i, j - 1);
      assert qs[..j][..j - 1] == qs[..j - 1];
      StepNumbers(policy, Run(policy, qs[..j - 1]), qs[j - 1]);
    }
  }

  /** No two fills of a run share a number, and later fills have higher ones. */
  lemma FillNumbersRise(policy: Policy, qs: seq<Request>, i: nat, j: nat, a: nat, b: nat)
    requires i <= j < |qs| && a < |Answer(policy, qs, i).fills| && b < |Answer(policy, qs, j).fills|
    ensures Answer(policy, qs, i).fills[a].no < Answer(policy, qs, j).fills[b].no <==> i < j || a < b
  {
    StepNumbers(policy, Run(policy, qs[..i]), qs[i]);
    StepNumbers(policy, Run(policy, qs[..j]), qs[j]);
    if i < j {
      assert qs[..i + 1][..i] == qs[..i];
      CounterRises(policy, qs, i + 1, j);
    }
  }

  // ----- what the records say -----

  function MadeIn(r: Response, k: Id): int { MadeBy(Ledger.Bare(r.fills), k) }

  /** Quantity traded with `k` as the maker over a run. */
  function Made(policy: Policy, qs: seq<Request>, k: Id): int
    decreases |qs|
  {
    if qs == [] then 0
    else Made(policy, qs[..|qs| - 1], k) + MadeIn(Answer(policy, qs, |qs| - 1), k)
  }

  /** A trading order as `Place` handles it, once validated. */
  lemma PlaceTrades(policy: Policy, s: State, q: Request)
    ensures Trades(s, q) ==>
      var m, p := Trading(policy, s.book, q), Place(policy, s, q);
      && p.0.book == Settle(s.book, TakerOf(q), m, MayRest(q)) && Ledger.Bare(p.1.fills) == m.fills
      && p.0.orders == if MayRest(q) && !m.stopped && m.rem > 0
                       then (s.orders - m.gone)[q.id := Rec(q.side, q.px, m.rem, q.client)] else s.orders - m.gone
    ensures !Trades(s, q) ==>
      var p := Place(policy, s, q);
      p.0.book == s.book && p.0.orders == s.orders && p.1.fills == []
  {
    Ledger.BareNumber(s.fillIdSeq - 1, Trading(policy, s.book, q).fills);
  }

  lemma PulledAbsent(policy: Policy, t: Taker, l: seq<Order>, m: Outcome, k: Id)
    requires Leaves(policy, t, l, m) && k !in m.gone
    ensures QtyOf(m.pulled, k) == 0
  {
    OwnedAbsent(policy, t, l[..|l| - |m.book|], k);
  }

  /** An id that is not indexed rests nowhere and trades with nobody. */
  lemma UnindexedIdle(policy: Policy, s: State, q: Request, k: Id)
    requires Sound(s) && k !in s.orders && q.qty >= 0
    ensures RestingQty(s.book, k) == QtyOf(Opposite(s.book, q.side), k) == 0
    ensures var m := Trading(policy, s.book, q); QtyOf(m.book, k) == 0 && MadeBy(m.fills, k) == 0
  {
    assert k !in Locs(s.orders);
    QtyAbsent(s.book.bids, k);
    QtyAbsent(s.book.asks, k);
    TradingLeaves(policy, s.book, q);
    Ledger.TradingAdds(policy, s.book, q, k);
    var l, m := Opposite(s.book, q.side), Trading(policy, s.book, q);
    LeavesMembers(policy, TakerOf(q), l, m);
    QtyAbsent(m.book, k);
    OppositeShape(s.book, q.side);
    MadeByReaches(policy, TakerOf(q), q.qty, l, k);
    PulledAbsent(policy, TakerOf(q), l, m, k);
  }

  lemma TradedQty(policy: Policy, s: State, q: Request, k: Id)
    requires Sound(s) && Trades(s, q) && k != q.id && k !in Trading(policy, s.book, q).gone
    ensures var m := Trading(policy, s.book, q);
            RestingQty(Settle(s.book, TakerOf(q), m, MayRest(q)), k) == RestingQty(s.book, k) - MadeBy(m.fills, k)
  {
    var m := Trading(policy, s.book, q);
    TradingLeaves(policy, s.book, q);
    Ledger.TradingAdds(policy, s.book, q, k);
    PulledAbsent(policy, TakerOf(q), Opposite(s.book, q.side), m, k);
    Ledger.SettleQty(s.book, TakerOf(q), m, MayRest(q), k);
  }

  /** An order that rests before and after a trading order gives up exactly what it trades. */
  lemma PlaceQty(policy: Policy, s: State, q: Request, k: Id)
    requires Sound(s) && k.Some? && k in s.orders && k in Place(policy, s, q).0.orders
    ensures var (s', r) := Place(policy, s, q);
            RestingQty(s'.book, k) == RestingQty(s.book, k) - MadeIn(r, k)
  {
    PlaceTrades(policy, s, q);
    if Trades(s, q) { TradedQty(policy, s, q, k); }
  }

  /** What a trading order brings to rest is recorded with the quantity that rests, and an id
      that was not indexed has not traded as a maker. */
  lemma PlaceRests(policy: Policy, s: State, q: Request, k: Id)
    requires Sound(s) && k.Some? && k !in s.orders
    ensures var (s', r) := Place(policy, s, q);
            && MadeIn(r, k) == 0
            && (k in s'.orders ==> k !in s.seenIds && s'.orders[k].qtyRemaining == RestingQty(s'.book, k))
  {
    PlaceTrades(policy, s, q);
    if Trades(s, q) {
      var m := Trading(policy, s.book, q);
      UnindexedIdle(policy, s, q, k);
      Ledger.SettleQty(s.book, TakerOf(q), m, MayRest(q), k);
    }
  }

  /** A withdrawal changes no other order's quantity. */
  lemma UnlistedQty(s: State, target: Id, k: Id)
    requires Sound(s) && target in s.orders && k != target
    ensures RestingQty(Unlisted(s, target).book, k) == RestingQty(s.book, k)
  {
    var rec := s.orders[target];
    QtyOfRemove(s.book.bids, rec.price, target, k);
    QtyOfRemove(s.book.asks, rec.price, target, k);
    FindFirst(s.book.bids, rec.price, target);
    FindFirst(s.book.asks, rec.price, target);
  }

  /** The target of a modify does not come back: its id is taken. */
  lemma StillListed(policy: Policy, s1: State, q1: Request, s: State, q: Request, k: Id)
    requires Sound(s) && q.kind.Modify? && q.target in s.orders && k.Some? && k in s.orders
    requires s1 == Counted(Unlisted(Counted(s), q.target)) && q1 == Replacement(q, s.orders[q.target].side)
    requires k in Place(policy, s1, q1).0.orders
    ensures k != q.target && k in s1.orders
  {
    PlaceTrades(policy, s1, q1);
  }

  /** Over one request, an order that keeps resting gives up exactly what it trades. */
  lemma StepQty(policy: Policy, s: State, q: Request, k: Id)
    requires Sound(s) && k.Some? && k in s.orders && k in Step(policy, s, q).0.orders
    ensures var (s', r) := Step(policy, s, q);
            RestingQty(s'.book, k) == RestingQty(s.book, k) - MadeIn(r, k) && s'.orders[k] == s.orders[k]
  {
    RecordsStand(policy, s, q, k);
    if q.kind.Cancel? || q.kind.Modify? {
      if q.target in s.orders {
        UnlistedSound(Counted(s), q.target);
        if q.kind.Modify? {
          var s1, q1 := Counted(Unlisted(Counted(s), q.target)), Replacement(q, s.orders[q.target].side);
          StillListed(policy, s1, q1, s, q, k);
          PlaceQty(policy, s1, q1, k);
        }
        UnlistedQty(s, q.target, k);
      }
    } else {
      PlaceQty(policy, Counted(s), q, k);
    }
  }

  /** Over one request, an order that comes to rest is recorded with what rests, and an id that
      was not indexed has not traded as a maker. */
  lemma StepRests(policy: Policy, s: State, q: Request, k: Id)
    requires Sound(s) && k.Some? && k !in s.orders
    ensures var (s', r) := Step(policy, s, q);
            && MadeIn(r, k) == 0 && s.seenIds <= s'.seenIds
            && (k in s'.orders ==> k !in s.seenIds && s'.orders[k].qtyRemaining == RestingQty(s'.book, k))
  {
    if q.kind.Modify? && q.target in s.orders {
      UnlistedSound(Counted(s), q.target);
      PlaceRests(policy, Counted(Unlisted(Counted(s), q.target)), Replacement(q, s.orders[q.target].side), k);
    } else if !q.kind.Cancel? && !q.kind.Modify? {
      PlaceRests(policy, Counted(s), q, k);
    }
  }

  /** The record of `k` holds what rests plus what it has traded, and an unknown id has traded nothing. */
  predicate Tells(s: State, k: Id, made: int) {
    && (k in s.orders ==> s.orders[k].qtyRemaining == RestingQty(s.book, k) + made)
    && (k !in s.seenIds ==> made == 0)
  }

  lemma StepKeepsSeen(policy: Policy, s: State, q: Request)
    ensures s.seenIds <= Step(policy, s, q).0.seenIds
  {}

  lemma StepTells(policy: Policy, s: State, q: Request, k: Id, made: int)
    requires Sound(s) && GivesId(q) && k.Some? && Tells(s, k, made)
    ensures Tells(Step(policy, s, q).0, k, made + MadeIn(Step(policy, s, q).1, k))
  {
    var s' := Step(policy, s, q).0;
    StepNamed(policy, s, q);
    if k in s.orders {
      if k in s'.orders { StepQty(policy, s, q, k); }
      StepKeepsSeen(policy, s, q);
    } else {
      StepRests(policy, s, q, k);
    }
  }

  /** Over every run, the record of a resting order holds the quantity that rests plus all it
      has traded, that is the quantity that first came to rest. */
  lemma {:induction false} RecordTells(policy: Policy, qs: seq<Request>, k: Id)
    requires (forall q | q in qs :: GivesId(q)) && k.Some?
    ensures Tells(Run(policy, qs), k, Made(policy, qs, k))
    decreases |qs|
  {
    if qs == [] {
    } else {
      var n := |qs| - 1;
      assert qs[n] in qs;
      RecordTells(policy, qs[..n], k);
      RunSound(policy, qs[..n]);
      StepTells(policy, Run(policy, qs[..n]), qs[n], k, Made(policy, qs[..n], k));
    }
  }

  /** The trading order reaches order `k`. */
  ghost predicate Touches(policy: Policy, s: State, q: Request, k: Id) {
    Trades(s, q) && !q.kind.PostOnly? && Reaches(policy, TakerOf(q), q.qty, Opposite(s.book, q.side), k)
  }

  lemma TouchesTrades(policy: Policy, s: State, q: Request, k: Id)
    requires Shape(s.book) && !q.kind.Cancel? && !q.kind.Modify?
    ensures MadeIn(Place(policy, s, q).1, k) >= 0
    ensures MadeIn(Place(policy, s, q).1, k) > 0 <==> Touches(policy, s, q, k)
  {
    PlaceTrades(policy, s, q);
    if Trades(s, q) && !q.kind.PostOnly? {
      OppositeShape(s.book, q.side);
      MadeByReaches(policy, TakerOf(q), q.qty, Opposite(s.book, q.side), k);
    }
  }

  /** The trading order the request comes down to, if any, reaches order `k`. */
  ghost predicate Reached(policy: Policy, s: State, q: Request, k: Id) {
    var i := Incoming(s, q);
    i.Some? && Touches(policy, i.value.0, i.value.1, k)
  }

  /** A record that agrees with the resting quantity keeps agreeing, over a request that leaves
      the order resting, exactly when the request does not reach it by trading. */
  lemma RecordGoesStale(policy: Policy, s: State, q: Request, k: Id)
    requires Sound(s) && k.Some? && k in s.orders && s.orders[k].qtyRemaining == RestingQty(s.book, k)
    requires k in Step(policy, s, q).0.orders
    ensures var s' := Step(policy, s, q).0;
            s'.orders[k].qtyRemaining == RestingQty(s'.book, k) <==> !Reached(policy, s, q, k)
  {
    StepQty(policy, s, q, k);
    var i := Incoming(s, q);
    if i.Some? {
      IncomingSound(s, q);
      StepPlaces(policy, s, q);
      TouchesTrades(policy, i.value.0, i.value.1, k);
    }
  }

  lemma SecondTakes(policy: Policy, s: State, q: Request, a: Order)
    requires q.kind.Limit? && q.side.Buy? && q.id.Some? && q.id !in s.seenIds && q.px == a.px > 0 && 0 < q.qty < a.qty
    requires s.book == Book([], [a]) && q.client != a.client
    ensures var s' := Step(policy, s, q).0;
            s'.book == Book([], [a.(qty := a.qty - q.qty)]) && s'.orders == s.orders
  {
    MatchPart(policy, TakerOf(q), q.qty, s.book.asks);
    PlaceTrades(policy, Counted(s), q);
    assert [a][1..] == [] && s.orders - {} == s.orders;
  }

  /** A sell of 5 of which 3 trade: 2 rest, and the record still says 5. */
  lemma RecordsAreStale(policy: Policy)
    ensures var ask := Request(Some(1), Some(7), Sell, Limit, 100, 5, None);
            var bid := Request(Some(2), Some(8), Buy, Limit, 100, 3, None);
            var s := Run(policy, [ask, bid]);
            s.book == Book([], [Order(Some(1), Some(7), 100, 2)])
              && s.orders == map[Some(1) := Rec(Sell, 100, 5, Some(7))]
  {
    var ask := Request(Some(1), Some(7), Sell, Limit, 100, 5, None);
    var bid := Request(Some(2), Some(8), Buy, Limit, 100, 3, None);
    assert [ask, bid][..1] == [ask] && [ask][..0] == [];
    assert Run(policy, []) == INITIAL && Run(policy, [ask]) == Step(policy, INITIAL, ask).0;
    SellRests(policy, INITIAL, ask);
    SecondTakes(policy, Run(policy, [ask]), bid, Order(Some(1), Some(7), 100, 5));
  }
}
