// What the JS engine answers to every request and what its counters hold, in terms of the
// requests, of the answers before and of the prices, owners and quantities in the book.
module JsAnswers {
  import opened Flat
  import opened MatchLaws
  import opened Books
  import opened Wire
  import opened Offers
  import opened JsRules
  import Ledger = GoLedger

  predicate Fresh(s: State, q: Request) { q.id.None? || q.id !in s.seenIds }

  /** A request that is no cancel and no modify; a modify is a cancel followed by one of these. */
  predicate Direct(q: Request) { !q.kind.Cancel? && !q.kind.Modify? }

  lemma Verdict(policy: Policy, s: State, q: Request)
    requires Direct(q)
    ensures var a, i, b := Step(policy, s, q).1.ack, Invalid(s, q), Blocked(s.book, q);
            var refusal := if i.Some? then i else b;
            if refusal.Some? then a == Ack(q.id, Rejected(refusal.value), 0, 0, None) else !a.status.Rejected?
  {}

  /** The refusals, each with its exact cause. */
  lemma Refused(policy: Policy, s: State, q: Request)
    requires Shape(s.book) && Direct(q)
    ensures var a := Step(policy, s, q).1.ack;
            var l, sound := Faced(s.book, q), Usable(q) && Fresh(s, q);
            && (a.status == Rejected(UnknownType) <==> q.kind.OtherKind?)
            && (a.status == Rejected(BadSide) <==> !q.kind.OtherKind? && q.side.OtherSide?)
            && (a.status == Rejected(BadQty) <==> !q.kind.OtherKind? && !q.side.OtherSide? && q.qty <= 0)
            && (a.status == Rejected(BadPrice) <==>
                !q.kind.OtherKind? && !q.side.OtherSide? && q.qty > 0 && !q.kind.Market? && q.px <= 0)
            && (a.status == Rejected(DuplicateId) <==> !q.kind.OtherKind? && Usable(q) && !Fresh(s, q))
            && (a.status == Rejected(WouldCrossPostOnly) <==>
                q.kind.PostOnly? && sound && exists i :: 0 <= i < |l| && Within(BoundOf(q), l[i].px))
            && (a.status == Rejected(FokUnfillable) <==>
                q.kind.Fok? && sound && Total(Offered(NoPolicy, q.client, BoundOf(q), l)) < q.qty)
            && (a.status.Rejected? ==> a == Ack(q.id, a.status, 0, 0, None))
  {
    BlockedExact(s.book, q);
    Verdict(policy, s, q);
  }

  /** A request that is not refused: the step in terms of the outcome of matching. */
  lemma Settled(policy: Policy, s: State, q: Request)
    requires Direct(q) && !Step(policy, s, q).1.ack.status.Rejected?
    ensures var m, p := Trading(policy, s.book, q), Step(policy, s, q);
            && p.0.book == Settle(s.book, TakerOf(q), m, MayRest(q)) && p.1.ack == AckOf(q, m.stopped, m.rem)
            && Ledger.Bare(p.1.fills) == m.fills
  {
    Ledger.BareNumber(s.fillIdSeq - 1, Trading(policy, s.book, q).fills);
  }

  lemma AckIs(policy: Policy, s: State, q: Request)
    requires Shape(s.book) && Direct(q) && !Step(policy, s, q).1.ack.status.Rejected?
    ensures var m := Trading(policy, s.book, q);
            && 0 <= m.rem <= q.qty && Usable(q) && !q.kind.OtherKind?
            && (if q.kind.PostOnly? then !m.stopped && m.rem == q.qty
                else m.stopped <==> Stops(policy, q.client, BoundOf(q), q.qty, Faced(s.book, q)))
  {
    OppositeShape(s.book, q.side);
    RequestBound(q);
    MatchStops(policy, TakerOf(q), BoundOf(q), q.qty, Faced(s.book, q));
    MatchExhausts(policy, TakerOf(q), q.qty, Faced(s.book, q));
  }

  /** What a request that trades takes: the fills walk what is offered, and the ack says how much. */
  lemma Quantities(policy: Policy, s: State, q: Request)
    requires Shape(s.book) && Direct(q) && !Step(policy, s, q).1.ack.status.Rejected?
    ensures var r, offers := Step(policy, s, q).1, Offered(policy, q.client, BoundOf(q), Faced(s.book, q));
            && Takes(Ledger.Bare(r.fills), q.id, q.qty, if q.kind.PostOnly? then [] else offers)
            && r.ack.id == q.id && r.ack.target == None && r.ack.filled == Volume(Ledger.Bare(r.fills))
            && r.ack.rem == if q.kind.Fok? && r.ack.status != StpCancelTaker then 0 else q.qty - r.ack.filled
  {
    AckIs(policy, s, q);
    Settled(policy, s, q);
    OppositeShape(s.book, q.side);
    RequestBound(q);
    MatchTakes(policy, TakerOf(q), BoundOf(q), q.qty, Faced(s.book, q));
  }

  /** How the outcome is worded, kind by kind; a stopped order says so whatever its kind. */
  lemma Worded(policy: Policy, s: State, q: Request)
    requires Shape(s.book) && Direct(q) && !Step(policy, s, q).1.ack.status.Rejected?
    ensures var a := Step(policy, s, q).1.ack;
            && (a.status == StpCancelTaker <==>
                !q.kind.PostOnly? && Stops(policy, q.client, BoundOf(q), q.qty, Faced(s.book, q)))
            && (a.status == StpCancelTaker ||
                match q.kind
                case Market =>
                  a.status == if a.filled == 0 then Unfilled else if a.filled < q.qty then PartialUnfilled else Filled
                case Ioc =>
                  a.status ==
                    if a.filled == 0 then CancelledIoc else if a.filled < q.qty then PartialCancelledIoc else Filled
                case Fok => a.status == Filled
                case PostOnly => a.status == Accepted && a.filled == 0
                case _ => a.status == if a.filled == 0 then Accepted else if a.filled < q.qty then Partial else Filled)
  {
    AckIs(policy, s, q);
    Settled(policy, s, q);
  }

  /** Where the book takes it: the own side gains the remainder of an order that may rest, behind all
      of equal or better price; without a policy the other side is swept. */
  lemma BookAfter(policy: Policy, s: State, q: Request)
    requires Shape(s.book) && Direct(q) && !Step(policy, s, q).1.ack.status.Rejected?
    ensures var (s', r) := Step(policy, s, q);
            var own, own' := Beside(s.book, q), Beside(s'.book, q);
            && (if (q.kind.Limit? || q.kind.PostOnly?) && r.ack.rem > 0 && r.ack.status != StpCancelTaker
                then RestsIn(q.side.Buy?, own, Order(q.id, q.client, q.px, r.ack.rem), own')
                else own' == own)
            && (policy.NoPolicy? && !q.kind.PostOnly? ==>
                Faced(s'.book, q) == Swept(BoundOf(q), Faced(s.book, q), q.qty))
            && (q.kind.PostOnly? ==> Faced(s'.book, q) == Faced(s.book, q))
  {
    AckIs(policy, s, q);
    Settled(policy, s, q);
    SettleSides(s.book, q, Trading(policy, s.book, q), MayRest(q));
    TradingSweeps(s.book, q);
  }

  lemma PostOnlyAlone(policy: Policy, s: State, q: Request)
    requires Shape(s.book) && q.kind.PostOnly? && Usable(q) && Fresh(s, q) && Blocked(s.book, q).None?
    ensures var (s', r) := Step(policy, s, q);
            && r == Response(Ack(q.id, Accepted, 0, q.qty, None), [])
            && RestsIn(q.side.Buy?, Beside(s.book, q), Order(q.id, q.client, q.px, q.qty), Beside(s'.book, q))
            && Faced(s'.book, q) == Faced(s.book, q)
            && s'.orders == s.orders[q.id := Rec(q.side, q.px, q.qty, q.client)]
  {
    InsertRests(q.side, Beside(s.book, q), Order(q.id, q.client, q.px, q.qty));
    assert s.orders - {} == s.orders;
  }

  /** A usable post-only order under a new id: refused if and only if an order it faces has a price
      it would trade at, and otherwise it rests whole. */
  lemma PostOnlyRests(policy: Policy, s: State, q: Request)
    requires Shape(s.book) && q.kind.PostOnly? && Usable(q) && Fresh(s, q)
    ensures var (s', r) := Step(policy, s, q);
            if (if q.side.Buy? then exists o :: o in s.book.asks && o.px <= q.px
                else exists o :: o in s.book.bids && o.px >= q.px)
            then r == Response(Ack(q.id, Rejected(WouldCrossPostOnly), 0, 0, None), []) && s'.book == s.book
            else
              && r == Response(Ack(q.id, Accepted, 0, q.qty, None), [])
              && RestsIn(q.side.Buy?, Beside(s.book, q), Order(q.id, q.client, q.px, q.qty), Beside(s'.book, q))
              && Faced(s'.book, q) == Faced(s.book, q)
              && s'.orders == s.orders[q.id := Rec(q.side, q.px, q.qty, q.client)]
  {
    BlockedExact(s.book, q);
    var l := Faced(s.book, q);
    assert (if q.side.Buy? then exists o :: o in s.book.asks && o.px <= q.px
            else exists o :: o in s.book.bids && o.px >= q.px)
      <==> exists i :: 0 <= i < |l| && Within(BoundOf(q), l[i].px);
    if Blocked(s.book, q).None? { PostOnlyAlone(policy, s, q); }
  }

  lemma PlaceWords(policy: Policy, s: State, q: Request)
    ensures var t := Place(policy, s, q).1.ack.status; t != CancelledAck && t != CancelMiss && t != ModifyMiss
  {}

  /** With an exact index, the target is known exactly when it rests. */
  lemma KnownRests(s: State, id: Id)
    requires Sound(s)
    ensures id in s.orders <==> id in Ids(s.book.bids) + Ids(s.book.asks)
  {
    assert id in Locs(s.orders) <==> id in s.orders;
  }

  /** The words kept for cancels and modifies, for requests of every kind: "cancelled" for a cancel of
      a resting order, the misses for a cancel or modify of one that does not rest. */
  lemma TargetAnswers(policy: Policy, s: State, q: Request)
    requires Sound(s)
    ensures var (s', r) := Step(policy, s, q);
            var rests := q.target in Ids(s.book.bids) + Ids(s.book.asks);
            && (r.ack.status == CancelledAck <==> q.kind.Cancel? && rests)
            && (r.ack.status == CancelMiss <==> q.kind.Cancel? && !rests)
            && (r.ack.status == ModifyMiss <==> q.kind.Modify? && !rests)
            && (q.kind.Cancel? || (q.kind.Modify? && !rests) ==>
                r == Response(Ack(q.id, r.ack.status, 0, 0, q.target), []))
            && ((q.kind.Cancel? || q.kind.Modify?) && !rests ==> s' == s.(ordersProcessed := s.ordersProcessed + 1))
  {
    KnownRests(s, q.target);
    var i := Incoming(s, q);
    if i.Some? {
      StepPlaces(policy, s, q);
      PlaceWords(policy, i.value.0, i.value.1);
    }
  }

  // ----- whole runs -----

  /** Request `k` made its id known: a usable order of a known kind, or a modify of a resting order
      with a usable price and quantity. */
  ghost predicate Notes(policy: Policy, qs: seq<Request>, k: nat, id: Id)
    requires k < |qs|
  {
    var q, b := qs[k], Run(policy, qs[..k]).book;
    q.id == id && !q.kind.Cancel? &&
    if q.kind.Modify? then q.target in Ids(b.bids) + Ids(b.asks) && q.qty > 0 && q.px > 0
    else !q.kind.OtherKind? && Usable(q)
  }

  lemma PlaceNotes(policy: Policy, s: State, q: Request, id: Id)
    requires id.Some?
    ensures id in Place(policy, s, q).0.seenIds <==>
            id in s.seenIds || (q.id == id && !q.kind.OtherKind? && Usable(q))
  {}

  lemma StepNotes(policy: Policy, s: State, q: Request, id: Id)
    requires Sound(s) && id.Some?
    ensures var rests := q.target in Ids(s.book.bids) + Ids(s.book.asks);
            id in Step(policy, s, q).0.seenIds <==>
            id in s.seenIds || (q.id == id && !q.kind.Cancel?
              && if q.kind.Modify? then rests && q.qty > 0 && q.px > 0 else !q.kind.OtherKind? && Usable(q))
  {
    KnownRests(s, q.target);
    if q.target in s.orders { TargetSide(s, q.target); }
    var i := Incoming(s, q);
    if i.Some? {
      StepPlaces(policy, s, q);
      PlaceNotes(policy, i.value.0, i.value.1, id);
    }
  }

  lemma NotesBefore(policy: Policy, qs: seq<Request>, n: nat, k: nat, id: Id)
    requires k < n <= |qs|
    ensures Notes(policy, qs[..n], k, id) == Notes(policy, qs, k, id)
  {
    assert qs[..n][..k] == qs[..k];
  }

  lemma {:induction false} SeenExact(policy: Policy, qs: seq<Request>, id: Id)
    requires (forall q | q in qs :: GivesId(q)) && id.Some?
    ensures id in Run(policy, qs).seenIds <==> exists k :: 0 <= k < |qs| && Notes(policy, qs, k, id)
    decreases |qs|
  {
    if qs == [] {
    } else {
      var n := |qs| - 1;
      assert qs[n] in qs;
      SeenExact(policy, qs[..n], id);
      RunSound(policy, qs[..n]);
      StepNotes(policy, Run(policy, qs[..n]), qs[n], id);
      forall k | 0 <= k < n ensures Notes(policy, qs[..n], k, id) == Notes(policy, qs, k, id) {
        NotesBefore(policy, qs, n, k, id);
      }
      if k :| 0 <= k < |qs| && Notes(policy, qs, k, id) { assert k < n ==> Notes(policy, qs[..n], k, id); }
      if k :| 0 <= k < n && Notes(policy, qs[..n], k, id) { assert Notes(policy, qs, k, id); }
      assert Notes(policy, qs, n, id) ==> id in Run(policy, qs).seenIds;
    }
  }

  /** After any run, a duplicate is a usable order that repeats the id of an earlier one. */
  lemma {:induction false} Duplicates(policy: Policy, qs: seq<Request>, q: Request)
    requires (forall p | p in qs :: GivesId(p)) && Direct(q)
    ensures Step(policy, Run(policy, qs), q).1.ack.status == Rejected(DuplicateId)
       <==> (!q.kind.OtherKind? && Usable(q) && q.id.Some?
             && exists k :: 0 <= k < |qs| && Notes(policy, qs, k, q.id))
  {
    RunSound(policy, qs);
    Refused(policy, Run(policy, qs), q);
    if q.id.Some? { SeenExact(policy, qs, q.id); }
  }

  /** The modifies of a run that met a known order. */
  function Replacements(policy: Policy, qs: seq<Request>): nat
    decreases |qs|
  {
    if qs == [] then 0
    else
      var n := |qs| - 1;
      Replacements(policy, qs[..n])
        + if qs[n].kind.Modify? && qs[n].target in Run(policy, qs[..n]).orders then 1 else 0
  }

  /** The fills answered over a run, in order. */
  function AllFills(policy: Policy, qs: seq<Request>): seq<Report>
    decreases |qs|
  {
    if qs == [] then [] else AllFills(policy, qs[..|qs| - 1]) + Answer(policy, qs, |qs| - 1).fills
  }

  /** The price and quantity of the last fill. */
  function LastOf(fills: seq<Report>): Option<(int, int)> {
    if fills == [] then None else Some((fills[|fills| - 1].fill.px, fills[|fills| - 1].fill.qty))
  }

  lemma PlaceCounts(policy: Policy, s: State, q: Request)
    ensures var (s', r) := Place(policy, s, q);
            && s'.ordersProcessed == s.ordersProcessed && s'.fillsTotal == s.fillsTotal + |r.fills|
            && s'.lastTrade == if r.fills == [] then s.lastTrade else LastOf(r.fills)
  {}

  /** What a step adds to the counters. */
  lemma StepCounts(policy: Policy, s: State, q: Request)
    ensures var (s', r) := Step(policy, s, q);
            && s'.ordersProcessed == s.ordersProcessed + 1 + (if q.kind.Modify? && q.target in s.orders then 1 else 0)
            && s'.fillsTotal == s.fillsTotal + |r.fills|
            && s'.lastTrade == if r.fills == [] then s.lastTrade else LastOf(r.fills)
  {
    var i := Incoming(s, q);
    if i.Some? {
      StepPlaces(policy, s, q);
      PlaceCounts(policy, i.value.0, i.value.1);
    }
  }

  /** The counters agree with this number of orders and these fills, numbered from 1. */
  ghost predicate Told(s: State, processed: int, fills: seq<Report>) {
    && s.ordersProcessed == processed && s.fillsTotal == |fills| && s.fillIdSeq == |fills| + 1
    && s.lastTrade == LastOf(fills) && forall i | 0 <= i < |fills| :: fills[i].no == i + 1
  }

  lemma StepTold(policy: Policy, s: State, q: Request, processed: int, fills: seq<Report>)
    requires Told(s, processed, fills)
    ensures var (s', r) := Step(policy, s, q);
            Told(s', processed + 1 + if q.kind.Modify? && q.target in s.orders then 1 else 0, fills + r.fills)
  {
    StepCounts(policy, s, q);
    StepNumbers(policy, s, q);
    var r := Step(policy, s, q).1;
    forall i | 0 <= i < |fills + r.fills| ensures (fills + r.fills)[i].no == i + 1 {
      if i >= |fills| { assert (fills + r.fills)[i] == r.fills[i - |fills|]; }
    }
  }

  /** The counters over every run: one for each request and one more for each replacement, the number
      of fills answered, the last of them, and its number plus one as the next fill number. */
  lemma {:induction false} CountersTell(policy: Policy, qs: seq<Request>)
    ensures Told(Run(policy, qs), |qs| + Replacements(policy, qs), AllFills(policy, qs))
    decreases |qs|
  {
    if qs == [] {
    } else {
      var n := |qs| - 1;
      CountersTell(policy, qs[..n]);
      StepTold(policy, Run(policy, qs[..n]), qs[n], n + Replacements(policy, qs[..n]), AllFills(policy, qs[..n]));
    }
  }
}
