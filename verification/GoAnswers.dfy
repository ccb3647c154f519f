// What the Go engine answers to every request, in terms of the request, of earlier requests and
// of the prices, owners and quantities in the book: refusals, quantities, wording, fills, resting.
module GoAnswers {
  import opened Flat
  import opened MatchLaws
  import opened Books
  import opened Wire
  import opened Offers
  import opened GoRules
  import GoIndex
  import Ledger = GoLedger

  predicate Fresh(s: State, q: Request) { q.id.None? || (q.client, q.id) !in s.seen }

  lemma Verdict(policy: Policy, s: State, q: Request)
    requires !q.kind.Cancel?
    ensures var a, i, b := Step(policy, s, q).1.ack, Invalid(s, q), Blocked(s.book, q);
            var refusal := if i.Some? then i else if b.Some? then b
              else if q.kind.Modify? || q.kind.OtherKind? then Some(UnknownType) else None;
            if refusal.Some? then a == Ack(q.id, Rejected(refusal.value), 0, 0, None) else !a.status.Rejected?
  {}

  /** The refusals, each with its exact cause. A kind the engine does not know is refused like a
      modify, whatever else is wrong with the latter. */
  lemma Refused(policy: Policy, s: State, q: Request)
    requires Shape(s.book) && !q.kind.Cancel?
    ensures var a := Step(policy, s, q).1.ack;
            var l, sound := Faced(s.book, q), Usable(q) && Fresh(s, q);
            && (a.status == Rejected(BadSide) <==> !q.kind.Modify? && q.side.OtherSide?)
            && (a.status == Rejected(BadQty) <==> !q.kind.Modify? && !q.side.OtherSide? && q.qty <= 0)
            && (a.status == Rejected(BadPrice) <==>
                !q.kind.Modify? && !q.side.OtherSide? && q.qty > 0 && !q.kind.Market? && q.px <= 0)
            && (a.status == Rejected(DuplicateId) <==> !q.kind.Modify? && Usable(q) && !Fresh(s, q))
            && (a.status == Rejected(WouldCrossPostOnly) <==>
                q.kind.PostOnly? && sound && exists i :: 0 <= i < |l| && Within(BoundOf(q), l[i].px))
            && (a.status == Rejected(FokUnfillable) <==>
                q.kind.Fok? && sound && Total(Offered(NoPolicy, q.client, BoundOf(q), l)) < q.qty)
            && (a.status == Rejected(UnknownType) <==> q.kind.Modify? || (q.kind.OtherKind? && sound))
            && (a.status.Rejected? ==> a == Ack(q.id, a.status, 0, 0, None))
  {
    BlockedExact(s.book, q);
    Verdict(policy, s, q);
  }

  /** What a request that trades takes: the fills walk what is offered, and the ack says how much. */
  lemma Quantities(policy: Policy, s: State, q: Request)
    requires Shape(s.book) && !q.kind.Cancel? && !Step(policy, s, q).1.ack.status.Rejected?
    ensures var r, offers := Step(policy, s, q).1, Offered(policy, q.client, BoundOf(q), Faced(s.book, q));
            && Takes(Ledger.Bare(r.fills), q.id, q.qty, if q.kind.PostOnly? then [] else offers)
            && r.ack.id == q.id && r.ack.target == None && r.ack.filled == Volume(Ledger.Bare(r.fills))
            && r.ack.rem == if q.kind.Fok? then 0 else q.qty - r.ack.filled
  {
    OppositeShape(s.book, q.side);
    RequestBound(q);
    MatchTakes(policy, TakerOf(q), BoundOf(q), q.qty, Faced(s.book, q));
    Ledger.BareNumber(s.fillSeq, Trading(policy, s.book, q).fills);
  }

  lemma AckIs(policy: Policy, s: State, q: Request)
    requires Shape(s.book) && !q.kind.Cancel? && !Step(policy, s, q).1.ack.status.Rejected?
    ensures var m := Trading(policy, s.book, q);
            && Step(policy, s, q).1.ack == AckOf(q, m.stopped, m.rem) && 0 <= m.rem <= q.qty && Usable(q)
            && (if q.kind.PostOnly? then !m.stopped && m.rem == q.qty
                else m.stopped <==> Stops(policy, q.client, BoundOf(q), q.qty, Faced(s.book, q)))
  {
    OppositeShape(s.book, q.side);
    RequestBound(q);
    MatchStops(policy, TakerOf(q), BoundOf(q), q.qty, Faced(s.book, q));
    MatchExhausts(policy, TakerOf(q), q.qty, Faced(s.book, q));
  }

  /** How the outcome is worded, kind by kind; of a stopped order only a resting kind says so. */
  lemma Worded(policy: Policy, s: State, q: Request)
    requires Shape(s.book) && !q.kind.Cancel? && !Step(policy, s, q).1.ack.status.Rejected?
    ensures var a := Step(policy, s, q).1.ack;
            && (a.status == StpCancelTaker <==>
                q.kind.Limit? && Stops(policy, q.client, BoundOf(q), q.qty, Faced(s.book, q)))
            && (a.status == StpCancelTaker ||
                match q.kind
                case Market =>
                  a.status == if a.filled == 0 then Unfilled else if a.filled < q.qty then PartialUnfilled else Filled
                case Ioc =>
                  a.status ==
                    if a.filled == 0 then CancelledIoc else if a.filled < q.qty then PartialCancelledIoc else Filled
                case Fok => a.status == Filled
                case PostOnly => a.status == Accepted && a.filled == 0
                case _ => a.status == if a.filled == 0 then Accepted else if a.filled < q.qty then Partial else Filled)
  {
    AckIs(policy, s, q);
  }

  lemma Settled(policy: Policy, s: State, q: Request)
    requires !q.kind.Cancel? && !Step(policy, s, q).1.ack.status.Rejected?
    ensures Step(policy, s, q).0.book == Settle(s.book, TakerOf(q), Trading(policy, s.book, q), MayRest(q))
  {}

  /** Where the book takes it: the own side gains the remainder of an order that may rest, behind all
      of equal or better price; without a policy the other side is swept. */
  lemma BookAfter(policy: Policy, s: State, q: Request)
    requires Shape(s.book) && !q.kind.Cancel? && !Step(policy, s, q).1.ack.status.Rejected?
    ensures var (s', r) := Step(policy, s, q);
            var own, own' := Beside(s.book, q), Beside(s'.book, q);
            && (if (q.kind.Limit? || q.kind.PostOnly?) && r.ack.rem > 0 && r.ack.status != StpCancelTaker
                then RestsIn(q.side.Buy?, own, Order(q.id, q.client, q.px, r.ack.rem), own')
                else own' == own)
            && (policy.NoPolicy? && !q.kind.PostOnly? ==>
                Faced(s'.book, q) == Swept(BoundOf(q), Faced(s.book, q), q.qty))
            && (q.kind.PostOnly? ==> Faced(s'.book, q) == Faced(s.book, q))
  {
    AckIs(policy, s, q);
    Settled(policy, s, q);
    SettleSides(s.book, q, Trading(policy, s.book, q), MayRest(q));
    TradingSweeps(s.book, q);
  }

  lemma PostOnlyAlone(policy: Policy, s: State, q: Request)
    requires Shape(s.book) && q.kind.PostOnly? && Usable(q) && Fresh(s, q) && Blocked(s.book, q).None?
    ensures var (s', r) := Step(policy, s, q);
            && r == Response(Ack(q.id, Accepted, 0, q.qty, None), [])
            && RestsIn(q.side.Buy?, Beside(s.book, q), Order(q.id, q.client, q.px, q.qty), Beside(s'.book, q))
            && Faced(s'.book, q) == Faced(s.book, q) && s'.idx == s.idx[q.id := Loc(q.side, q.px, q.client)]
  {
    InsertRests(q.side, Beside(s.book, q), Order(q.id, q.client, q.px, q.qty));
    assert s.idx - {} == s.idx;
  }

  /** A usable post-only order under a new id: refused if and only if an order it faces has a price
      it would trade at, and otherwise it rests whole. */
  lemma PostOnlyRests(policy: Policy, s: State, q: Request)
    requires Shape(s.book) && q.kind.PostOnly? && Usable(q) && Fresh(s, q)
    ensures var (s', r) := Step(policy, s, q);
            if (if q.side.Buy? then exists o :: o in s.book.asks && o.px <= q.px
                else exists o :: o in s.book.bids && o.px >= q.px)
            then r == Response(Ack(q.id, Rejected(WouldCrossPostOnly), 0, 0, None), []) && s'.book == s.book
            else
              && r == Response(Ack(q.id, Accepted, 0, q.qty, None), [])
              && RestsIn(q.side.Buy?, Beside(s.book, q), Order(q.id, q.client, q.px, q.qty), Beside(s'.book, q))
              && Faced(s'.book, q) == Faced(s.book, q) && s'.idx == s.idx[q.id := Loc(q.side, q.px, q.client)]
  {
    BlockedExact(s.book, q);
    var l := Faced(s.book, q);
    assert (if q.side.Buy? then exists o :: o in s.book.asks && o.px <= q.px
            else exists o :: o in s.book.bids && o.px >= q.px)
      <==> exists i :: 0 <= i < |l| && Within(BoundOf(q), l[i].px);
    if Blocked(s.book, q).None? { PostOnlyAlone(policy, s, q); }
  }

  // ----- whole runs -----

  /** The request made its id known: the engine takes note of every usable one but cancels and modifies. */
  predicate Notes(q: Request, client: Id, id: Id) {
    !q.kind.Cancel? && !q.kind.Modify? && Usable(q) && q.client == client && q.id == id
  }

  lemma {:induction false} SeenExact(policy: Policy, qs: seq<Request>, client: Id, id: Id)
    requires id.Some?
    ensures (client, id) in Run(policy, INITIAL, qs).seen <==> exists k :: 0 <= k < |qs| && Notes(qs[k], client, id)
    decreases |qs|
  {
    if qs == [] {
    } else {
      var n := |qs| - 1;
      SeenExact(policy, qs[..n], client, id);
      assert forall k | 0 <= k < n :: qs[..n][k] == qs[k];
      if k :| 0 <= k < |qs| && Notes(qs[k], client, id) { assert k < n ==> Notes(qs[..n][k], client, id); }
    }
  }

  /** After any run, a duplicate is a usable request that repeats client and id of an earlier usable one. */
  lemma Duplicates(policy: Policy, qs: seq<Request>, q: Request)
    requires !q.kind.Cancel?
    ensures Step(policy, Run(policy, INITIAL, qs), q).1.ack.status == Rejected(DuplicateId)
       <==> (!q.kind.Modify? && Usable(q) && q.id.Some?
             && exists k :: 0 <= k < |qs| && Notes(qs[k], q.client, q.id))
  {
    RunShape(policy, qs);
    Refused(policy, Run(policy, INITIAL, qs), q);
    if q.id.Some? { SeenExact(policy, qs, q.client, q.id); }
  }

  function Answer(policy: Policy, qs: seq<Request>, k: nat): Response
    requires k < |qs|
  {
    Step(policy, Run(policy, INITIAL, qs[..k]), qs[k]).1
  }

  /** The fills answered over a run. */
  function FillCount(policy: Policy, qs: seq<Request>): nat
    decreases |qs|
  {
    if qs == [] then 0 else FillCount(policy, qs[..|qs| - 1]) + |Answer(policy, qs, |qs| - 1).fills|
  }

  /** Fills are numbered 1, 2, 3 and so on over the whole run. */
  lemma {:induction false} FillsNumbered(policy: Policy, qs: seq<Request>, q: Request)
    ensures var s := Run(policy, INITIAL, qs);
            var r := Step(policy, s, q).1;
            && s.fillSeq == FillCount(policy, qs)
            && forall i | 0 <= i < |r.fills| :: r.fills[i].no == FillCount(policy, qs) + 1 + i
    decreases |qs|
  {
    if qs == [] {
    } else {
      var n := |qs| - 1;
      FillsNumbered(policy, qs[..n], qs[n]);
    }
  }

  /** The answers to a cancel. */
  lemma Cancels(policy: Policy, s: State, q: Request)
    requires GoIndex.IndexExact(s.book, s.idx) && q.kind.Cancel?
    ensures var (s', r) := Step(policy, s, q);
            if q.target in Ids(s.book.bids) + Ids(s.book.asks)
            then r == Response(Ack(q.id, CancelledAck, 0, 0, q.target), [])
            else r == Response(Ack(q.id, CancelMiss, 0, 0, q.target), []) && s' == s
  {
    GoIndex.CancelAcked(policy, s, q);
  }
}
