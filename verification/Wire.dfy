// The requests and responses of the engine contract (POST /submit).
module Wire {
  import opened Flat
  import opened MatchLaws
  import opened Books

  datatype Kind = Limit | Market | Ioc | Fok | PostOnly | Cancel | Modify | OtherKind

  datatype Request = Request(id: Id, client: Id, side: Side, kind: Kind, px: int, qty: int, target: Id)

  datatype Reason = BadSide | BadQty | BadPrice | DuplicateId | WouldCrossPostOnly | FokUnfillable | UnknownType

  datatype Status =
    | Accepted | Partial | Filled
    | Unfilled | PartialUnfilled
    | CancelledIoc | PartialCancelledIoc
    | StpCancelTaker
    | CancelledAck | CancelMiss | ModifyMiss
    | Rejected(reason: Reason)

  datatype Ack = Ack(id: Id, status: Status, filled: int, rem: int, target: Id)

  /** A fill as reported, with the engine's own fill number. */
  datatype Report = Report(no: int, fill: Fill)

  datatype Response = Response(ack: Ack, fills: seq<Report>)

  /** Fills numbered consecutively after `last`. */
  function Number(last: int, fills: seq<Fill>): (r: seq<Report>)
    ensures |r| == |fills|
    ensures forall i | 0 <= i < |fills| :: r[i] == Report(last + 1 + i, fills[i])
  {
    seq(|fills|, i requires 0 <= i < |fills| => Report(last + 1 + i, fills[i]))
  }

  lemma NumberOn(last: int, fills: seq<Fill>, f: Fill)
    ensures Number(last, fills + [f]) == Number(last, fills) + [Report(last + 1 + |fills|, f)]
  {}

  function TakerOf(q: Request): Taker {
    Taker(q.id, q.client, q.side, q.kind.Market?, q.px)
  }

  function Refuse(q: Request, reason: Reason): Response {
    Response(Ack(q.id, Rejected(reason), 0, 0, None), [])
  }

  // ----- what every request does to the book -----

  predicate MayRest(q: Request) { q.kind.Limit? || q.kind.PostOnly? }

  /** Checks made before trading: post-only must not cross, fill-or-kill must be fillable. */
  function Blocked(b: Book, q: Request): Option<Reason> {
    if q.kind.PostOnly? && WouldCross(b, TakerOf(q)) then Some(WouldCrossPostOnly)
    else if q.kind.Fok? && CrossQty(TakerOf(q), Opposite(b, q.side)) < q.qty then Some(FokUnfillable)
    else None
  }

  /** What the matching phase of a request does. */
  function Trading(policy: Policy, b: Book, q: Request): Outcome {
    if q.kind.PostOnly? then Idle(q.qty, Opposite(b, q.side))
    else Match(policy, TakerOf(q), q.qty, Opposite(b, q.side))
  }

  lemma TradingLeaves(policy: Policy, b: Book, q: Request)
    requires Shape(b) && (q.qty >= 0 || q.kind.Modify?)
    ensures Leaves(policy, TakerOf(q), Opposite(b, q.side), Trading(policy, b, q))
  {
    var s := Opposite(b, q.side);
    OppositeShape(b, q.side);
    LeavesAll(policy, TakerOf(q), q.qty, s);
    if q.qty >= 0 { MatchLeaves(policy, TakerOf(q), q.qty, s); }
  }

  /** Trading and resting a valid request that is not blocked keeps the book shaped. */
  lemma TradingShape(policy: Policy, b: Book, q: Request)
    requires Shape(b) && Blocked(b, q).None?
    requires MayRest(q) ==> !q.side.OtherSide? && q.qty > 0 && q.px > 0
    ensures Shape(Settle(b, TakerOf(q), Trading(policy, b, q), MayRest(q)))
  {
    if q.qty < 0 { assert Trading(policy, b, q) == Idle(q.qty, Opposite(b, q.side)); }
    SettleShape(b, policy, TakerOf(q), q.qty, Trading(policy, b, q), MayRest(q));
  }
}
