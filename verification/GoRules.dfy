// The Go engine's submit pipeline as a step function on flat books, with its id
// index, its (client, id) dedup set and its fill counter.
module GoRules {
  import opened Flat
  import opened Books
  import opened Wire

  datatype Loc = Loc(side: Side, px: int, client: Id)

  datatype State = State(book: Book, idx: map<Id, Loc>, seen: set<(Id, Id)>, fillSeq: int)

  const INITIAL := State(EMPTY, map[], {}, 0)

  /** Validation, in the order the engine performs it; `modify` skips it. */
  function Invalid(s: State, q: Request): Option<Reason> {
    if q.kind.Modify? then None
    else if q.side.OtherSide? then Some(BadSide)
    else if q.qty <= 0 then Some(BadQty)
    else if !q.kind.Market? && q.px <= 0 then Some(BadPrice)
    else if q.id.Some? && (q.client, q.id) in s.seen then Some(DuplicateId)
    else None
  }

  function Noted(s: State, q: Request): State {
    if q.kind.Modify? || q.id.None? then s else s.(seen := s.seen + {(q.client, q.id)})
  }

  function CancelStep(s: State, q: Request): (State, Response) {
    if q.target !in s.idx then (s, Response(Ack(q.id, CancelMiss, 0, 0, q.target), []))
    else
      var loc := s.idx[q.target];
      (s.(book := Cancelled(s.book, loc.side, loc.px, q.target), idx := s.idx - {q.target}),
       Response(Ack(q.id, CancelledAck, 0, 0, q.target), []))
  }

  function StatusOf(kind: Kind, stopped: bool, filled: int, rem: int): Status {
    match kind
    case Market =>
      if rem == 0 && filled > 0 then Filled else if rem > 0 && filled > 0 then PartialUnfilled else Unfilled
    case Ioc =>
      if rem == 0 && filled > 0 then Filled else if rem > 0 && filled > 0 then PartialCancelledIoc else CancelledIoc
    case Fok => Filled
    case _ =>
      if stopped then StpCancelTaker
      else if filled > 0 && rem > 0 then Partial else if rem == 0 && filled > 0 then Filled else Accepted
  }

  /** The ack after trading; a kind the engine does not know is rejected only here. */
  function AckOf(q: Request, stopped: bool, rem: int): Ack {
    if q.kind.Modify? || q.kind.OtherKind? then Ack(q.id, Rejected(UnknownType), 0, 0, None)
    else Ack(q.id, StatusOf(q.kind, stopped, q.qty - rem, rem), q.qty - rem, if q.kind.Fok? then 0 else rem, None)
  }

  /** Rest and acknowledge after matching with outcome `m`. */
  function Finish(s: State, q: Request, m: Outcome): (State, Response) {
    var idx1 := s.idx - m.gone;
    var rests := MayRest(q) && !m.stopped && m.rem > 0;
    (State(Settle(s.book, TakerOf(q), m, MayRest(q)),
           if rests then idx1[q.id := Loc(q.side, q.px, q.client)] else idx1,
           s.seen,
           s.fillSeq + |m.fills|),
     Response(AckOf(q, m.stopped, m.rem), Number(s.fillSeq, m.fills)))
  }

  function Execute(policy: Policy, s: State, q: Request): (State, Response) {
    Finish(s, q, Trading(policy, s.book, q))
  }

  function Step(policy: Policy, s: State, q: Request): (State, Response) {
    if q.kind.Cancel? then CancelStep(s, q)
    else if Invalid(s, q).Some? then (s, Refuse(q, Invalid(s, q).value))
    else
      var s1 := Noted(s, q);
      if Blocked(s.book, q).Some? then (s1, Refuse(q, Blocked(s.book, q).value))
      else Execute(policy, s1, q)
  }

  /** The request gets as far as the matching phase. */
  predicate Trades(s: State, q: Request) {
    !q.kind.Cancel? && Invalid(s, q).None? && Blocked(s.book, q).None?
  }

  /** The state after a run of requests. */
  function Run(policy: Policy, s: State, qs: seq<Request>): State
    decreases |qs|
  {
    if qs == [] then s else Step(policy, Run(policy, s, qs[..|qs| - 1]), qs[|qs| - 1]).0
  }

  // ----- shape -----

  /** Every request of every type, valid or not, under every policy, keeps the book
      well shaped and uncrossed. */
  lemma StepShape(policy: Policy, s: State, q: Request)
    requires Shape(s.book)
    ensures Shape(Step(policy, s, q).0.book)
  {
    var b := s.book;
    if q.kind.Cancel? {
      if q.target in s.idx { CancelShape(b, s.idx[q.target].side, s.idx[q.target].px, q.target); }
    } else if Trades(s, q) {
      TradingShape(policy, b, q);
    }
  }

  lemma {:induction false} RunShape(policy: Policy, qs: seq<Request>)
    ensures Shape(Run(policy, INITIAL, qs).book)
    decreases |qs|
  {
    if qs == [] {
    } else {
      RunShape(policy, qs[..|qs| - 1]);
      StepShape(policy, Run(policy, INITIAL, qs[..|qs| - 1]), qs[|qs| - 1]);
    }
  }
}
