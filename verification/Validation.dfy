// The correctness check: the oracle's expected fills against an engine's replies,
// and why the Go engine passes it on every well-formed scenario.
module Validation {
  import opened Flat
  import opened MatchLaws
  import opened Books
  import opened Wire
  import Go = GoRules
  import GoIndex
  import Oracle = OracleRules

  /** A limit, market or cancel order as a scenario may contain it. */
  predicate WellFormed(o: Request) {
    o.kind.Cancel? || ((o.kind.Limit? || o.kind.Market?) && !o.side.OtherSide? && o.qty > 0 && o.id.Some?
                       && (o.kind.Limit? ==> o.px > 0))
  }

  /** Well-formed orders, no two of them (cancels aside) under one id. */
  ghost predicate Scenario(os: seq<Request>) {
    && (forall o | o in os :: WellFormed(o))
    && (forall i, j | 0 <= i < j < |os| && !os[i].kind.Cancel? && !os[j].kind.Cancel? :: os[i].id != os[j].id)
  }

  function OracleRun(os: seq<Request>): Book {
    if os == [] then EMPTY else Oracle.Apply(OracleRun(os[..|os| - 1]), os[|os| - 1]).0
  }

  /** What the oracle expects order `k` of the scenario to fill. */
  function Expected(os: seq<Request>, k: nat): int
    requires k < |os|
  {
    Oracle.Apply(OracleRun(os[..k]), os[k]).1
  }

  /** What the Go engine reports order `k` to have filled. */
  function Reported(os: seq<Request>, k: nat): int
    requires k < |os|
  {
    Go.Step(NoPolicy, Go.Run(NoPolicy, Go.INITIAL, os[..k]), os[k]).1.ack.filled
  }

  function UsedIds(os: seq<Request>): set<Id> { set o | o in os && !o.kind.Cancel? :: o.id }

  lemma UsedGrows(os: seq<Request>, o: Request)
    ensures UsedIds(os + [o]) == if o.kind.Cancel? then UsedIds(os) else UsedIds(os) + {o.id}
  {
    forall x ensures x in os + [o] <==> x in os || x == o {}
  }

  /** The Go state after a scenario: exact index, nothing known beyond the ids used. */
  ghost predicate Tracks(s: Go.State, used: set<Id>) {
    && Shape(s.book) && GoIndex.IndexExact(s.book, s.idx) && s.idx.Keys <= used
    && forall k | k in s.seen :: k.1 in used
  }

  lemma CancelAgrees(s: Go.State, o: Request)
    requires GoIndex.IndexExact(s.book, s.idx) && o.kind.Cancel?
    ensures Go.Step(NoPolicy, s, o).0.book == Oracle.Apply(s.book, o).0
  {
    var b, id := s.book, o.target;
    GoIndex.SidesDisjoint(b, s.idx);
    if id !in Ids(b.bids) { Oracle.WithoutAbsent(b.bids, id); }
    if id !in Ids(b.asks) { Oracle.WithoutAbsent(b.asks, id); }
    if id in s.idx {
      var l := if id in Ids(b.bids) then b.bids else b.asks;
      var r :| r in l && r.id == id;
      Oracle.WithoutIsRemove(l, r);
    }
  }

  /** One order: the same filled quantity, and the same book. */
  lemma StepAgrees(s: Go.State, used: set<Id>, o: Request)
    requires Tracks(s, used) && WellFormed(o) && (o.kind.Cancel? || o.id !in used)
    ensures var (s', r) := Go.Step(NoPolicy, s, o);
            (s'.book, r.ack.filled) == Oracle.Apply(s.book, o)
  {
    if o.kind.Cancel? {
      CancelAgrees(s, o);
    } else {
      assert Go.Trades(s, o);
      assert TakerOf(o) == Oracle.OracleTaker(o);
    }
  }

  lemma StepTracks(s: Go.State, used: set<Id>, o: Request)
    requires Tracks(s, used) && (o.kind.Cancel? || o.id !in used)
    ensures Tracks(Go.Step(NoPolicy, s, o).0, if o.kind.Cancel? then used else used + {o.id})
  {
    Go.StepShape(NoPolicy, s, o);
    GoIndex.StepIndex(NoPolicy, s, o);
  }

  /** A scenario without its last order is one, and that order brings an unused id. */
  lemma ScenarioLast(os: seq<Request>)
    requires Scenario(os) && os != []
    ensures var n := |os| - 1;
            && Scenario(os[..n]) && WellFormed(os[n]) && (os[n].kind.Cancel? || os[n].id !in UsedIds(os[..n]))
            && UsedIds(os) == if os[n].kind.Cancel? then UsedIds(os[..n]) else UsedIds(os[..n]) + {os[n].id}
  {
    var n := |os| - 1;
    assert os[n] in os && forall x | x in os[..n] :: x in os;
    assert os == os[..n] + [os[n]];
    UsedGrows(os[..n], os[n]);
  }

  /** On every scenario the Go engine's flat book is the oracle's book. */
  lemma {:induction false} RunAgrees(os: seq<Request>)
    requires Scenario(os)
    ensures Go.Run(NoPolicy, Go.INITIAL, os).book == OracleRun(os)
    ensures Tracks(Go.Run(NoPolicy, Go.INITIAL, os), UsedIds(os))
    decreases |os|
  {
    if os == [] {
    } else {
      var n := |os| - 1;
      ScenarioLast(os);
      RunAgrees(os[..n]);
      var s, used := Go.Run(NoPolicy, Go.INITIAL, os[..n]), UsedIds(os[..n]);
      StepAgrees(s, used, os[n]);
      StepTracks(s, used, os[n]);
    }
  }

  /** Order by order, the Go engine reports exactly what the oracle expects. */
  lemma FillsAgree(os: seq<Request>, k: nat)
    requires Scenario(os) && k < |os|
    ensures Reported(os, k) == Expected(os, k)
  {
    assert forall x | x in os[..k] :: x in os;
    RunAgrees(os[..k]);
    assert os[k] in os;
    assert !os[k].kind.Cancel? ==> os[k].id !in UsedIds(os[..k]);
    StepAgrees(Go.Run(NoPolicy, Go.INITIAL, os[..k]), UsedIds(os[..k]), os[k]);
  }

  // ----- scoring -----

  datatype Case = Case(id: Id, expected: int, actual: int, pass: bool, reachable: bool)

  function Judge(os: seq<Request>, replies: seq<Option<int>>, k: nat): Case
    requires k < |os| == |replies|
  {
    match replies[k]
    case None => Case(os[k].id, Expected(os, k), 0, false, false)
    case Some(a) => Case(os[k].id, Expected(os, k), a, a == Expected(os, k), true)
  }

  function Passes(cases: seq<Case>): nat {
    if cases == [] then 0 else Passes(cases[..|cases| - 1]) + if cases[|cases| - 1].pass then 1 else 0
  }

  lemma {:induction false} PassesAll(cases: seq<Case>)
    ensures Passes(cases) <= |cases|
    ensures Passes(cases) == |cases| <==> forall k | 0 <= k < |cases| :: cases[k].pass
  {
    if cases == [] {
    } else {
      PassesAll(cases[..|cases| - 1]);
    }
  }

  /** The positions that passed. */
  function Passed(cases: seq<Case>): set<int> { set k | 0 <= k < |cases| && cases[k].pass }

  lemma {:induction false} PassesCount(cases: seq<Case>)
    ensures Passes(cases) == |Passed(cases)|
  {
    if cases == [] {
      assert Passed(cases) == {};
    } else {
      var n := |cases| - 1;
      PassesCount(cases[..n]);
      assert Passed(cases) == Passed(cases[..n]) + if cases[n].pass then {n} else {};
    }
  }

  function Score(passed: int, total: int): real
    requires total >= 0
  {
    if total > 0 then 100.0 * passed as real / total as real else 0.0
  }

  lemma ScoreFull(passed: int, total: int)
    requires total > 0
    ensures Score(passed, total) == 100.0 <==> passed == total
  {
    var p, n := passed as real, total as real;
    var q := 100.0 * p / n;
    assert q * n == 100.0 * p;
    if q == 100.0 { assert 100.0 * n == 100.0 * p; }
  }

  /** The positions of a scenario that were answered as the oracle expects. */
  function Right(os: seq<Request>, replies: seq<Option<int>>): set<int>
    requires |replies| == |os|
  {
    set k | 0 <= k < |os| && replies[k] == Some(Expected(os, k))
  }

  /** A case says what was asked, expected and answered, and passes exactly if the answer is right. */
  ghost predicate Says(c: Case, os: seq<Request>, replies: seq<Option<int>>, k: nat)
    requires k < |os| == |replies|
  {
    && c.id == os[k].id && c.expected == Expected(os, k)
    && c.actual == (if replies[k].Some? then replies[k].value else 0) && c.reachable == replies[k].Some?
    && c.pass == (replies[k] == Some(Expected(os, k)))
  }

  lemma ScoreShare(passed: int, total: nat)
    requires total == 0 ==> passed == 0
    ensures Score(passed, total) * total as real == 100.0 * passed as real
    ensures total == 0 ==> Score(passed, total) == 0.0
  {}

  lemma JudgeSays(os: seq<Request>, replies: seq<Option<int>>, k: nat)
    requires k < |os| == |replies|
    ensures Says(Judge(os, replies, k), os, replies, k)
  {}

  /** The passes are the right answers. */
  lemma {:induction false} PassesRight(os: seq<Request>, replies: seq<Option<int>>, cases: seq<Case>)
    requires |replies| == |os| == |cases| && forall k | 0 <= k < |os| :: cases[k] == Judge(os, replies, k)
    ensures Passes(cases) == |Right(os, replies)| && (os == [] ==> Right(os, replies) == {})
  {
    PassesCount(cases);
    assert Right(os, replies) == Passed(cases);
  }

  /** The score is 100 exactly when every reply arrived and matches the oracle. */
  lemma {:induction false} FullMarks(os: seq<Request>, replies: seq<Option<int>>, cases: seq<Case>)
    requires |replies| == |os| == |cases| > 0 && forall k | 0 <= k < |os| :: cases[k] == Judge(os, replies, k)
    ensures Score(Passes(cases), |os|) == 100.0 <==> forall k | 0 <= k < |os| :: replies[k] == Some(Expected(os, k))
  {
    PassesAll(cases);
    ScoreFull(Passes(cases), |os|);
    assert forall k | 0 <= k < |os| :: cases[k].pass <==> replies[k] == Some(Expected(os, k));
  }

  /** One order of the replay: the oracle moves on and the reply is judged. */
  method JudgeNext(ora: Book, o: Request, reply: Option<int>, ghost os: seq<Request>,
                   ghost replies: seq<Option<int>>, ghost k: nat)
    returns (next: Book, c: Case)
    requires k < |os| == |replies| && o == os[k] && reply == replies[k] && ora == OracleRun(os[..k])
    ensures next == OracleRun(os[..k + 1]) && c == Judge(os, replies, k)
  {
    assert os[..k + 1][..k] == os[..k];
    var applied := Oracle.Apply(ora, o);
    next := applied.0;
    var ok := reply.Some?;
    var actual := if ok then reply.value else 0;
    c := Case(o.id, applied.1, actual, ok && actual == applied.1, ok);
  }

  /** Every case judges the reply at its position. */
  ghost predicate Judged(os: seq<Request>, replies: seq<Option<int>>, cases: seq<Case>)
    requires |replies| == |os|
  {
    && |cases| == |os|
    && forall k | 0 <= k < |os| :: cases[k] == Judge(os, replies, k) && Says(cases[k], os, replies, k)
  }

  /** Judge one order after the other. */
  method Replay(os: seq<Request>, replies: seq<Option<int>>) returns (cases: seq<Case>, passed: nat)
    requires |replies| == |os|
    ensures Judged(os, replies, cases)
    ensures passed == Passes(cases) == |Right(os, replies)| && (os == [] ==> passed == 0)
  {
    var ora := EMPTY;
    passed := 0;
    cases := [];
    for i := 0 to |os|
      invariant ora == OracleRun(os[..i])
      invariant |cases| == i && passed == Passes(cases)
      invariant forall k | 0 <= k < i :: cases[k] == Judge(os, replies, k)
    {
      var c;
      ora, c := JudgeNext(ora, os[i], replies[i], os, replies, i);
      if c.pass { passed := passed + 1; }
      assert (cases + [c])[..i] == cases;
      cases := cases + [c];
    }
    PassesRight(os, replies, cases);
    forall k | 0 <= k < |os| ensures Says(cases[k], os, replies, k) { JudgeSays(os, replies, k); }
  }

  /** The share of right answers, in percent. */
  ghost predicate Share(score: real, right: nat, total: nat) {
    score * total as real == 100.0 * right as real && (total == 0 ==> score == 0.0)
  }

  method Percent(passed: nat, total: nat) returns (score: real)
    requires total == 0 ==> passed == 0
    ensures score == Score(passed, total) && Share(score, passed, total)
  {
    score := Score(passed, total);
    ScoreShare(passed, total);
  }

  /** Replay the scenario; `None` is an engine that could not be reached. The score is the share of
      right answers, in percent. */
  method Validate(os: seq<Request>, replies: seq<Option<int>>) returns (score: real, cases: seq<Case>)
    requires |replies| == |os|
    ensures Judged(os, replies, cases)
    ensures score == Score(Passes(cases), |os|) && Share(score, |Right(os, replies)|, |os|)
  {
    var passed;
    cases, passed := Replay(os, replies);
    score := Percent(passed, |os|);
  }

  /** The Go engine scores 100 on every nonempty scenario. */
  lemma {:induction false} GoScoresFull(os: seq<Request>, replies: seq<Option<int>>, cases: seq<Case>)
    requires Scenario(os) && |replies| == |os| == |cases| > 0
    requires forall i | 0 <= i < |os| :: replies[i] == Some(Reported(os, i))
    requires forall k | 0 <= k < |os| :: cases[k] == Judge(os, replies, k)
    ensures Score(Passes(cases), |os|) == 100.0
  {
    forall k | 0 <= k < |os| ensures replies[k] == Some(Expected(os, k)) { FillsAgree(os, k); }
    FullMarks(os, replies, cases);
  }
}
