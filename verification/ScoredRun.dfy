// The deployed engine and the oracle, object against object: played one scenario, the
// ladders of the Go engine and the slices of the oracle hold the same book and report the
// same fills order by order, so the engine scores 100.
module ScoredRun {
  import opened Flat
  import opened MatchLaws
  import opened SideLaws
  import opened Books
  import opened Wire
  import opened Validation
  import Go = GoRules
  import GoEngine
  import OracleRules
  import Oracle

  /** The engine stands where its rules stand after these orders. */
  ghost predicate EngineAt(engine: GoEngine.Engine, os: seq<Request>)
    reads engine, engine.Levels()
  {
    engine.Valid() && engine.policy == NoPolicy && engine.View() == Go.Run(NoPolicy, Go.INITIAL, os)
  }

  ghost predicate OracleAt(oracle: Oracle.ReferenceBook, os: seq<Request>)
    reads oracle, oracle.Orders()
  {
    oracle.Valid() && oracle.Complete() && oracle.View() == OracleRun(os)
  }

  lemma PrefixScenario(os: seq<Request>, k: nat)
    requires Scenario(os) && k <= |os|
    ensures Scenario(os[..k])
  {
    assert forall x | x in os[..k] :: x in os;
  }

  lemma PrefixStep(os: seq<Request>, k: nat)
    requires k < |os|
    ensures os[..k + 1][..k] == os[..k] && |os[..k + 1]| == k + 1 && os[..k + 1][k] == os[k]
  {}

  /** An order of a scenario never comes to rest under the id of a resting one. */
  lemma NeverReused(os: seq<Request>, k: nat)
    requires Scenario(os) && k < |os|
    ensures !OracleRules.RestsOnUsedId(OracleRun(os[..k]), os[k])
  {
    var o := os[k];
    PrefixScenario(os, k);
    RunAgrees(os[..k]);
    assert o in os;
    if o.kind.Limit? {
      assert o.id !in UsedIds(os[..k]);
      var b, t := OracleRun(os[..k]), OracleRules.OracleTaker(o);
      MatchIds(NoPolicy, t, o.qty, Opposite(b, t.side));
    }
  }

  /** One order through the engine. */
  method SubmitNext(engine: GoEngine.Engine, ghost os: seq<Request>, ghost k: nat, o: Request) returns (reported: int)
    requires k < |os| && o == os[k] && EngineAt(engine, os[..k])
    modifies engine, engine.Levels()
    ensures EngineAt(engine, os[..k + 1]) && reported == Reported(os, k)
    ensures forall l | l in engine.Levels() :: l in old(engine.Levels()) || fresh(l)
  {
    PrefixStep(os, k);
    var answer := engine.Submit(o);
    reported := answer.ack.filled;
  }

  /** One order through the oracle. */
  method ApplyNext(oracle: Oracle.ReferenceBook, ghost os: seq<Request>, ghost k: nat, o: Request)
    returns (expected: int)
    requires Scenario(os) && k < |os| && o == os[k] && OracleAt(oracle, os[..k])
    modifies oracle, oracle.Orders()
    ensures OracleAt(oracle, os[..k + 1]) && expected == Expected(os, k)
    ensures forall r | r in oracle.Orders() :: r in old(oracle.Orders()) || fresh(r)
  {
    PrefixStep(os, k);
    NeverReused(os, k);
    expected := oracle.Apply(o);
  }

  /** Engine and oracle stand where they stand after the first `k` orders, and so hold the same book. */
  ghost predicate Together(engine: GoEngine.Engine, oracle: Oracle.ReferenceBook, os: seq<Request>, k: nat)
    reads engine, engine.Levels(), oracle, oracle.Orders()
  {
    k <= |os| && EngineAt(engine, os[..k]) && OracleAt(oracle, os[..k]) && engine.Flats() == oracle.View()
  }

  ghost function Objects(engine: GoEngine.Engine, oracle: Oracle.ReferenceBook): set<object>
    reads engine, oracle
  {
    {engine, oracle} + engine.Levels() + oracle.Orders()
  }

  lemma SameBook(os: seq<Request>, k: nat)
    requires Scenario(os) && k <= |os|
    ensures Go.Run(NoPolicy, Go.INITIAL, os[..k]).book == OracleRun(os[..k])
  {
    PrefixScenario(os, k);
    RunAgrees(os[..k]);
  }

  method SubmitBeside(engine: GoEngine.Engine, ghost oracle: Oracle.ReferenceBook, ghost os: seq<Request>, ghost k: nat,
                      o: Request)
    returns (reported: int)
    requires k < |os| && o == os[k] && EngineAt(engine, os[..k])
    modifies engine, engine.Levels()
    ensures EngineAt(engine, os[..k + 1]) && reported == Reported(os, k)
    ensures OracleAt(oracle, os[..k]) == old(OracleAt(oracle, os[..k]))
    ensures forall l | l in engine.Levels() :: l in old(engine.Levels()) || fresh(l)
  {
    label L:
    reported := SubmitNext(engine, os, k, o);
    assert unchanged@L(oracle) && unchanged@L(oracle.Orders());
  }

  method ApplyBeside(ghost engine: GoEngine.Engine, oracle: Oracle.ReferenceBook, ghost os: seq<Request>, ghost k: nat,
                     o: Request)
    returns (expected: int)
    requires Scenario(os) && k < |os| && o == os[k] && OracleAt(oracle, os[..k])
    modifies oracle, oracle.Orders()
    ensures OracleAt(oracle, os[..k + 1]) && expected == Expected(os, k)
    ensures EngineAt(engine, os[..k + 1]) == old(EngineAt(engine, os[..k + 1]))
      && engine.Levels() == old(engine.Levels())
    ensures forall r | r in oracle.Orders() :: r in old(oracle.Orders()) || fresh(r)
  {
    label L:
    expected := ApplyNext(oracle, os, k, o);
    assert unchanged@L(engine) && unchanged@L(engine.Levels());
  }

  /** One order through both objects: the same fill, and afterwards the same book in ladders and slices. */
  method PlayNext(engine: GoEngine.Engine, oracle: Oracle.ReferenceBook, ghost os: seq<Request>, ghost k: nat,
                  o: Request)
    returns (reported: int, expected: int)
    requires Scenario(os) && k < |os| && o == os[k] && Together(engine, oracle, os, k)
    modifies Objects(engine, oracle)
    ensures Together(engine, oracle, os, k + 1) && reported == expected == Expected(os, k) == Reported(os, k)
    ensures forall x | x in Objects(engine, oracle) :: x in old(Objects(engine, oracle)) || fresh(x)
  {
    SameBook(os, k + 1);
    FillsAgree(os, k);
    reported := SubmitBeside(engine, oracle, os, k, o);
    expected := ApplyBeside(engine, oracle, os, k, o);
  }

  /** A new engine and a new oracle. */
  method Begin(ghost os: seq<Request>) returns (engine: GoEngine.Engine, oracle: Oracle.ReferenceBook)
    ensures fresh(Objects(engine, oracle)) && Together(engine, oracle, os, 0)
  {
    engine := new GoEngine.Engine(NoPolicy);
    oracle := new Oracle.ReferenceBook();
  }

  /** What both filled for the first `k` orders. */
  ghost predicate Log(os: seq<Request>, k: nat, reported: seq<int>, expected: seq<int>) {
    && k <= |os| && |reported| == k && reported == expected
    && forall i | 0 <= i < k :: reported[i] == Reported(os, i) == Expected(os, i)
  }

  lemma Logged(os: seq<Request>, k: nat, reported: seq<int>, expected: seq<int>, r: int, e: int)
    requires k < |os| && Log(os, k, reported, expected) && r == e == Expected(os, k) == Reported(os, k)
    ensures Log(os, k + 1, reported + [r], expected + [e])
  {}

  /** Any scenario on a new engine and a new oracle, order by order in lockstep: they fill the same,
      and after every order ladders and slices hold the same book. */
  method PlayTogether(os: seq<Request>)
    returns (engine: GoEngine.Engine, oracle: Oracle.ReferenceBook, reported: seq<int>, expected: seq<int>)
    requires Scenario(os)
    ensures Together(engine, oracle, os, |os|) && Log(os, |os|, reported, expected)
  {
    engine, oracle := Begin(os);
    reported, expected := [], [];
    for k := 0 to |os|
      invariant fresh(Objects(engine, oracle)) && Together(engine, oracle, os, k) && Log(os, k, reported, expected)
    {
      var r, e := PlayNext(engine, oracle, os, k, os[k]);
      Logged(os, k, reported, expected, r, e);
      reported, expected := reported + [r], expected + [e];
    }
  }

  /** Every reply is what the engine's rules report, every case judges it against the oracle, and the
      score is that of the cases. */
  ghost predicate Scored(os: seq<Request>, replies: seq<Option<int>>, cases: seq<Case>, score: real) {
    && |replies| == |os| && (forall k | 0 <= k < |os| :: replies[k] == Some(Reported(os, k)))
    && Judged(os, replies, cases)
    && score == Score(Passes(cases), |os|) && Share(score, |Right(os, replies)|, |os|)
  }

  lemma WholePrefix(os: seq<Request>)
    ensures os[..|os|] == os
  {}

  /** Judge what an engine reported. */
  method JudgeAll(os: seq<Request>, reported: seq<int>, ghost expected: seq<int>)
    returns (replies: seq<Option<int>>, score: real, cases: seq<Case>)
    requires Scenario(os) && Log(os, |os|, reported, expected)
    ensures Scored(os, replies, cases, score) && (os != [] ==> score == 100.0)
  {
    replies := seq(|os|, i requires 0 <= i < |reported| => Some(reported[i]));
    score, cases := Validate(os, replies);
    if os != [] { GoScoresFull(os, replies, cases); }
  }

  /** The Go engine played over a scenario and judged on what it reports: the score is 100. */
  method ScoreEngine(os: seq<Request>)
    returns (engine: GoEngine.Engine, replies: seq<Option<int>>, score: real, cases: seq<Case>)
    requires Scenario(os)
    ensures EngineAt(engine, os) && Scored(os, replies, cases, score)
    ensures os != [] ==> score == 100.0
  {
    var oracle, reported, expected;
    WholePrefix(os);
    engine, oracle, reported, expected := PlayTogether(os);
    replies, score, cases := JudgeAll(os, reported, expected);
  }
}
