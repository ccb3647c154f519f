// The Go and the JS engine, object against object: given one run of requests they answer
// each with the same fills and hold the same book after it, ladders here and queues there.
module EngineRun {
  import opened Flat
  import opened Books
  import opened Wire
  import opened EngineAgreement
  import GoEngine
  import JsEngine

  /** Both engines are well formed, under one policy, and stand in corresponding states. */
  ghost predicate Paired(owner: Id -> Id, go: GoEngine.Engine, js: JsEngine.MatchingEngine)
    reads go, go.Levels(), js
  {
    && go.Valid() && js.Valid() && go.policy == js.selfTradePrevention
    && Same(owner, go.View(), js.View())
  }

  ghost function Objects(go: GoEngine.Engine, js: JsEngine.MatchingEngine): set<object>
    reads go
  {
    {go, js} + go.Levels()
  }

  method SubmitGo(go: GoEngine.Engine, ghost js: JsEngine.MatchingEngine, q: Request) returns (a: Response)
    requires go.Valid()
    modifies go, go.Levels()
    ensures go.Valid() && js.Valid() == old(js.Valid()) && js.View() == old(js.View())
    ensures var p := Go.Step(go.policy, old(go.View()), q); go.View() == p.0 && a == p.1
    ensures forall l | l in go.Levels() :: l in old(go.Levels()) || fresh(l)
  {
    label L:
    a := go.Submit(q);
    assert unchanged@L(js);
  }

  method SubmitJs(ghost go: GoEngine.Engine, js: JsEngine.MatchingEngine, q: Request) returns (b: Response)
    requires js.Valid()
    modifies js
    ensures js.Valid() && go.Valid() == old(go.Valid()) && go.View() == old(go.View())
    ensures go.Levels() == old(go.Levels())
    ensures var p := Js.Step(js.selfTradePrevention, old(js.View()), q); js.View() == p.0 && b == p.1
  {
    label L:
    b := js.Submit(q);
    assert unchanged@L(go) && unchanged@L(go.Levels());
  }

  /** One request to both engines: the same fills, corresponding states afterwards, and the same ack
      unless the policy stops an order in flight that may not rest. */
  method SubmitBoth(ghost owner: Id -> Id, go: GoEngine.Engine, js: JsEngine.MatchingEngine, q: Request)
    returns (a: Response, b: Response)
    requires Paired(owner, go, js) && Comparable(owner, q)
    modifies Objects(go, js)
    ensures Paired(owner, go, js) && a.fills == b.fills
    ensures a.ack == b.ack <==> !StoppedInFlight(go.policy, old(go.View()), q)
    ensures var p := Go.Step(go.policy, old(go.View()), q); go.View() == p.0 && a == p.1
    ensures var p := Js.Step(go.policy, old(js.View()), q); js.View() == p.0 && b == p.1
    ensures forall x | x in Objects(go, js) :: x in old(Objects(go, js)) || fresh(x)
  {
    StepAgrees(owner, go.policy, go.View(), js.View(), q);
    a := SubmitGo(go, js, q);
    b := SubmitJs(go, js, q);
  }

  /** Both engines stand where their rules stand after these requests, and correspond there. */
  ghost predicate BothAt(owner: Id -> Id, policy: Policy, go: GoEngine.Engine, js: JsEngine.MatchingEngine,
                         qs: seq<Request>)
    reads go, go.Levels(), js
  {
    && Paired(owner, go, js) && go.policy == policy
    && go.View() == Go.Run(policy, Go.INITIAL, qs) && js.View() == Js.Run(policy, qs)
  }

  /** What the rules of the Go engine answer to request `k` of a run. */
  function GoAnswer(policy: Policy, qs: seq<Request>, k: nat): Response
    requires k < |qs|
  {
    Go.Step(policy, Go.Run(policy, Go.INITIAL, qs[..k]), qs[k]).1
  }

  /** These are the answers of both rules to request `k` of a run: the same fills, and the same ack
      unless the policy stops the request in flight. */
  ghost predicate Answers(policy: Policy, qs: seq<Request>, k: nat, a: Response, b: Response)
    requires k < |qs|
  {
    && a == GoAnswer(policy, qs, k) && b == Js.Answer(policy, qs, k) && a.fills == b.fills
    && (a.ack == b.ack <==> !StoppedInFlight(policy, Go.Run(policy, Go.INITIAL, qs[..k]), qs[k]))
  }

  lemma PrefixStep(policy: Policy, qs: seq<Request>, k: nat)
    requires k < |qs|
    ensures Go.Run(policy, Go.INITIAL, qs[..k + 1]) == Go.Step(policy, Go.Run(policy, Go.INITIAL, qs[..k]), qs[k]).0
    ensures Js.Run(policy, qs[..k + 1]) == Js.Step(policy, Js.Run(policy, qs[..k]), qs[k]).0
  {
    assert qs[..k + 1][..k] == qs[..k];
  }

  /** Request `k` of a run, to two engines that have answered those before it. */
  method SubmitNext(ghost owner: Id -> Id, go: GoEngine.Engine, js: JsEngine.MatchingEngine, ghost policy: Policy,
                    ghost qs: seq<Request>, ghost k: nat, q: Request)
    returns (a: Response, b: Response)
    requires k < |qs| && q == qs[k] && Comparable(owner, q) && BothAt(owner, policy, go, js, qs[..k])
    modifies Objects(go, js)
    ensures BothAt(owner, policy, go, js, qs[..k + 1])
    ensures Answers(policy, qs, k, a, b)
    ensures forall x | x in Objects(go, js) :: x in old(Objects(go, js)) || fresh(x)
  {
    PrefixStep(policy, qs, k);
    a, b := SubmitBoth(owner, go, js, q);
  }

  /** The answers to the first `k` requests of a run. */
  ghost predicate Log(policy: Policy, qs: seq<Request>, k: nat, a: seq<Response>, b: seq<Response>) {
    && |a| == |b| == k <= |qs|
    && forall i | 0 <= i < k :: Answers(policy, qs, i, a[i], b[i])
  }

  lemma Logged(policy: Policy, qs: seq<Request>, k: nat, a: seq<Response>, b: seq<Response>, x: Response, y: Response)
    requires k < |qs| && Log(policy, qs, k, a, b) && Answers(policy, qs, k, x, y)
    ensures Log(policy, qs, k + 1, a + [x], b + [y])
  {
    var a', b' := a + [x], b + [y];
    forall i | 0 <= i < k + 1 ensures Answers(policy, qs, i, a'[i], b'[i]) {
      assert i < k ==> a'[i] == a[i] && b'[i] == b[i];
    }
  }

  lemma WholePrefix(qs: seq<Request>)
    ensures qs[..|qs|] == qs
  {}

  method Begin(ghost owner: Id -> Id, policy: Policy) returns (go: GoEngine.Engine, js: JsEngine.MatchingEngine)
    ensures fresh(Objects(go, js)) && BothAt(owner, policy, go, js, [])
  {
    StartsSame(owner);
    go := new GoEngine.Engine(policy);
    js := new JsEngine.MatchingEngine(policy);
  }

  /** Any run of comparable requests on two new engines, in lockstep: each gives the answers of its
      rules to these requests, with the same fills at every position and the same ack wherever the
      policy stops nothing in flight, and both end with the same book. */
  method PlayBoth(ghost owner: Id -> Id, policy: Policy, qs: seq<Request>)
    returns (go: GoEngine.Engine, js: JsEngine.MatchingEngine, a: seq<Response>, b: seq<Response>)
    requires forall q | q in qs :: Comparable(owner, q)
    ensures BothAt(owner, policy, go, js, qs) && go.Flats() == js.Flats() && Log(policy, qs, |qs|, a, b)
  {
    go, js := Begin(owner, policy);
    a, b := [], [];
    WholePrefix(qs);
    for k := 0 to |qs|
      invariant fresh(Objects(go, js)) && BothAt(owner, policy, go, js, qs[..k]) && Log(policy, qs, k, a, b)
    {
      assert qs[k] in qs;
      var x, y := SubmitNext(owner, go, js, policy, qs, k, qs[k]);
      Logged(policy, qs, k, a, b, x, y);
      a, b := a + [x], b + [y];
    }
  }
}
