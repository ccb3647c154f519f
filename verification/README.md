# Order books of the trading platform, verified

The platform contains several independent implementations of one thing, a limit order
book with price-time priority, and relies on their agreeing: deployed engines are scored
by comparing their fills with an oracle's. This project models four of them in their own
form and proves that each performs the same steps on two flat lists of orders, ordered by
price and then by arrival. What is then proved about the flat lists holds of all of them.

| implementation | own form | modules |
|---|---|---|
| Go sample engine | ladders of price levels found by bisection, FIFO queues, id index, dedup set | `GoEngine`, `Ladder` |
| correctness oracle | heap orders in slices sorted again after each append, map by id | `Oracle`, `Validation` |
| JS reference engine | price-keyed maps of queues with a linear scan for the best price | `JsEngine`, `Depth` |
| C++ book | ordered price set, price-to-limit map, doubly linked lists, cached best prices, lengths and volumes | `CppLimit`, `CppSide`, `CppBook` |

The modules build on each other as follows.

- `Flat` is the reference: insertion, removal, and matching one contact at a time under
  the four self-trade policies. `MatchLaws`, `SideLaws` and `Books` hold its laws: exact
  fills, what is left behind, conservation, priority, and the shape of an uncrossed book.
- `Wire`, `GoRules`, `JsRules` and `OracleRules` say what one request does to a whole
  engine state, every branch and error included. `GoIndex`, `GoLedger` and `GoPriority`
  prove properties of all runs of the Go rules; `JsRules` proves those of the JS rules.
- `Offers` reads off the prices, owners and quantities in the book what an order may trade
  with. `GoAnswers` and `JsAnswers` state in these terms what the engines answer to every
  request, and what their counters and dedup sets hold after every run.
- `GoEngine`, `Oracle`, `JsEngine`, `CppLimit`, `CppSide` and `CppBook` are classes whose
  methods update state in place as the originals do. Their main methods (`Submit`, `Apply`,
  `PlaceOrder`, `DeleteOrder`) are proved equal to the rules on every call, and say which
  objects are new, so that calls can be chained.
- `Validation`, `EngineAgreement` and `CppAgreement` compare implementations over whole
  runs: Go with the oracle, Go with JS, C++ with the oracle. `ScoredRun`, `EngineRun` and
  `CppAgreement.Replay` play runs through the objects themselves.
- `TDigest` is the latency sketch of the run page, over the reals and for any scale
  function. `Xoshiro` is the random generator of the order bots on 64-bit words.

`dafny verify dfyconfig.toml` checks the whole project.

## Where the code falls short of the plain statement

Each of these is modelled as the code has it; a lemma shows the failure or the exact
condition under which the property holds.

- The Go engine rejects an order id it has seen per client, but its index is keyed by the
  id alone. `GoIndex.StepIndex` gives the exact condition for the index to stay right,
  `GoIndex.SharedIdBreaksIndex` a run that breaks it.
- The Go engine matches `modify` and unknown types before it rejects them, so a rejection
  can consume liquidity: `GoLedger.RejectionExact` and `GoLedger.StepConserves` say exactly
  when, `GoLedger.RejectedModifyTakes` is a run.
- The fill-or-kill check ignores the self-trade policy in both engines:
  `GoLedger.FokAllOrNothing` and `JsRules.FokAllOrNothing` give the exact condition,
  `GoLedger.FokShort` and `JsRules.FokShort` orders acked as filled with no fill; the JS
  engine words it so exactly under the policies of `JsRules.FokWorded`.
- The JS engine words the ack of a market, ioc or fok order stopped by the self-trade
  policy differently from the Go engine; `EngineAgreement.StepAgrees` says exactly when,
  `EngineAgreement.StoppedMarketDiffers` is a run.
- The JS index keeps the quantity an order first came to rest with: `JsRules.RecordTells`
  gives what a record holds on every run, `JsRules.RecordGoesStale` when it stops agreeing
  with the book, `JsRules.RecordsAreStale` a run where it has. A refused modify loses its
  target: `JsRules.RejectedModifyLosesTarget` says exactly when,
  `JsRules.RefusedModifyEmpties` is a run. The index has room for one order without an id:
  `JsRules.StepIndex`, `JsRules.UnnamedBreaksIndex`.
- Merging a t-digest whose points are all staged adds nothing: `TDigest.TDigest.Merge`,
  `TDigest.MergeDropsStaged`, `TDigest.StagedIsDropped`. Merging one into itself walks an
  array that grows: `TDigest.TDigest.Merge` says exactly when it doubles the weight,
  `TDigest.MergedIntoItself` is a run where one point becomes 52. The header describes `count` as the total weight; by
  `TDigest.TDigest.CountIsTotal` it is that exactly while nothing is staged.
- `place_order` of the C++ book never returns for a crossing order of volume zero, because
  such an order is never marked as fulfilled. `CppSide.BookSide.SpinRound` proves that a
  round of the loop then changes nothing and the loop goes on; `CppSide.BookSide.MatchIncoming`
  proves that it ends for every order with volume or without a price to cross, and
  `CppBook.ZeroVolumeSpins` and `CppBook.SpinOnce` make up a run. The server refuses such orders before the call
  (`server.cpp`, line 78).
- A second active order under one id replaces the first in the index of the C++ book:
  `CppBook.Book.PlaceOrder` says exactly when the index still finds every linked order,
  `CppBook.SharedIdStrands` is a run after which it does not. The oracle's map has the same
  weakness: `Oracle.ReferenceBook.Apply`, and `Oracle.SellTwice`, `Oracle.CancelStrands` and
  `Oracle.SharedIdStrands` make up a run.
- An order object that was deleted from the C++ book and is placed again rests with the
  status of a deleted order, and no deletion reaches it: `CppBook.Book.PlaceOrder` says
  exactly when all linked orders stay active, `CppBook.DeletedStays` is a run.

## Model

| member | source | states |
|---|---|---|
| `MatchLaws.MatchExact` | examples/sample-engine-go/main.go:299-360 | matching fills exactly the smaller of the taker's quantity and the quantity it may trade with, its fills walk those orders from the best one on, at their prices, and only the last maker can be left partly filled; under every policy |
| `MatchLaws.MatchLeaves` | examples/sample-engine-go/main.go:320-357 | the side left behind is a tail of the old one with at most its front order reduced; everything before it crossed and is gone, and the orders withdrawn are exactly the taker's own among those |
| `MatchLaws.MatchExhausts` | examples/sample-engine-go/main.go:301-318 | a taker that still wants quantity and was not cancelled meets no crossing order any more |
| `MatchLaws.NoSelfTrade` | examples/sample-engine-go/main.go:394-399 | every fill is against an order of another client, unless the policy is none or a client is absent |
| `MatchLaws.HaltExact` | examples/sample-engine-go/main.go:323-332 | cancel-taker and cancel-both stop the taker if and only if its quantity exceeds what is tradable ahead of its first own order and that order crosses |
| `MatchLaws.HaltLeaves` | examples/sample-engine-go/main.go:323-333 | a stopped taker leaves the book from its first own order on; cancel-both also withdraws that order, cancel-taker keeps it |
| `MatchLaws.NoTradeThrough` | examples/sample-engine-go/main.go:320-350 | when an order trades as maker, every order ahead of it has left the book |
| `MatchLaws.MadeByReaches` | examples/sample-engine-go/main.go:320-350 | an order trades as maker if and only if it is tradable and the taker's quantity exceeds what is tradable ahead of it |
| `MatchLaws.MatchConserves` | examples/sample-engine-go/main.go:335-349 | for every id, resting quantity before equals resting quantity after plus quantity made plus quantity withdrawn |
| `SideLaws.InsertAt` | examples/sample-engine-go/main.go:77-99 | insertion puts the order behind all orders of equal or better price and moves nothing else |
| `SideLaws.RemoveAt` | examples/sample-engine-go/main.go:101-125 | removal takes out the first order of that price and id, and nothing else |
| `SideLaws.RemoveUndoesInsert` | examples/sample-engine-go/main.go:77-125 | removing a freshly inserted id restores the side exactly |
| `Books.SettleShape` | examples/sample-engine-go/main.go:245-261 | trading and resting keeps both sides in priority order with positive quantities and the best bid below the best ask |
| `Books.CancelShape` | examples/sample-engine-go/main.go:218-229 | a cancel keeps the same shape |
| `Ladder.InsertedFlat` | examples/sample-engine-go/main.go:77-99 | inserting at the binary-search level, opening it if needed, is inserting behind equal or better prices in the flat side |
| `Ladder.InsertedProper` | examples/sample-engine-go/main.go:77-99 | insertion keeps levels strictly ordered and nonempty |
| `Ladder.RemovedFlat` | examples/sample-engine-go/main.go:106-122 | splicing an order out of its level, and dropping an emptied level, is removal from the flat side |
| `Ladder.RemovedProper` | examples/sample-engine-go/main.go:106-122 | removal keeps levels strictly ordered and nonempty |
| `Ladder.FlattenInjective` | examples/sample-engine-go/main.go:57-62 | a ladder of strictly ordered nonempty levels is determined by its flat side |
| `Ladder.LadderRestored` | examples/sample-engine-go/main.go:77-125 | whatever insert and remove do to the levels, inserting an unused id and removing it gives back the same ladder, level by level |
| `Ladder.CrossWalk` | examples/sample-engine-go/main.go:377-390 | crossing quantity level by level; past the first level that does not cross there is none, which justifies the early break |
| `GoEngine.Engine.Search` | examples/sample-engine-go/main.go:79-89 | the bisection finds the first level not strictly better than the price |
| `GoEngine.Engine.InsertResting` | examples/sample-engine-go/main.go:77-99 | the two ladders afterwards flatten to the book with the order inserted on its side; the other side is untouched |
| `GoEngine.Engine.RemoveOrder` | examples/sample-engine-go/main.go:101-125 | the ladders flatten to the book with the order removed, and the result tells whether it was there |
| `GoEngine.Engine.MatchLevel` | examples/sample-engine-go/main.go:320-350 | the inner loop carries the flat matching outcome on: quantities, fills, fill numbers and index |
| `GoEngine.Engine.MatchLadder` | examples/sample-engine-go/main.go:299-360 | the nested loops on the opposite ladder produce exactly the flat matching outcome: fills in order with their numbers, remainder, stop flag, ladder left behind and index |
| `GoEngine.Engine.WouldCross` | examples/sample-engine-go/main.go:362-369 | true if and only if the best opposite price crosses |
| `GoEngine.Engine.Validate` | examples/sample-engine-go/main.go:193-216 | the checks in their order, and the dedup set |
| `GoEngine.Engine.CancelOrder` | examples/sample-engine-go/main.go:218-229 | a cancel step: miss, or removal at the indexed place |
| `GoEngine.Engine.Submit` | examples/sample-engine-go/main.go:183-297 | one call takes the engine, its ladders read flat, to exactly the state and response of GoRules.Step, and keeps ladders and book well shaped |
| `GoRules.StepShape` | examples/sample-engine-go/main.go:183-297 | every request of every type, valid or not, under every policy keeps the book well shaped and uncrossed |
| `GoRules.RunShape` | examples/sample-engine-go/main.go:183-297 | every reachable book is well shaped and uncrossed |
| `GoIndex.StepIndex` | examples/sample-engine-go/main.go:218-260 | a step keeps the index exact if and only if it does not bring to rest an id that is still resting |
| `GoIndex.RunIndex` | examples/sample-engine-go/main.go:208-260 | if each resting id is given and issued by one client, the index maps exactly the resting ids to their side, price and client in every reachable state |
| `GoIndex.CancelAcked` | examples/sample-engine-go/main.go:218-229 | with an exact index a cancel is acked as cancelled if and only if its target rests, and otherwise changes nothing |
| `GoIndex.CancelExact` | examples/sample-engine-go/main.go:225-227 | a cancel removes its target, wherever it rests, and no other order |
| `GoIndex.AckedRests` | examples/sample-engine-go/main.go:254-294 | a new order acked as accepted or partial rests under its id with the acked remainder, indexed where it was sent; after any other ack nothing rests under its id |
| `GoIndex.SharedIdBreaksIndex` | examples/sample-engine-go/main.go:131-132 | a run in which two clients share an id: one order is left that no cancel can reach |
| `GoLedger.StepConserves` | examples/sample-engine-go/main.go:245-297 | one step conserves the quantity of every id, if and only if it is not an unknown kind that traded under that id before it was rejected |
| `GoLedger.RunConserves` | examples/sample-engine-go/main.go:183-297 | over every run of the six handled types, accepted quantity equals quantity taken, made, withdrawn and resting, id by id |
| `GoLedger.AckTells` | examples/sample-engine-go/main.go:245-291 | the acked filled quantity is the sum of the fills and the smaller of quantity and tradable quantity; filled plus remaining is the order's quantity except exactly for a fill-or-kill that came out short |
| `GoEngine.Engine.FokFillable` | examples/sample-engine-go/main.go:371-392 | true if and only if the crossing quantity covers the order, although the walk stops early; nothing changes |
| `GoLedger.FokRefused` | examples/sample-engine-go/main.go:239-243 | a fill-or-kill is refused, with book and index untouched, if and only if the crossing quantity falls short |
| `GoLedger.FokAllOrNothing` | examples/sample-engine-go/main.go:239-251 | an accepted fill-or-kill is filled completely if and only if the quantity left to trade after self-trade prevention covers it; under policy none always |
| `GoLedger.FokShort` | examples/sample-engine-go/main.go:290-291 | a fill-or-kill under cancel-taker that is acked as filled with nothing traded |
| `GoLedger.RejectionExact` | examples/sample-engine-go/main.go:193-251 | a rejection leaves book and fills alone, except exactly when a modify or unknown type reaches matching and meets a crossing order |
| `GoLedger.RejectedModifyTakes` | examples/sample-engine-go/main.go:193-297 | a run: a modify of quantity 3 against a resting sell of 5 is rejected as unknown, reports a fill of 3 that no request was accepted for, and leaves 2 resting |
| `GoPriority.RunPriority` | examples/sample-engine-go/main.go:77-99 | in every reachable state each side lists its orders by price and then by the number of the request that brought them to rest |
| `GoPriority.RunNoTradeThrough` | examples/sample-engine-go/main.go:299-350 | after any run, when an order trades as maker, every order with priority over it by price or arrival is gone after the step |
| `GoPriority.SurvivorsKeepOrder` | examples/sample-engine-go/main.go:77-125 | no step reorders two orders that survive it |
| `Offers.MatchTakes` | examples/sample-engine-go/main.go:299-350 | matching takes what is offered from the best price on, read off the prices and owners in the book: each order whole at its own price but for the last, until the quantity or the offers are used up |
| `Offers.MatchStops` | examples/sample-engine-go/main.go:320-332 | self-trade prevention stops an order if and only if the policy halts, an own order lies within its price and what is offered ahead of it does not cover it |
| `Offers.MatchSweeps` | examples/sample-engine-go/main.go:299-360 | without a policy the fills and the side left behind are those of sweeping the side from the front within the price |
| `GoAnswers.Refused` | examples/sample-engine-go/main.go:193-295 | every refusal with its exact cause in the request, the ids known and the prices and quantities in the book; a kind that is not one of the six is refused as unknown, a modify always |
| `GoAnswers.PostOnlyRests` | examples/sample-engine-go/main.go:230-261 | a usable post-only order under a new id is refused if and only if an order it faces has a price it would trade at; otherwise it is accepted with its whole quantity, without fills, and rests whole at its price behind equal and better ones |
| `GoAnswers.Quantities` | examples/sample-engine-go/main.go:245-291 | the fills of an order that is not refused walk what is offered to it, and the ack carries its id, the sum of the fills and the rest |
| `GoAnswers.Worded` | examples/sample-engine-go/main.go:253-291 | the wording of the outcome, kind by kind, in terms of the filled quantity; a limit order reads as stopped if and only if self-trade prevention stops it, and no other kind does |
| `GoAnswers.BookAfter` | examples/sample-engine-go/main.go:253-261 | the own side gains the remainder of an order that may rest and was not stopped, behind all of equal or better price, and nothing else; without a policy the other side is swept |
| `GoAnswers.Cancels` | examples/sample-engine-go/main.go:218-229 | the whole answer to a cancel, hit or miss |
| `GoAnswers.Duplicates` | examples/sample-engine-go/main.go:208-216 | after any run a request is refused as a duplicate if and only if it is usable and repeats client and id of an earlier usable request, refused later on or not |
| `GoAnswers.FillsNumbered` | examples/sample-engine-go/main.go:335-349 | the fills of a run are numbered 1, 2, 3 and so on across all its answers |
| `Oracle.SortAppended` | services/gateway/internal/validator/validator.go:113-127 | appending and sorting stably inserts the order at one place of a sorted slice |
| `Oracle.PutFlat` | services/gateway/internal/validator/validator.go:113-127 | that place is behind all orders of equal or better price: the slow insert and the fast one agree |
| `Oracle.ReferenceBook.Remove` | services/gateway/internal/validator/validator.go:133-146 | removal cuts the same order out of map and slices; ranking, numbering and the map's entries stay right, and a complete map stays complete |
| `Oracle.ReferenceBook.TradeBest` | services/gateway/internal/validator/validator.go:85-91 | one round against the best order is one contact of the flat matching |
| `Oracle.ReferenceBook.Take` | services/gateway/internal/validator/validator.go:79-107 | the matching loops fill exactly what flat matching without a policy fills |
| `Oracle.ReferenceBook.CancelById` | services/gateway/internal/validator/validator.go:72-77 | a cancel removes the order the map names, from whichever side lists it, and that is the first of its id while the map is complete |
| `Oracle.ReferenceBook.Apply` | services/gateway/internal/validator/validator.go:71-131 | from any book, complete map or not, a trading order takes the slices to exactly the book of OracleRules.Apply with the filled quantity it states, and a remainder is named by the map; a cancel takes the order the map names, which is the cancel of OracleRules.Apply while the map is complete; a complete map stays complete if and only if no remainder comes to rest under the id of a resting order |
| `OracleRules.ApplyExact` | services/gateway/internal/validator/validator.go:71-131 | what one order fills, what it leaves of the side it faces and what rests, in terms of the prices and quantities in the book; anything but a limit order takes any price, and what is no buy is a sell |
| `OracleRules.WithoutAt` | services/gateway/internal/validator/validator.go:72-77 | the cancel of an id takes out the first order of that id |
| `Oracle.SellTwice` | services/gateway/internal/validator/validator.go:110-111 | an oracle in that state, from the empty book: two sells under one id rest and the map names the second |
| `Oracle.CancelStrands` | services/gateway/internal/validator/validator.go:72-77 | with two sells under one id, of which the map names the second, a cancel of the id takes the second: the first rests on and the map is empty |
| `Oracle.SharedIdStrands` | services/gateway/internal/validator/validator.go:110-111 | an oracle in this state, from the empty book: one sell of an id rests and the map is empty |
| `Validation.CancelAgrees` | services/gateway/internal/validator/validator.go:72-77 | the engine's cancel through its index and the oracle's cancel by id give the same book |
| `Validation.RunAgrees` | services/gateway/internal/validator/validator.go:71-131 | on every well-formed scenario the Go engine's ladders flatten to the oracle's book |
| `Validation.FillsAgree` | services/gateway/internal/validator/validator.go:181-187 | order by order the Go engine reports the filled quantity the oracle expects |
| `Validation.FullMarks` | services/gateway/internal/validator/validator.go:190-192 | the score is 100 if and only if every reply arrived and equals the oracle's quantity |
| `Validation.Validate` | services/gateway/internal/validator/validator.go:175-194 | every case says what was asked, expected and answered and passes exactly if the answer is right; the score times the number of orders is 100 times the number of right answers, and 0 without orders |
| `ScoredRun.PlayNext` | services/gateway/internal/validator/validator.go:175-189 | one order of a scenario through both objects, from any point of it: the same filled quantity, and afterwards the same book in ladders and slices |
| `ScoredRun.PlayTogether` | services/gateway/internal/validator/validator.go:175-189 | any scenario played in lockstep through a new engine object and a new oracle object: at every order both fill the same, and at the end ladders and slices hold the same book |
| `ScoredRun.ScoreEngine` | services/gateway/internal/validator/validator.go:175-194 | played over a scenario, the engine object ends where its rules end, its replies are the quantities it reported, every case judges a reply against the oracle, the score is the share of right answers, and it is 100 on every nonempty scenario |
| `Validation.GoScoresFull` | services/gateway/internal/validator/validator.go:175-194 | the Go engine scores 100 on every nonempty well-formed scenario, not only the built-in one |
| `Depth.PushFlat` | frontend/platform/assets/engine.js:66-69 | pushing to the queue of a price is inserting behind equal or better prices, whatever the order of the keys |
| `Depth.SpliceFlat` | frontend/platform/assets/engine.js:160-167 | splicing an order out of its queue, and deleting an emptied key, is removal from the flat side |
| `Depth.RungsFlat` | frontend/platform/assets/engine.js:302-310 | visiting the keys in sorted order reads the same flat side |
| `JsEngine.MatchingEngine.BestKey` | frontend/platform/assets/engine.js:73-81 | the scan over the keys in any order finds the best price |
| `JsEngine.MatchingEngine.Match` | frontend/platform/assets/engine.js:100-139 | the nested loops produce exactly the flat matching outcome, with fills, counters, last trade and index |
| `JsEngine.MatchingEngine.FokFillable` | frontend/platform/assets/engine.js:299-312 | true if and only if the crossing quantity covers the order |
| `JsEngine.MatchingEngine.Cancel` | frontend/platform/assets/engine.js:157-176 | a cancel removes the indexed order and its emptied queue, or misses |
| `JsEngine.MatchingEngine.Submit` | frontend/platform/assets/engine.js:142-295 | one call takes the whole engine state to exactly that of JsRules.Step with its response, modify included |
| `JsRules.StepIndex` | frontend/platform/assets/engine.js:142-295 | a request of any kind, with or without an id, keeps the index exact if and only if the trading order it comes down to does not bring to rest an id that is still resting |
| `JsRules.ReusesUnnamed` | frontend/platform/assets/engine.js:220-226 | and only an order without an id can do that |
| `JsRules.RunSound` | frontend/platform/assets/engine.js:142-295 | on every run whose resting orders carry ids, repeated ids included, the book is shaped and the index holds exactly the resting orders with side, price and client |
| `JsRules.UnnamedBreaksIndex` | frontend/platform/assets/engine.js:259-264 | a run: two sells without an id rest, and the index knows the second only |
| `JsEngine.MatchingEngine.Replace` | frontend/platform/assets/engine.js:178-194 | a modify splices the target out of its queue and index and resubmits a limit order on its side, counted twice |
| `JsRules.ModifyIsCancelThenLimit` | frontend/platform/assets/engine.js:178-194 | a modify of a known order gives the same full state and answer as a cancel of it followed by a limit order on its side |
| `JsRules.ModifyRejected` | frontend/platform/assets/engine.js:193-225 | a modify of a known order is rejected if and only if its quantity or price is not positive or its id is taken |
| `JsRules.RejectedModifyLosesTarget` | frontend/platform/assets/engine.js:183-193 | the target is lost without a replacement if and only if the replacement's quantity, price or id is refused |
| `JsRules.RefusedModifyEmpties` | frontend/platform/assets/engine.js:183-225 | a run: a sell of 5 is modified to price 0, the modify is rejected, and the book is empty |
| `JsRules.RejectionExact` | frontend/platform/assets/engine.js:178-244 | a rejection leaves the book alone if and only if it is not that of a modify |
| `JsRules.StepQty` | frontend/platform/assets/engine.js:124-134 | over one request an order that keeps resting gives up exactly what it trades, and its record does not change |
| `JsRules.RecordTells` | frontend/platform/assets/engine.js:126-134 | over every run the record of a resting order holds the quantity that rests plus all it has traded since it came to rest |
| `JsRules.RecordGoesStale` | frontend/platform/assets/engine.js:126-134 | over any request that leaves the order resting, modifies included, a record that agrees with the resting quantity keeps agreeing if and only if the trading order the request comes down to does not reach it: it may not trade with it, or what it may trade with ahead of it covers its quantity |
| `JsRules.RecordsAreStale` | frontend/platform/assets/engine.js:126-134 | a run after which 2 rest and the record says 5 |
| `JsRules.CancelAcked` | frontend/platform/assets/engine.js:157-176 | a cancel is acked as cancelled if and only if its target rests, and otherwise changes nothing but a counter |
| `JsRules.FokAllOrNothing` | frontend/platform/assets/engine.js:238-251 | an accepted fill-or-kill is filled completely if and only if the quantity left to trade after self-trade prevention covers it |
| `JsRules.FokWorded` | frontend/platform/assets/engine.js:256-279 | and it is acked as filled if and only if that quantity covers it or the policy does not halt the taker |
| `JsRules.FokShort` | frontend/platform/assets/engine.js:277-279 | a run: a fill-or-kill under cancel-maker is acked as filled with nothing traded, and the own order it met is gone |
| `JsRules.FillsAddUp` | frontend/platform/assets/engine.js:281-287 | the acked filled quantity of every answer is the sum of its fills |
| `JsRules.FillNumbersRise` | frontend/platform/assets/engine.js:24-26 | over a run no two fills share a number, and later fills have higher ones |
| `JsAnswers.Refused` | frontend/platform/assets/engine.js:196-244 | every refusal with its exact cause in the request, the ids known and the prices and quantities in the book |
| `JsAnswers.PostOnlyRests` | frontend/platform/assets/engine.js:228-267 | a usable post-only order under a new id is refused if and only if an order it faces has a price it would trade at; otherwise it is accepted with its whole quantity, without fills, and rests whole at its price behind equal and better ones |
| `JsAnswers.Quantities` | frontend/platform/assets/engine.js:246-280 | the fills of an order that is not refused walk what is offered to it, and the ack carries its id, the sum of the fills and the rest |
| `JsAnswers.Worded` | frontend/platform/assets/engine.js:255-280 | the wording of the outcome, kind by kind, in terms of the filled quantity; an order of any kind reads as stopped if and only if self-trade prevention stops it |
| `JsAnswers.BookAfter` | frontend/platform/assets/engine.js:255-264 | the own side gains the remainder of an order that may rest and was not stopped, behind all of equal or better price, and nothing else; without a policy the other side is swept |
| `JsAnswers.TargetAnswers` | frontend/platform/assets/engine.js:156-195 | for requests of every kind: acked as cancelled if and only if it is a cancel of a resting order, as a cancel or modify miss if and only if it is one of an order that does not rest; a miss has no fills and moves the request counter alone |
| `JsAnswers.Duplicates` | frontend/platform/assets/engine.js:220-226 | after any run whose resting orders carry ids an order is refused as a duplicate if and only if it is usable and repeats the id of an earlier usable one or of a usable modify of a resting order |
| `JsAnswers.CountersTell` | frontend/platform/assets/engine.js:101-133 | over every run the order counter is the number of requests and of modifies of known orders, the fill counter the number of fills answered, the last trade the last of them, and fills are numbered 1, 2, 3 and so on |
| `EngineAgreement.StepAgrees` | frontend/platform/assets/engine.js:142-295 | from equal states the Go and the JS engine produce the same book, index and fills; their acks differ exactly when the policy stops an order that may not rest |
| `EngineAgreement.RunsAgree` | frontend/platform/assets/engine.js:142-295 | on every run of the six common types, each id used by one client, both engines hold the same book and index under every policy |
| `EngineAgreement.AnswersAgree` | frontend/platform/assets/engine.js:142-295 | without self-trade prevention every answer of every run is the same, fill numbers included |
| `EngineAgreement.StoppedMarketDiffers` | frontend/platform/assets/engine.js:256-272 | a run: the same market order against its own client's sell is acked as unfilled by Go and as cancelled by self-trade prevention by JS |
| `EngineRun.SubmitBoth` | frontend/platform/assets/engine.js:142-295 | one request to the two engine objects in corresponding states: each moves to the state and gives the answer its rules give to that request; the fills are the same, the states correspond again, and the acks are the same exactly unless the policy stops the request in flight |
| `EngineRun.SubmitNext` | frontend/platform/assets/engine.js:142-295 | the request at any position of such a run, to two engine objects that stand where their rules stand before it: the same after it |
| `EngineRun.PlayBoth` | frontend/platform/assets/engine.js:142-295 | any run of comparable requests on two new engine objects under any policy: each ends where its rules end on that run, every answer is that of its rules to the request at its position, with the same fills and, exactly unless the policy stops it in flight, the same ack, and both hold the same book at the end |
| `CppLimit.OrderNode.Fill` | examples/real-world-orderbook/src/Order.cpp:5-9 | filling takes the volume and marks a used-up order, and refuses, changing nothing, exactly when asked for more than is left |
| `CppLimit.Limit.InsertOrder` | examples/real-world-orderbook/src/Limit.cpp:4-14 | the order joins the end of the doubly linked list; links, head, tail, length and volume stay exact |
| `CppLimit.Limit.DeleteOrder` | examples/real-world-orderbook/src/Limit.cpp:16-39 | any order of the list is unlinked and detached; links, head, tail, length and volume stay exact |
| `CppLimit.Limit.MatchOrder` | examples/real-world-orderbook/src/Limit.cpp:41-55 | matching at one limit is the flat matching of its queue at its price; no fill is refused, and the loop ends with the limit or the order used up |
| `CppSide.BookSide.CheckForEmptyLimit` | examples/real-world-orderbook/src/Book.cpp:63-79 | an emptied limit, if there is one at the price, leaves map and tree, and the cached best price is the true best again |
| `CppSide.BookSide.GetOrCreateLimit` | examples/real-world-orderbook/src/Book.cpp:96-116 | the limit of the price, opened if it was missing, in map and tree alike |
| `CppSide.BookSide.InsertOrder` | examples/real-world-orderbook/src/Book.cpp:81-94 | the side afterwards lists the order behind equal or better prices; tree, map, best price and lists stay exact |
| `CppSide.BookSide.MatchIncoming` | examples/real-world-orderbook/src/Book.cpp:11-15 | for an order that has volume or crosses nothing the matching loop against one side ends, and is exactly flat matching without a policy |
| `CppSide.BookSide.SpinRound` | examples/real-world-orderbook/src/Book.cpp:11-15 | for an order of volume zero that crosses, a round of the loop trades nothing, changes nothing and leaves its guard true |
| `CppSide.BookSide.DeleteOrder` | examples/real-world-orderbook/src/Book.cpp:118-130 | deletion of a linked order removes it from the flat side, with its limit if that empties |
| `CppSide.BookSide.FlatsLinked` | examples/real-world-orderbook/src/Book.cpp:81-94 | the side lists exactly the linked orders, each at its price with its volume |
| `CppBook.Book.PlaceOrder` | examples/real-world-orderbook/src/Book.cpp:3-27 | from any book, also one whose index has lost an order, an order of whatever status with a positive price trades and rests as in a limit step, with those trades in order, whatever its id, unless it is marked as fulfilled, when only the index notes it; with any other price nothing changes; every cache and link stays exact and the book uncrossed; an index that finds every linked order keeps doing so if and only if, once the order has matched, no order rests under its id; the linked orders stay active if and only if the order did not come as a deleted one and rest |
| `CppBook.Book.NextExact` | examples/real-world-orderbook/src/Book.cpp:10-26 | what such an order trades, fill by fill, what it leaves of the side it faces and what rests beside, in terms of the prices and quantities in the book |
| `CppBook.Book.DeleteOrder` | examples/real-world-orderbook/src/Book.cpp:29-38 | from any book, an active order of this id loses its link and its one entry in the book, which is the cancel by price and id while the index finds every linked order; otherwise nothing changes |
| `CppBook.Book.GetOrderStatus` | examples/real-world-orderbook/src/Book.cpp:159-163 | an order is reported as active if and only if the book lists it, and an unknown one as deleted |
| `CppBook.Book.ActiveIffListed` | examples/real-world-orderbook/src/Book.cpp:8-38 | the index has an active order under an id if and only if an order of that id rests |
| `CppBook.Book.ActiveIffResting` | examples/real-world-orderbook/src/Book.cpp:24-38 | a known order is active if and only if it is linked, and then its side lists it with its whole volume |
| `CppBook.Book.RestingKnown` | examples/real-world-orderbook/src/Book.cpp:8 | everything that rests is an active order known under its id |
| `CppBook.Book.ShapeIffPositive` | examples/real-world-orderbook/src/Book.cpp:3-27 | in every valid book both sides are in price order and uncrossed, and the shape of the other engines' books holds if and only if no order rests without volume |
| `CppBook.SpinOnce` | examples/real-world-orderbook/src/Book.cpp:11-15 | for a buy without volume that crosses a book, a round of the loop trades nothing, leaves book and order as they were, and the buy crosses still |
| `CppBook.ZeroVolumeSpins` | examples/real-world-orderbook/src/Book.cpp:11-15 | a book and a buy in this state, from the empty book: a sell of 5 rests, and the buy without volume crosses it |
| `CppBook.SharedIdStrands` | examples/real-world-orderbook/src/Book.cpp:8 | a run: two sells under one id rest, and the first is linked and active but not in the index |
| `CppBook.DeletedStays` | examples/real-world-orderbook/src/Book.cpp:24-38 | a run: a sell rests, is deleted, placed again and deleted again; it still rests, indexed under its id, and its status is deleted |
| `CppBook.DeleteInactive` | examples/real-world-orderbook/src/Book.cpp:29-38 | a deletion of an indexed order that is not active leaves the book and its links as they are |
| `CppAgreement.PlaceNext` | examples/real-world-orderbook/server.cpp:85-92 | on any scenario of limit orders and cancels, the next limit order fills what the oracle expects and leaves the oracle's book |
| `CppAgreement.NextAt` | examples/real-world-orderbook/src/Book.cpp:3-38 | the order at any position of such a scenario, limit or cancel: the book stands for the oracle's book before and after it, and fills what the oracle expects |
| `CppAgreement.Replay` | examples/real-world-orderbook/src/Book.cpp:3-38 | any such scenario on a new book: every order fills what the oracle expects, and the book ends as the oracle's |
| `CppAgreement.TargetRests` | examples/real-world-orderbook/src/Book.cpp:29-38 | the index finds an active order if and only if an order of that id rests |
| `CppAgreement.DeleteNext` | examples/real-world-orderbook/src/Book.cpp:29-38 | the next cancel leaves the oracle's book |
| `TDigest.SortPermutes` | frontend/platform/assets/tdigest.js:64 | sorting orders the points by mean and permutes them |
| `TDigest.SortHead` | frontend/platform/assets/tdigest.js:64 | the first point after sorting is the first one of least mean |
| `TDigest.JoinMean` | frontend/platform/assets/tdigest.js:89-93 | the merged mean is the weighted mean and lies between the two means |
| `TDigest.CompressedKeeps` | frontend/platform/assets/tdigest.js:63-103 | compression keeps total weight and total weight times mean, and its centroids are sorted by mean and within the range of the points; for any scale function |
| `TDigest.CompressedBounded` | frontend/platform/assets/tdigest.js:81-101 | every centroid is a single point or ends within the limit that the scale function sets for where it starts |
| `TDigest.CompressedJoins` | frontend/platform/assets/tdigest.js:81-101 | compression joins the sorted points greedily: there are cuts such that each centroid has the weight and mass of its slice, every further point of a slice fitted within the limit for where the slice starts, and the first point of the next did not |
| `TDigest.JoinsExactly` | frontend/platform/assets/tdigest.js:81-101 | greedy joining has one result, and compression is it |
| `TDigest.OneCentroid` | frontend/platform/assets/tdigest.js:81-101 | with a limit of at least 1 throughout there is one centroid, of the whole weight and mass |
| `TDigest.TDigest.CountIsTotal` | frontend/platform/assets/tdigest.js:21 | count is the weight of everything taken in if and only if nothing is staged |
| `TDigest.TDigest.Reset` | frontend/platform/assets/tdigest.js:45-50 | afterwards no point counts as taken in |
| `TDigest.TDigest.Add` | frontend/platform/assets/tdigest.js:52-58 | a finite value joins the staged points, a full buffer is folded in, anything else is dropped, and the totals of all points taken in stay exact |
| `TDigest.TDigest.MergeBuffer` | frontend/platform/assets/tdigest.js:61-104 | folding in makes of centroids and staged points together, sorted by mean, the one result of greedy joining, and empties the buffer |
| `TDigest.TDigest.Fold` | frontend/platform/assets/tdigest.js:69-103 | the loop over cumulative weights computes that compression |
| `TDigest.QuantileMonotone` | frontend/platform/assets/tdigest.js:111-129 | quantiles rise with p |
| `TDigest.QuantileWithin` | frontend/platform/assets/tdigest.js:107-130 | a quantile lies between the first and the last mean, so within every range that holds the points |
| `TDigest.QuantileRank` | frontend/platform/assets/tdigest.js:114-127 | a quantile falls between the midpoints around the centroid that holds its rank |
| `TDigest.QuantileInside` | frontend/platform/assets/tdigest.js:114-126 | at a share of the weight of an inner centroid the quantile has climbed the same share of the way from the midpoint before it to the midpoint after it |
| `TDigest.QuantileFirst` | frontend/platform/assets/tdigest.js:111-121 | within the weight of the first centroid, and below 0, the quantile is its mean |
| `TDigest.QuantileLast` | frontend/platform/assets/tdigest.js:111-129 | within the weight of the last centroid, and beyond 1, the quantile is its mean |
| `TDigest.TDigest.Quantile` | frontend/platform/assets/tdigest.js:107-130 | the scan computes the quantile of the folded digest; it is absent if and only if no point was taken in, and lies between the smallest and largest value ever taken in |
| `TDigest.TDigest.Merge` | frontend/platform/assets/tdigest.js:132-137 | all points behind another digest are taken in, with its whole weight, when it has a centroid, and none otherwise; merged into itself, a digest takes in its centroids and then its staged points over and over, up to a full buffer, and doubles its weight if and only if those weigh what was staged |
| `TDigest.TDigest.SelfMergeInflates` | frontend/platform/assets/tdigest.js:132-137 | a digest with centroids that has room for as many in its buffer is never doubled by being merged into itself: it takes in more than its own weight |
| `TDigest.TDigest.AddOwn` | frontend/platform/assets/tdigest.js:136 | the walk over the staging array that adds to it adds exactly the points of `Again`: the staged ones over and over until the buffer folds, the one the fold began with met as the first centroid if it lies ahead |
| `TDigest.AgainWalks` | frontend/platform/assets/tdigest.js:136 | such a walk adds a full buffer, and up to the last points the staged ones over and over |
| `TDigest.MergeOnePoint` | frontend/platform/assets/tdigest.js:132-137 | a digest of one folded point, merged into itself, holds that point twice and a whole buffer of it besides |
| `TDigest.MergedIntoItself` | frontend/platform/assets/tdigest.js:132-137 | a digest in this state, from a new one: the point 5 was taken in once, and it weighs 52 |
| `TDigest.MergeDropsStaged` | frontend/platform/assets/tdigest.js:134 | merging a digest whose points are all staged changes nothing, and its weight is lost |
| `TDigest.StagedIsDropped` | frontend/platform/assets/tdigest.js:134 | two digests in that state, from new ones: the merged one of weight 1, the other empty |
| `Xoshiro.PreviousStep` | services/botfleet/internal/bot/rng.go:33-39 | the inverse of the state step, after it |
| `Xoshiro.StepPrevious` | services/botfleet/internal/bot/rng.go:33-39 | the inverse of the state step, before it: the step is a bijection |
| `Xoshiro.AfterInjective` | services/botfleet/internal/bot/rng.go:30-41 | two states meet after n steps if and only if they are equal |
| `Xoshiro.PureCycle` | services/botfleet/internal/bot/rng.go:30-41 | a run repeats a state if and only if it has come back to its start by the distance between the two |
| `Xoshiro.NeverZero` | services/botfleet/internal/bot/rng.go:30-41 | all zero is reached from all zero only |
| `Xoshiro.SeedNeverZero` | services/botfleet/internal/bot/rng.go:13-28 | no seed leads to the all-zero state after any number of steps |
| `Xoshiro.MixedBijective` | services/botfleet/internal/bot/rng.go:19-21 | the mixing of a seed word is a bijection |
| `Xoshiro.WordIs` | services/botfleet/internal/bot/rng.go:18-25 | the one splitmix64 state whose word is replaced by 1 is 0 |
| `Xoshiro.FirstWords` | services/botfleet/internal/bot/rng.go:13-28 | the four words mixed from seed 0 |
| `Xoshiro.ScrambledBijective` | services/botfleet/internal/bot/rng.go:32 | the scrambling of the output is a bijection |
| `Xoshiro.ScrambledSmall` | services/botfleet/internal/bot/rng.go:32 | while five times a word fits in 57 bits the output is 5760 times it |
| `Xoshiro.FirstOutputs` | services/botfleet/internal/bot/rng.go:30-41 | the first four outputs from the state 1, 2, 3, 4 |
| `Xoshiro.Generator.constructor` | services/botfleet/internal/bot/rng.go:13-28 | the array holds the splitmix64 words of the seed, a zero replaced by 1 |
| `Xoshiro.Generator.Next` | services/botfleet/internal/bot/rng.go:30-41 | the in-place updates perform exactly one state step, and the output is that of the old second word |

## Left out

- HTTP servers, JSON, channels, mutexes and timestamps: every request is one atomic step on typed values.
- Machine numbers of the engines: prices, quantities and ids are unbounded integers. The truncation of float64 prices and quantities in the Go engine, fractional JS quantities, NaN and infinite prices or quantities, and overflow of 64-bit sums are not modelled.
- Id 0 and client 0 on the Go wire, and null or undefined ones in JS, are both the absent id `None`. A JS order with the numeric id 0 is not told apart from other ids, and JS null from undefined is not either.
- Go resting orders and JS queue entries are values inside their queue, not objects of their own, since nothing else refers to them. The Go `book` struct is part of the engine class, and a level is an object.
- JS Maps and Sets are maps and sets without an insertion order: the proofs hold for any order of the keys. The array of a queue is a value written back, not an object updated in place.
- The malformed-order reply, the catch-all error reply, `reset`, `snapshot` and `stats` of the JS engine.
- `sort.SliceStable`, `sort.Search` and `Array.sort` are library calls: the first is a stable insertion sort by the comparison the oracle passes, the second the bisection written out, the third a selection of keys in order or an insertion by mean.
- The oracle's resting order carries no client. The model adds it as a ghost field, so that its book can be compared with the engine's, and nothing reads it.
- `Validation.Validate`: replays the oracle through the function that `Oracle.ReferenceBook.Apply` is proved equal to, and takes the engine's replies as a sequence, instead of calling the network.
- The two symmetric halves of the C++ book are two objects of one class, `CppSide.BookSide`, where the original spells each operation out twice. `std::set` is a set whose best element is chosen, and shared pointers are plain references without counting.
- `CppBook.Book.PlaceOrder`: says nothing of an order object that is linked already or whose links are set; and of a crossing order of volume zero that is not marked as fulfilled only that the loop goes on, see above.
- `CppBook.Book.GetOrderStatus`: relates the status to what rests only while the index finds every linked order and all of them are active.
- Unsigned wrap-around in the C++ book: volumes and lengths are natural numbers, so no subtraction goes below zero, but sums beyond 64 bits are not modelled.
- The mapping of market orders to limit orders with extreme prices in `server.cpp`, and its cancel reply: the book is compared at the level of `place_order` and `delete_order`.
- `CppAgreement.DeleteNext`: compares books only, because the original returns nothing from a deletion.
- The t-digest's `asin` and `sin` scale function is an arbitrary function from where a centroid starts to where it must end; rounding is not modelled. `toJSON`, `fromJSON`, infinite weights, a NaN quantile argument and non-finite compressions are left out.
- The t-digest's centroids are values; the original mutates the first one of a run while it grows, and nothing else holds it by then, except the array that is walked when a digest is merged into itself: there the change is carried out (`TDigest.Cut`).
- The other engines of the repository (a second C++ one, a Python one, the Liquibook adapter), the JS random generator, telemetry, gateway, store, sandbox and pages: repeats of the same list algorithm, or input and output.
