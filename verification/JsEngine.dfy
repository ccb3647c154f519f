// The JS reference engine: two Maps from price to a FIFO queue, scanned for the best
// key, an order index, a dedup set and counters, all updated in place, proved to
// perform exactly the step of JsRules whatever the iteration order of its Maps.
module JsEngine {
  import opened Flat
  import opened MatchLaws
  import opened Books
  import opened Wire
  import opened Depth
  import Ladder
  import Rules = JsRules

  class MatchingEngine {
    const selfTradePrevention: Policy
    var bids: Queues
    var asks: Queues
    var orders: map<Id, Rules.Rec>
    var seenIds: set<Id>
    var fillIdSeq: int
    var ordersProcessed: int
    var fillsTotal: int
    var lastTrade: Option<(int, int)>

    ghost function Flats(): Book
      reads this
    {
      Book(Flatten(Buy, bids), Flatten(Sell, asks))
    }

    ghost function View(): Rules.State
      reads this
    {
      Rules.State(Flats(), orders, seenIds, fillIdSeq, ordersProcessed, fillsTotal, lastTrade)
    }

    ghost predicate Valid()
      reads this
    {
      && NoneEmpty(bids) && NoneEmpty(asks) && Shape(Flats())
      && forall k | k in orders :: !orders[k].side.OtherSide?
    }

    constructor (policy: Policy)
      ensures Valid() && View() == Rules.INITIAL && selfTradePrevention == policy
    {
      selfTradePrevention := policy;
      bids, asks, orders, seenIds := map[], map[], map[], {};
      fillIdSeq, ordersProcessed, fillsTotal, lastTrade := 1, 0, 0, None;
    }

    /** Scan the keys, in whatever order they come, for the best price. */
    method BestKey(keys0: set<int>, isBids: bool) returns (best: Option<int>)
      ensures best.None? <==> keys0 == {}
      ensures best.Some? ==> IsBest(if isBids then Buy else Sell, keys0, best.value)
    {
      best := None;
      var keys := keys0;
      ghost var scanned: set<int> := {};
      while keys != {}
        invariant scanned + keys == keys0 && (best.None? <==> scanned == {})
        invariant best.Some? ==> IsBest(if isBids then Buy else Sell, scanned, best.value)
        decreases keys
      {
        assert (forall x :: x !in keys) ==> keys == {};
        var px :| px in keys;
        if best.None? || (if isBids then px > best.value else px < best.value) {
          best := Some(px);
        }
        keys, scanned := keys - {px}, scanned + {px};
      }
    }

    method StpDecision(taker: Id, maker: Id) returns (decision: Policy)
      ensures (decision == NoPolicy) <==> !Own(selfTradePrevention, taker, maker)
      ensures decision != NoPolicy ==> decision == selfTradePrevention
    {
      if selfTradePrevention == NoPolicy { return NoPolicy; }
      if taker.None? || maker.None? { return NoPolicy; }
      if taker != maker { return NoPolicy; }
      return selfTradePrevention;
    }

    /** The fill counters after the fills `done`, from the values `s` began with. */
    ghost predicate Counts(done: seq<Fill>, fills: seq<Report>, s: Rules.State)
      reads this
    {
      && fills == Number(s.fillIdSeq - 1, done) && fillIdSeq == s.fillIdSeq + |done|
      && fillsTotal == s.fillsTotal + |done| && lastTrade == Rules.LastTrade(s.lastTrade, done)
    }

    /** The counters and the index after the record `acc`, from the values `s` began with. */
    ghost predicate Tally(acc: Outcome, qty: int, stopped: bool, fills: seq<Report>, s: Rules.State)
      reads this
    {
      acc.rem == qty && acc.stopped == stopped && orders == s.orders - acc.gone && Counts(acc.fills, fills, s)
    }

    method RecordFill(fills0: seq<Report>, px: int, matched: int, id: Id, maker: Id, ghost done: seq<Fill>,
                      ghost s: Rules.State)
      returns (fills: seq<Report>)
      requires Counts(done, fills0, s)
      modifies this`fillIdSeq, this`fillsTotal, this`lastTrade
      ensures Counts(done + [Fill(px, matched, id, maker)], fills, s)
    {
      NumberOn(s.fillIdSeq - 1, done, Fill(px, matched, id, maker));
      fills := fills0 + [Report(fillIdSeq, Fill(px, matched, id, maker))];
      fillIdSeq, fillsTotal := fillIdSeq + 1, fillsTotal + 1;
      lastTrade := Some((px, matched));
    }

    /** A contact that trades: the front order of the queue against the taker. */
    method FillFront(queue0: seq<Rest>, px: int, ghost t: Taker, id: Id, qty0: int, fills0: seq<Report>,
                     ghost acc0: Outcome, ghost m: Outcome, ghost tail: seq<Order>, ghost s: Rules.State)
      returns (queue: seq<Rest>, qty: int, fills: seq<Report>, ghost acc: Outcome)
      requires id == t.id && Crosses(t, px) && queue0 != [] && qty0 > 0
        && !Own(selfTradePrevention, t.client, queue0[0].client)
      requires Resume(selfTradePrevention, t, acc0) == m && Tally(acc0, qty0, false, fills0, s)
      requires acc0.book == At(px, queue0) + tail
      modifies this`orders, this`fillIdSeq, this`fillsTotal, this`lastTrade
      ensures Resume(selfTradePrevention, t, acc) == m && Tally(acc, qty, false, fills, s)
      ensures acc.book == At(px, queue) + tail
      ensures |queue| < |queue0| || (|queue| == |queue0| && qty < qty0)
    {
      var resting := queue0[0];
      Ladder.ContactAt(selfTradePrevention, t, qty0, px, queue0, tail);
      ResumeContact(selfTradePrevention, t, acc0);
      acc := Then(acc0, Contact(selfTradePrevention, t, acc0.rem, acc0.book));
      var matched := Min(qty0, resting.qty);
      qty := qty0 - matched;
      queue := [resting.(qty := resting.qty - matched)] + queue0[1..];
      fills := RecordFill(fills0, px, matched, id, resting.id, acc0.fills, s);
      if resting.qty == matched {
        queue := queue[1..];
        orders := orders - {resting.id};
      } else {
        assert acc.gone == acc0.gone;
      }
    }

    /** A contact with the taker's own order, resolved by the policy. */
    method MeetOwn(queue0: seq<Rest>, px: int, ghost t: Taker, qty: int, fills: seq<Report>, decision: Policy,
                   ghost acc0: Outcome, ghost m: Outcome, ghost tail: seq<Order>, ghost s: Rules.State)
      returns (queue: seq<Rest>, stopped: bool, ghost acc: Outcome)
      requires Crosses(t, px) && queue0 != [] && qty > 0 && Own(selfTradePrevention, t.client, queue0[0].client)
      requires decision == selfTradePrevention
      requires Resume(selfTradePrevention, t, acc0) == m && Tally(acc0, qty, false, fills, s)
      requires acc0.book == At(px, queue0) + tail
      modifies this`orders
      ensures Resume(selfTradePrevention, t, acc) == m && Tally(acc, qty, stopped, fills, s)
      ensures acc.book == At(px, queue) + tail
      ensures |queue| < |queue0| || (|queue| == |queue0| && stopped)
    {
      Ladder.ContactAt(selfTradePrevention, t, qty, px, queue0, tail);
      ResumeContact(selfTradePrevention, t, acc0);
      acc := Then(acc0, Contact(selfTradePrevention, t, acc0.rem, acc0.book));
      assert acc.fills == acc0.fills;
      if decision == CancelTaker {
        assert acc.gone == acc0.gone;
        return queue0, true, acc;
      }
      orders := orders - {queue0[0].id};
      return queue0[1..], decision == CancelBoth, acc;
    }

    /** The inner loop of `_match` on the queue of the best price. */
    method MatchQueue(queue0: seq<Rest>, px: int, ghost t: Taker, id: Id, clientId: Id, qty0: int, fills0: seq<Report>,
                      ghost acc0: Outcome, ghost m: Outcome, ghost tail: seq<Order>, ghost s: Rules.State)
      returns (queue: seq<Rest>, qty: int, stopped: bool, fills: seq<Report>, ghost acc: Outcome)
      requires id == t.id && clientId == t.client && Crosses(t, px)
      requires Resume(selfTradePrevention, t, acc0) == m && Tally(acc0, qty0, false, fills0, s)
      requires acc0.book == At(px, queue0) + tail
      modifies this`orders, this`fillIdSeq, this`fillsTotal, this`lastTrade
      ensures Resume(selfTradePrevention, t, acc) == m && Tally(acc, qty, stopped, fills, s)
      ensures acc.book == At(px, queue) + tail && (queue == [] || qty <= 0 || stopped)
    {
      queue, qty, stopped, fills, acc := queue0, qty0, false, fills0, acc0;
      while |queue| > 0 && qty > 0 && !stopped
        invariant Resume(selfTradePrevention, t, acc) == m && Tally(acc, qty, stopped, fills, s)
        invariant acc.book == At(px, queue) + tail
        decreases |queue|, if stopped then 0 else 1, qty
      {
        var decision := StpDecision(clientId, queue[0].client);
        if decision == NoPolicy {
          queue, qty, fills, acc := FillFront(queue, px, t, id, qty, fills, acc, m, tail, s);
        } else {
          queue, stopped, acc := MeetOwn(queue, px, t, qty, fills, decision, acc, m, tail, s);
        }
      }
    }

    /** One round of the outer loop, at the best key; an emptied queue is deleted. */
    method MatchBest(opp0: Queues, side: Side, px: int, ghost t: Taker, id: Id, clientId: Id, qty0: int,
                     fills0: seq<Report>, ghost acc0: Outcome, ghost m: Outcome, ghost s: Rules.State)
      returns (opp: Queues, qty: int, stopped: bool, fills: seq<Report>, ghost acc: Outcome)
      requires NoneEmpty(opp0) && IsBest(side, opp0.Keys, px) && id == t.id && clientId == t.client && Crosses(t, px)
      requires Resume(selfTradePrevention, t, acc0) == m && Tally(acc0, qty0, false, fills0, s)
      requires acc0.book == Flatten(side, opp0)
      modifies this`orders, this`fillIdSeq, this`fillsTotal, this`lastTrade
      ensures Resume(selfTradePrevention, t, acc) == m && Tally(acc, qty, stopped, fills, s)
      ensures NoneEmpty(opp) && acc.book == Flatten(side, opp)
      ensures opp.Keys < opp0.Keys || (opp.Keys == opp0.Keys && (qty <= 0 || stopped))
    {
      FlattenBest(side, opp0, px);
      var queue;
      queue, qty, stopped, fills, acc :=
        MatchQueue(opp0[px], px, t, id, clientId, qty0, fills0, acc0, m, Flatten(side, opp0 - {px}), s);
      PutBest(side, opp0, px, queue);
      opp := Put(opp0, px, queue);
    }

    /** The outer loop of `_match` over the best keys of the opposite map. */
    method Match(side: Side, kind: Kind, price: int, qty0: int, id: Id, clientId: Id, opp0: Queues, ghost m: Outcome,
                 ghost s: Rules.State)
      returns (opp: Queues, qty: int, stopped: bool, fills: seq<Report>)
      requires NoneEmpty(opp0) && !side.OtherSide? && Counts([], [], s) && orders == s.orders
      requires m == Flat.Match(selfTradePrevention, Taker(id, clientId, side, kind.Market?, price), qty0,
        Flatten(Against(side), opp0))
      modifies this`orders, this`fillIdSeq, this`fillsTotal, this`lastTrade
      ensures NoneEmpty(opp) && Flatten(Against(side), opp) == m.book
      ensures Tally(m, qty, stopped, fills, s)
    {
      ghost var t := Taker(id, clientId, side, kind.Market?, price);
      ghost var acc := Idle(qty0, Flatten(Against(side), opp0));
      ResumeStart(selfTradePrevention, t, qty0, acc.book);
      opp, qty, stopped, fills := opp0, qty0, false, [];
      while qty > 0 && !stopped
        invariant NoneEmpty(opp) && acc.book == Flatten(Against(side), opp)
        invariant Resume(selfTradePrevention, t, acc) == m && Tally(acc, qty, stopped, fills, s)
        decreases opp.Keys, if qty > 0 && !stopped then 1 else 0
      {
        var best := BestKey(opp.Keys, side.Sell?);
        if best.None? { break; }
        BestHead(Against(side), opp, best.value);
        if kind != Market && (if side.Buy? then best.value > price else best.value < price) { break; }
        opp, qty, stopped, fills, acc :=
          MatchBest(opp, Against(side), best.value, t, id, clientId, qty, fills, acc, m, s);
      }
      ResumeEnd(selfTradePrevention, t, acc);
    }

    method FindIndex(queue: seq<Rest>, target: Id) returns (idx: int)
      ensures idx == -1 ==> forall r | r in queue :: r.id != target
      ensures idx != -1 ==>
                && 0 <= idx < |queue| && queue[idx].id == target
                && forall i | 0 <= i < idx :: queue[i].id != target
    {
      idx := 0;
      while idx < |queue|
        invariant 0 <= idx <= |queue| && forall i | 0 <= i < idx :: queue[i].id != target
      {
        if queue[idx].id == target { return; }
        idx := idx + 1;
      }
      return -1;
    }

    /** Splice the target out of the queue of its price, as `cancel` does it. */
    method SpliceForCancel(book: Queues, ghost side: Side, price: int, target: Id) returns (b: Queues)
      requires NoneEmpty(book)
      ensures NoneEmpty(b) && Flatten(side, b) == Remove(Flatten(side, book), price, target)
    {
      b := book;
      var idx := FindIndex(QueueAt(book, price), target);
      if price in book && idx >= 0 {
        SpliceFlat(side, book, price, idx);
        var queue := book[price][..idx] + book[price][idx + 1..];
        if |queue| == 0 { b := b - {price}; } else { b := b[price := queue]; }
      } else {
        RemoveNone(side, book, price, target);
      }
    }

    /** The same as `modify` does it: the emptiness check is made in any case. */
    method SpliceForModify(book: Queues, ghost side: Side, price: int, target: Id) returns (b: Queues)
      requires NoneEmpty(book)
      ensures NoneEmpty(b) && Flatten(side, b) == Remove(Flatten(side, book), price, target)
    {
      b := book;
      if price in book {
        var queue := book[price];
        var idx := FindIndex(queue, target);
        if idx >= 0 {
          SpliceFlat(side, book, price, idx);
          queue := queue[..idx] + queue[idx + 1..];
          b := b[price := queue];
          assert b - {price} == book - {price};
        } else {
          RemoveNone(side, book, price, target);
        }
        if |queue| == 0 { b := b - {price}; }
      } else {
        RemoveNone(side, book, price, target);
      }
    }

    method Cancel(q: Request) returns (r: Response)
      requires Valid()
      modifies this`bids, this`asks, this`orders
      ensures q.target in old(orders) ==> View() == Rules.Unlisted(old(View()), q.target)
      ensures q.target !in old(orders) ==> View() == old(View())
      ensures NoneEmpty(bids) && NoneEmpty(asks)
      ensures r == Response(Ack(q.id, if q.target in old(orders) then CancelledAck else CancelMiss, 0, 0, q.target), [])
    {
      if q.target !in orders { return Response(Ack(q.id, CancelMiss, 0, 0, q.target), []); }
      var rec := orders[q.target];
      if rec.side.Buy? {
        bids := SpliceForCancel(bids, Buy, rec.price, q.target);
      } else {
        asks := SpliceForCancel(asks, Sell, rec.price, q.target);
      }
      orders := orders - {q.target};
      return Response(Ack(q.id, CancelledAck, 0, 0, q.target), []);
    }

    method WouldCross(side: Side, price: int, ghost t: Taker) returns (crosses: bool)
      requires Valid() && !side.OtherSide? && t.side == side && t.px == price && !t.market
      ensures crosses == Books.WouldCross(Flats(), t)
    {
      var opp := if side.Buy? then asks else bids;
      var best := BestKey(opp.Keys, side.Sell?);
      if best.None? { return false; }
      BestHead(Against(side), opp, best.value);
      return if side.Buy? then best.value <= price else best.value >= price;
    }

    /** The keys of a map, best price first. */
    method SortKeys(d: Queues, side: Side) returns (prices: seq<int>)
      requires !side.OtherSide?
      ensures SortedKeys(side, d, prices)
    {
      prices := [];
      var keys := d.Keys;
      while keys != {}
        invariant keys <= d.Keys && forall p | p in d :: p in prices || p in keys
        invariant forall i | 0 <= i < |prices| :: prices[i] in d
        invariant forall i, j | 0 <= i < j < |prices| :: Ahead(side, prices[i], prices[j])
        invariant forall i, k | 0 <= i < |prices| && k in keys :: Ahead(side, prices[i], k)
        decreases keys
      {
        var best := BestKey(keys, side.Buy?);
        prices := prices + [best.value];
        keys := keys - {best.value};
      }
    }

    /** The walk over the sorted prices. */
    method Covers(opp: Queues, prices: seq<int>, side: Side, price: int, qty: int, ghost t: Taker,
                  ghost l: seq<Ladder.Level>)
      returns (fillable: bool)
      requires (forall i | 0 <= i < |prices| :: prices[i] in opp) && l == Rungs(opp, prices)
      requires Ladder.Proper(Against(side), l) && Ladder.PositiveLevels(l)
      requires !side.OtherSide? && qty > 0 && t.side == side && t.px == price && !t.market
      ensures fillable == (CrossQty(t, Ladder.Flatten(l)) >= qty)
    {
      assert l[0..] == l;
      var need, i := qty, 0;
      while i < |prices|
        invariant 0 <= i <= |prices| && need > 0
        invariant CrossQty(t, Ladder.Flatten(l)) == qty - need + CrossQty(t, Ladder.Flatten(l[i..]))
      {
        Ladder.CrossWalk(t, l, i);
        var px := prices[i];
        if !(if side.Buy? then px <= price else px >= price) { return false; }
        need := need - Ladder.QueueQty(opp[px]);
        if need <= 0 { return true; }
        i := i + 1;
      }
      return false;
    }

    /** Whether the crossing quantity covers `qty`: whole levels, best price first, up to
        the first one that does not cross. */
    method FokFillable(side: Side, price: int, qty: int, ghost t: Taker) returns (fillable: bool)
      requires Valid() && !side.OtherSide? && qty > 0 && t.side == side && t.px == price && !t.market
      ensures fillable == (CrossQty(t, Opposite(Flats(), side)) >= qty)
    {
      var opp := if side.Buy? then asks else bids;
      var prices := SortKeys(opp, Against(side));
      ghost var l := Rungs(opp, prices);
      RungsFlat(Against(side), opp, prices);
      Ladder.FlattenPositive(l);
      fillable := Covers(opp, prices, side, price, qty, t, l);
    }

    /** Reject malformed and repeated orders; note the id of any other. */
    method Validate(q: Request) returns (reason: Option<Reason>)
      modifies this`seenIds
      ensures reason == Rules.Invalid(old(View()), q)
      ensures seenIds == if reason.Some? then old(seenIds) else Rules.Noted(old(View()), q).seenIds
    {
      if q.kind.OtherKind? { return Some(UnknownType); }
      if q.side.OtherSide? { return Some(BadSide); }
      if q.qty <= 0 { return Some(BadQty); }
      if !q.kind.Market? && q.px <= 0 { return Some(BadPrice); }
      if q.id.Some? && q.id in seenIds { return Some(DuplicateId); }
      if q.id.Some? { seenIds := seenIds + {q.id}; }
      return None;
    }

    method PreTrade(q: Request) returns (reason: Option<Reason>)
      requires Valid() && ((q.kind.PostOnly? || q.kind.Fok?) ==> !q.side.OtherSide? && q.qty > 0)
      ensures reason == Blocked(Flats(), q)
    {
      if q.kind.PostOnly? {
        var crosses := WouldCross(q.side, q.px, TakerOf(q));
        if crosses { return Some(WouldCrossPostOnly); }
      }
      if q.kind.Fok? {
        var fillable := FokFillable(q.side, q.px, q.qty, TakerOf(q));
        if !fillable { return Some(FokUnfillable); }
      }
      return None;
    }

    /** Match against the opposite map, unless the order must not trade. */
    method Trade(q: Request, ghost m: Outcome)
      returns (qty: int, stopped: bool, fills: seq<Report>)
      requires NoneEmpty(bids) && NoneEmpty(asks) && !q.side.OtherSide?
      requires m == Trading(selfTradePrevention, Flats(), q)
      modifies this`bids, this`asks, this`orders, this`fillIdSeq, this`fillsTotal, this`lastTrade
      ensures NoneEmpty(bids) && NoneEmpty(asks) && View() == Rules.Matched(old(View()), q, m)
      ensures qty == m.rem && stopped == m.stopped && fills == Number(old(fillIdSeq) - 1, m.fills)
    {
      if q.kind.PostOnly? {
        assert orders - {} == orders;
        return q.qty, false, [];
      }
      ghost var s := View();
      if q.side.Buy? {
        asks, qty, stopped, fills := Match(q.side, q.kind, q.px, q.qty, q.id, q.client, asks, m, s);
      } else {
        bids, qty, stopped, fills := Match(q.side, q.kind, q.px, q.qty, q.id, q.client, bids, m, s);
      }
    }

    method Acknowledge(q: Request, stopped: bool, filled: int, remaining: int) returns (a: Ack)
      requires filled == q.qty - remaining && !q.kind.Cancel? && !q.kind.Modify? && !q.kind.OtherKind?
      ensures a == Rules.AckOf(q, stopped, remaining)
    {
      if stopped { return Ack(q.id, StpCancelTaker, filled, remaining, None); }
      var status;
      match q.kind {
        case Limit | PostOnly => status := if filled == 0 then Accepted else if remaining == 0 then Filled else Partial;
        case Market => status := if filled == 0 then Unfilled else if remaining == 0 then Filled else PartialUnfilled;
        case Ioc => status := if filled == 0 then CancelledIoc else if remaining == 0 then Filled
          else PartialCancelledIoc;
        case Fok => return Ack(q.id, Filled, filled, 0, None);
      }
      return Ack(q.id, status, filled, remaining, None);
    }

    /** Rest the remainder where the order type allows it, and acknowledge. */
    method Finish(q: Request, remaining: int, stopped: bool, fills: seq<Report>, ghost s: Rules.State, ghost m: Outcome)
      returns (r: Response)
      requires NoneEmpty(bids) && NoneEmpty(asks) && !q.side.OtherSide?
      requires !q.kind.Cancel? && !q.kind.Modify? && !q.kind.OtherKind?
      requires View() == Rules.Matched(s, q, m)
      requires remaining == m.rem && stopped == m.stopped && fills == Number(s.fillIdSeq - 1, m.fills)
      modifies this`bids, this`asks, this`orders
      ensures NoneEmpty(bids) && NoneEmpty(asks)
      ensures View() == Rules.Finish(s, q, m).0 && r == Rules.Finish(s, q, m).1
    {
      var filled := q.qty - remaining;
      if !stopped && (q.kind.Limit? || q.kind.PostOnly?) && remaining > 0 {
        var rec := Rest(q.id, q.client, remaining);
        if q.side.Buy? {
          PushFlat(Buy, bids, q.px, rec);
          bids := bids[q.px := QueueAt(bids, q.px) + [rec]];
        } else {
          PushFlat(Sell, asks, q.px, rec);
          asks := asks[q.px := QueueAt(asks, q.px) + [rec]];
        }
        orders := orders[q.id := Rules.Rec(q.side, q.px, remaining, q.client)];
      }
      var a := Acknowledge(q, stopped, filled, remaining);
      return Response(a, fills);
    }

    method Place(q: Request) returns (r: Response)
      requires Valid() && !q.kind.Cancel? && !q.kind.Modify?
      modifies this
      ensures Valid() && ordersProcessed == old(ordersProcessed)
      ensures View() == Rules.Place(selfTradePrevention, old(View()), q).0
        && r == Rules.Place(selfTradePrevention, old(View()), q).1
    {
      var reason := Validate(q);
      if reason.Some? { return Refuse(q, reason.value); }
      reason := PreTrade(q);
      if reason.Some? { return Refuse(q, reason.value); }
      TradingShape(selfTradePrevention, Flats(), q);
      ghost var s, m := View(), Trading(selfTradePrevention, Flats(), q);
      var qty, stopped, fills := Trade(q, m);
      r := Finish(q, qty, stopped, fills, s, m);
    }

    /** `modify`: take the target out, then submit a limit order on its side. */
    method Replace(q: Request) returns (r: Response)
      requires Valid() && q.kind.Modify? && q.target in orders
      modifies this
      ensures Valid()
      ensures var p := Rules.Place(selfTradePrevention, Rules.Counted(Rules.Unlisted(old(View()), q.target)),
                                   Rules.Replacement(q, old(orders[q.target].side)));
              View() == p.0 && r == p.1
      decreases 1
    {
      var rec := orders[q.target];
      CancelShape(Flats(), rec.side, rec.price, q.target);
      if rec.side.Buy? {
        bids := SpliceForModify(bids, Buy, rec.price, q.target);
      } else {
        asks := SpliceForModify(asks, Sell, rec.price, q.target);
      }
      orders := orders - {q.target};
      r := Submit(Request(q.id, q.client, rec.side, Limit, q.px, q.qty, None));
    }

    method Submit(q: Request) returns (r: Response)
      requires Valid()
      modifies this
      ensures Valid()
      ensures var p := Rules.Step(selfTradePrevention, old(View()), q); View() == p.0 && r == p.1
      decreases if q.kind.Modify? then 2 else 0
    {
      ghost var s := View();
      ordersProcessed := ordersProcessed + 1;
      assert View() == Rules.Counted(s);
      if q.kind.Cancel? {
        if q.target in orders { CancelShape(Flats(), orders[q.target].side, orders[q.target].price, q.target); }
        r := Cancel(q);
        return;
      }
      if q.kind.Modify? {
        if q.target !in orders { return Response(Ack(q.id, ModifyMiss, 0, 0, q.target), []); }
        r := Replace(q);
        return;
      }
      r := Place(q);
    }
  }
}
