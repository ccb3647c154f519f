// The Go sample engine: two ladders of price levels searched by bisection, an id
// index, a dedup set and a fill counter, all updated in place, proved to perform
// exactly the step of GoRules on the flat book its ladders stand for.
module GoEngine {
  import opened Flat
  import opened MatchLaws
  import opened Books
  import opened Wire
  import opened Ladder
  import Rules = GoRules

  class PriceLevel {
    const px: int
    ghost const side: Side
    var orders: seq<Rest>

    constructor (px: int, orders: seq<Rest>, ghost side: Side)
      ensures this.px == px && this.orders == orders && this.side == side
    {
      this.px, this.orders, this.side := px, orders, side;
    }
  }

  function Snapshot(l: seq<PriceLevel>): (s: seq<Level>)
    reads l
    ensures |s| == |l| && forall i | 0 <= i < |l| :: s[i] == Level(l[i].px, l[i].orders)
  {
    seq(|l|, i requires 0 <= i < |l| reads l => Level(l[i].px, l[i].orders))
  }

  /** A proper ladder of levels that belong to this side. */
  ghost predicate LadderOf(side: Side, l: seq<PriceLevel>)
    reads l
  {
    Proper(side, Snapshot(l)) && forall i | 0 <= i < |l| :: l[i].side == side
  }

  /** The side that rests where an order of side `side` rests. */
  function Facing(side: Side): Side { if side.Buy? then Buy else Sell }

  /** Levels of the two sides are different objects. */
  lemma {:induction false} SidesApart(bids: seq<PriceLevel>, asks: seq<PriceLevel>)
    requires forall i | 0 <= i < |bids| :: bids[i].side == Buy
    requires forall i | 0 <= i < |asks| :: asks[i].side == Sell
    ensures forall k | 0 <= k < |bids| :: bids[k] !in asks
    ensures forall k | 0 <= k < |asks| :: asks[k] !in bids
  {}

  ghost predicate Among(r: seq<PriceLevel>, l: seq<PriceLevel>) {
    forall i | 0 <= i < |r| :: r[i] in l
  }

  /** The part of the state the matching loop works on besides the level itself. */
  ghost predicate Tally(acc: Outcome, remaining: int, stopped: bool, fills: seq<Report>, last: int) {
    acc.rem == remaining && acc.stopped == stopped && fills == Number(last, acc.fills)
  }

  class Engine {
    const policy: Policy
    var bids: seq<PriceLevel>
    var asks: seq<PriceLevel>
    var idx: map<Id, Rules.Loc>
    var seenIds: set<(Id, Id)>
    var fillIdSeq: int

    /** The level objects of both ladders. */
    ghost function Levels(): set<PriceLevel>
      reads this
    {
      (set l | l in bids) + (set l | l in asks)
    }

    ghost function Flats(): Book
      reads this, Levels()
    {
      Book(Flatten(Snapshot(bids)), Flatten(Snapshot(asks)))
    }

    ghost function View(): Rules.State
      reads this, Levels()
    {
      Rules.State(Flats(), idx, seenIds, fillIdSeq)
    }

    /** A proper ladder on each side. */
    ghost predicate Sound()
      reads this, Levels()
    {
      LadderOf(Buy, bids) && LadderOf(Sell, asks)
    }

    ghost predicate Valid()
      reads this, Levels()
    {
      Sound() && Shape(Flats())
    }

    constructor (policy: Policy)
      ensures Valid() && View() == Rules.INITIAL && this.policy == policy && Levels() == {}
    {
      this.policy := policy;
      bids, asks, idx, seenIds, fillIdSeq := [], [], map[], {}, 0;
    }

    /** The first level not strictly better than `px`, by bisection. */
    method Search(ladder: seq<PriceLevel>, side: Side, px: int) returns (i: nat)
      requires LadderOf(side, ladder)
      ensures i <= |ladder|
      ensures forall k | 0 <= k < i :: Ahead(side, ladder[k].px, px)
      ensures forall k | i <= k < |ladder| :: !Ahead(side, ladder[k].px, px)
    {
      ghost var s := Snapshot(ladder);
      i := 0;
      var j := |ladder|;
      while i < j
        invariant 0 <= i <= j <= |ladder|
        invariant forall k | 0 <= k < i :: Ahead(side, s[k].px, px)
        invariant forall k | j <= k < |ladder| :: !Ahead(side, s[k].px, px)
      {
        var h := (i + j) / 2;
        if Ahead(side, ladder[h].px, px) {
          assert forall k | 0 <= k < h :: Ahead(side, s[k].px, s[h].px);
          i := h + 1;
        } else {
          assert forall k | h < k < |ladder| :: Ahead(side, s[h].px, s[k].px);
          j := h;
        }
      }
      assert forall k | 0 <= k < |ladder| :: s[k].px == ladder[k].px;
    }

    method Open(ladder: seq<PriceLevel>, i: nat, side: Side, px: int, ord: Rest) returns (r: seq<PriceLevel>)
      requires i <= |ladder| && forall k | 0 <= k < |ladder| :: ladder[k].side == side
      ensures Snapshot(r) == Snapshot(ladder)[..i] + [Level(px, [ord])] + Snapshot(ladder)[i..]
      ensures forall k | 0 <= k < |r| :: r[k].side == side
      ensures forall i | 0 <= i < |r| :: r[i] in ladder || fresh(r[i])
    {
      var lvl := new PriceLevel(px, [ord], side);
      r := ladder[..i] + [lvl] + ladder[i..];
    }

    method Join(ladder: seq<PriceLevel>, i: nat, ord: Rest)
      requires i < |ladder| && forall k | 0 <= k < |ladder| && k != i :: ladder[k].px != ladder[i].px
      modifies ladder[i]
      ensures Snapshot(ladder) == old(Snapshot(ladder))[i := Level(ladder[i].px, old(ladder[i].orders) + [ord])]
    {
      ladder[i].orders := ladder[i].orders + [ord];
    }

    /** Append to the level at this price, or open the level in place. */
    method InsertLevel(ladder: seq<PriceLevel>, side: Side, px: int, ord: Rest) returns (r: seq<PriceLevel>)
      requires LadderOf(side, ladder)
      modifies ladder
      ensures LadderOf(side, r)
      ensures forall i | 0 <= i < |r| :: r[i] in ladder || fresh(r[i])
      ensures Flatten(Snapshot(r)) == Insert(side, old(Flatten(Snapshot(ladder))), Priced(px, ord))
    {
      ghost var s := Snapshot(ladder);
      var i := Search(ladder, side, px);
      assert forall k | 0 <= k < |ladder| :: s[k].px == ladder[k].px;
      InsertedFlat(side, s, i, px, ord);
      InsertedProper(side, s, i, px, ord);
      if i < |ladder| && ladder[i].px == px {
        Join(ladder, i, ord);
        r := ladder;
      } else {
        r := Open(ladder, i, side, px, ord);
      }
    }

    method InsertResting(side: Side, px: int, ord: Rest)
      requires Sound()
      modifies this`bids, this`asks, Levels()
      ensures Sound() && Flats() == Rested(old(Flats()), side, Priced(px, ord))
      ensures forall l | l in Levels() :: l in old(Levels()) || fresh(l)
    {
      if side.Buy? {
        assert forall i | 0 <= i < |asks| :: asks[i] !in bids;
        bids := InsertLevel(bids, Buy, px, ord);
        assert Snapshot(asks) == old(Snapshot(asks));
      } else {
        assert forall i | 0 <= i < |bids| :: bids[i] !in asks;
        asks := InsertLevel(asks, Sell, px, ord);
        assert Snapshot(bids) == old(Snapshot(bids));
      }
    }

    /** Walk the levels at `px`, and their queues, for the order `id`. */
    method FindOrder(levels: seq<PriceLevel>, px: int, id: Id) returns (found: bool, i: nat, j: nat)
      ensures found ==> && i < |levels| && levels[i].px == px && j < |levels[i].orders| && levels[i].orders[j].id == id
                        && forall k | 0 <= k < j :: levels[i].orders[k].id != id
      ensures !found ==> forall a, b | 0 <= a < |levels| && 0 <= b < |levels[a].orders| ::
                           levels[a].px != px || levels[a].orders[b].id != id
    {
      found, i, j := false, 0, 0;
      while i < |levels|
        invariant i <= |levels|
        invariant forall a, b | 0 <= a < i && 0 <= b < |levels[a].orders| ::
                    levels[a].px != px || levels[a].orders[b].id != id
      {
        if levels[i].px == px {
          j := 0;
          while j < |levels[i].orders|
            invariant j <= |levels[i].orders|
            invariant forall k | 0 <= k < j :: levels[i].orders[k].id != id
          {
            if levels[i].orders[j].id == id { return true, i, j; }
            j := j + 1;
          }
        }
        i := i + 1;
      }
    }

    /** Splice order `j` out of level `i`, and the level out of the ladder if that empties it. */
    method Splice(ladder: seq<PriceLevel>, i: nat, j: nat) returns (r: seq<PriceLevel>)
      requires i < |ladder| && j < |ladder[i].orders|
      requires forall k | 0 <= k < |ladder| && k != i :: ladder[k].px != ladder[i].px
      modifies ladder[i]
      ensures Snapshot(r) == Removed(old(Snapshot(ladder)), i, j)
      ensures forall k | 0 <= k < |r| :: r[k] in ladder
    {
      var lvl := ladder[i];
      lvl.orders := lvl.orders[..j] + lvl.orders[j + 1..];
      r := if lvl.orders == [] then ladder[..i] + ladder[i + 1..] else ladder;
    }

    method RemoveAt(ladder: seq<PriceLevel>, side: Side, i: nat, j: nat) returns (r: seq<PriceLevel>)
      requires LadderOf(side, ladder) && i < |ladder| && j < |ladder[i].orders|
      requires forall k | 0 <= k < j :: ladder[i].orders[k].id != ladder[i].orders[j].id
      modifies ladder
      ensures LadderOf(side, r) && forall l | l in r :: l in ladder
      ensures Flatten(Snapshot(r)) == old(Remove(Flatten(Snapshot(ladder)), ladder[i].px, ladder[i].orders[j].id))
    {
      ghost var s := Snapshot(ladder);
      RemovedFlat(side, s, i, j);
      RemovedProper(side, s, i, j);
      assert forall k | 0 <= k < |ladder| && k != i :: s[k].px != s[i].px;
      r := Splice(ladder, i, j);
    }

    method RemoveFrom(ladder: seq<PriceLevel>, side: Side, px: int, id: Id) returns (r: seq<PriceLevel>, found: bool)
      requires LadderOf(side, ladder)
      modifies ladder
      ensures LadderOf(side, r) && forall l | l in r :: l in ladder
      ensures Flatten(Snapshot(r)) == old(Remove(Flatten(Snapshot(ladder)), px, id))
      ensures found == old(Find(Flatten(Snapshot(ladder)), px, id) < |Flatten(Snapshot(ladder))|)
    {
      var i, j;
      found, i, j := FindOrder(ladder, px, id);
      if found {
        FoundFlat(side, Snapshot(ladder), i, j);
        r := RemoveAt(ladder, side, i, j);
      } else {
        RemoveMissing(Snapshot(ladder), px, id);
        r := ladder;
      }
    }

    method RemoveOrder(side: Side, px: int, id: Id) returns (found: bool)
      requires Sound()
      modifies this`bids, this`asks, Levels()
      ensures Sound() && Flats() == Cancelled(old(Flats()), side, px, id)
      ensures Levels() <= old(Levels())
      ensures found == old(var l := if side.Sell? then Flats().asks else Flats().bids; Find(l, px, id) < |l|)
    {
      if side.Sell? {
        SidesApart(bids, asks);
        asks, found := RemoveFrom(asks, Sell, px, id);
        assert Snapshot(bids) == old(Snapshot(bids));
      } else {
        SidesApart(bids, asks);
        bids, found := RemoveFrom(bids, Buy, px, id);
        assert Snapshot(asks) == old(Snapshot(asks));
      }
    }

    method StpDecision(taker: Id, maker: Id) returns (decision: Policy)
      ensures (decision == NoPolicy) <==> !Own(policy, taker, maker)
      ensures decision != NoPolicy ==> decision == policy
    {
      if policy == NoPolicy || taker.None? || maker.None? || taker != maker {
        return NoPolicy;
      }
      return policy;
    }

    /** A contact that trades: the front order of the level against the taker. */
    method FillFront(level: PriceLevel, ghost t: Taker, takerId: Id, remaining: int, fills0: seq<Report>,
                     ghost acc0: Outcome, ghost tail: seq<Order>, ghost last: int, ghost idx0: map<Id, Rules.Loc>)
      returns (matched: int, fills: seq<Report>, ghost acc: Outcome)
      requires takerId == t.id && Crosses(t, level.px) && remaining > 0
      requires level.orders != [] && !Own(policy, t.client, level.orders[0].client)
      requires Tally(acc0, remaining, false, fills0, last) && fillIdSeq == last + |fills0| && idx == idx0 - acc0.gone
      requires acc0.book == At(level.px, level.orders) + tail
      modifies level`orders, this`idx, this`fillIdSeq
      ensures Resume(policy, t, acc) == Resume(policy, t, acc0)
      ensures Tally(acc, remaining - matched, false, fills, last) && fillIdSeq == last + |fills|
        && idx == idx0 - acc.gone
      ensures acc.book == At(level.px, level.orders) + tail
      ensures |level.orders| < old(|level.orders|) || (|level.orders| == old(|level.orders|) && matched == remaining)
    {
      var rest := level.orders[0];
      ContactAt(policy, t, remaining, level.px, level.orders, tail);
      ResumeContact(policy, t, acc0);
      acc := Then(acc0, Contact(policy, t, acc0.rem, acc0.book));
      matched := remaining;
      if rest.qty < matched { matched := rest.qty; }
      level.orders := [rest.(qty := rest.qty - matched)] + level.orders[1..];
      fillIdSeq := fillIdSeq + 1;
      NumberOn(last, acc0.fills, Fill(level.px, matched, takerId, rest.id));
      fills := fills0 + [Report(fillIdSeq, Fill(level.px, matched, takerId, rest.id))];
      if rest.qty == matched {
        level.orders := level.orders[1..];
        idx := idx - {rest.id};
      } else {
        assert acc.gone == acc0.gone;
      }
    }

    /** The inner loop of `match`: the taker meets the orders of one level. The ghost
        record `acc` follows what has been done since matching began. */
    method MatchLevel(level: PriceLevel, ghost t: Taker, takerId: Id, takerClient: Id, remaining0: int, filled0: int,
                      fills0: seq<Report>, ghost acc0: Outcome, ghost tail: seq<Order>, ghost last: int,
                      ghost idx0: map<Id, Rules.Loc>)
      returns (remaining: int, filled: int, stopped: bool, fills: seq<Report>, ghost acc: Outcome)
      requires takerId == t.id && takerClient == t.client && Crosses(t, level.px)
      requires Tally(acc0, remaining0, false, fills0, last) && fillIdSeq == last + |fills0| && idx == idx0 - acc0.gone
      requires acc0.book == At(level.px, level.orders) + tail
      modifies level`orders, this`idx, this`fillIdSeq
      ensures Resume(policy, t, acc) == Resume(policy, t, acc0)
      ensures Tally(acc, remaining, stopped, fills, last) && fillIdSeq == last + |fills| && idx == idx0 - acc.gone
      ensures acc.book == At(level.px, level.orders) + tail && filled == filled0 + remaining0 - remaining
      ensures level.orders == [] || remaining <= 0 || stopped
    {
      remaining, filled, stopped, fills, acc := remaining0, filled0, false, fills0, acc0;
      while |level.orders| > 0 && remaining > 0 && !stopped
        invariant Resume(policy, t, acc) == Resume(policy, t, acc0)
        invariant Tally(acc, remaining, stopped, fills, last) && fillIdSeq == last + |fills| && idx == idx0 - acc.gone
        invariant acc.book == At(level.px, level.orders) + tail && filled == filled0 + remaining0 - remaining
        decreases |level.orders|, if stopped then 0 else 1, remaining
      {
        var rest := level.orders[0];
        var decision := StpDecision(takerClient, rest.client);
        if decision != NoPolicy {
          ContactAt(policy, t, remaining, level.px, level.orders, tail);
          ResumeContact(policy, t, acc);
          ghost var done, c := acc, Contact(policy, t, acc.rem, acc.book);
          acc := Then(done, c);
          if decision == CancelTaker {
            stopped := true;
            break;
          }
          assert c.fills == [] && c.gone == {rest.id};
          level.orders := level.orders[1..];
          idx := idx - {rest.id};
          stopped := decision == CancelBoth;
          continue;
        }
        var matched;
        matched, fills, acc := FillFront(level, t, takerId, remaining, fills, acc, tail, last, idx0);
        remaining, filled := remaining - matched, filled + matched;
      }
    }

    /** One round of the outer loop: the best level, dropped if it empties. */
    method MatchTop(ladder: seq<PriceLevel>, side: Side, ghost t: Taker, takerId: Id, takerClient: Id, remaining0: int,
                    filled0: int, fills0: seq<Report>, ghost acc0: Outcome, ghost last: int,
                    ghost idx0: map<Id, Rules.Loc>)
      returns (r: seq<PriceLevel>, remaining: int, filled: int, stopped: bool, fills: seq<Report>, ghost acc: Outcome)
      requires LadderOf(side, ladder) && ladder != [] && remaining0 > 0
      requires takerId == t.id && takerClient == t.client && Crosses(t, ladder[0].px)
      requires Tally(acc0, remaining0, false, fills0, last) && fillIdSeq == last + |fills0| && idx == idx0 - acc0.gone
      requires acc0.book == Flatten(Snapshot(ladder))
      modifies ladder, this`idx, this`fillIdSeq
      ensures LadderOf(side, r) && (r == ladder || r == ladder[1..])
      ensures Resume(policy, t, acc) == Resume(policy, t, acc0)
      ensures Tally(acc, remaining, stopped, fills, last) && fillIdSeq == last + |fills| && idx == idx0 - acc.gone
      ensures acc.book == Flatten(Snapshot(r)) && filled == filled0 + remaining0 - remaining
      ensures |r| < |ladder| || (|r| == |ladder| && (remaining <= 0 || stopped))
    {
      ghost var s := Snapshot(ladder);
      var level := ladder[0];
      assert forall k | 0 < k < |ladder| :: ladder[k] != level by {
        assert forall k | 0 < k < |ladder| :: s[k].px != s[0].px;
      }
      remaining, filled, stopped, fills, acc :=
        MatchLevel(level, t, takerId, takerClient, remaining0, filled0, fills0, acc0, Flatten(s[1..]), last, idx0);
      assert Snapshot(ladder) == s[0 := Level(level.px, level.orders)];
      assert Snapshot(ladder[1..]) == s[1..];
      if level.orders == [] {
        r := ladder[1..];
        assert At(level.px, []) + Flatten(s[1..]) == Flatten(s[1..]);
      } else {
        r := ladder;
        assert Snapshot(r)[1..] == s[1..];
      }
    }

    /** Whether there is a best level and it crosses. */
    method TopCrosses(ladder: seq<PriceLevel>, side: Side, kind: Kind, px: int, ghost t: Taker) returns (crosses: bool)
      requires LadderOf(Against(side), ladder) && t.side == side && t.market == kind.Market? && t.px == px
      ensures crosses <==> ladder != [] && Crosses(t, ladder[0].px)
      ensures forall n | n > 0 :: crosses <==> Active(t, n, Flatten(Snapshot(ladder)))
    {
      if |ladder| == 0 { return false; }
      FlattenFront(Snapshot(ladder));
      if kind != Market {
        if side.Buy? && ladder[0].px > px { return false; }
        if side.Sell? && ladder[0].px < px { return false; }
      }
      return true;
    }

    /** The outer loop of `match` on the opposite ladder. */
    method MatchLadder(ladder: seq<PriceLevel>, side: Side, kind: Kind, px: int, qty: int, takerId: Id, takerClient: Id)
      returns (r: seq<PriceLevel>, filled: int, remaining: int, stopped: bool, fills: seq<Report>, ghost m: Outcome)
      requires LadderOf(Against(side), ladder)
      modifies ladder, this`idx, this`fillIdSeq
      ensures LadderOf(Against(side), r) && Among(r, ladder)
      ensures m == Match(policy, Taker(takerId, takerClient, side, kind.Market?, px), qty,
        old(Flatten(Snapshot(ladder))))
      ensures remaining == m.rem && filled == qty - m.rem && stopped == m.stopped
      ensures fills == Number(old(fillIdSeq), m.fills) && fillIdSeq == old(fillIdSeq) + |m.fills|
      ensures Flatten(Snapshot(r)) == m.book && idx == old(idx) - m.gone
    {
      ghost var t := Taker(takerId, takerClient, side, kind.Market?, px);
      ghost var acc, last, idx0 := Idle(qty, Flatten(Snapshot(ladder))), fillIdSeq, idx;
      ResumeStart(policy, t, qty, acc.book);
      m := Match(policy, t, qty, acc.book);
      r, remaining, filled, stopped, fills := ladder, qty, 0, false, [];
      while remaining > 0 && !stopped
        invariant LadderOf(Against(side), r) && Among(r, ladder)
        invariant Resume(policy, t, acc) == m
        invariant Tally(acc, remaining, stopped, fills, last) && fillIdSeq == last + |fills| && idx == idx0 - acc.gone
        invariant acc.book == Flatten(Snapshot(r)) && filled == qty - remaining
        decreases |r|, if remaining > 0 && !stopped then 1 else 0
      {
        var crosses := TopCrosses(r, side, kind, px, t);
        if !crosses { break; }
        r, remaining, filled, stopped, fills, acc :=
          MatchTop(r, Against(side), t, takerId, takerClient, remaining, filled, fills, acc, last, idx0);
      }
      ResumeEnd(policy, t, acc);
    }

    /** Matching on one ladder, to the outcome `m`, leaves the other side's ladder as it is. */
    method MatchBeside(ladder: seq<PriceLevel>, ghost other: seq<PriceLevel>, side: Side, kind: Kind, px: int, qty: int,
                       takerId: Id, takerClient: Id, ghost m: Outcome)
      returns (r: seq<PriceLevel>, filled: int, remaining: int, stopped: bool, fills: seq<Report>)
      requires LadderOf(Against(side), ladder) && LadderOf(Facing(side), other)
      requires m == Match(policy, Taker(takerId, takerClient, side, kind.Market?, px), qty, Flatten(Snapshot(ladder)))
      modifies ladder, this`idx, this`fillIdSeq
      ensures LadderOf(Against(side), r) && LadderOf(Facing(side), other) && Among(r, ladder)
      ensures remaining == m.rem && filled == qty - m.rem && stopped == m.stopped
      ensures fills == Number(old(fillIdSeq), m.fills) && fillIdSeq == old(fillIdSeq) + |m.fills|
      ensures Flatten(Snapshot(r)) == m.book && Snapshot(other) == old(Snapshot(other)) && idx == old(idx) - m.gone
    {
      assert forall i | 0 <= i < |other| :: other[i] !in ladder;
      ghost var m';
      r, filled, remaining, stopped, fills, m' := MatchLadder(ladder, side, kind, px, qty, takerId, takerClient);
    }

    method SetAsks(r: seq<PriceLevel>)
      requires LadderOf(Buy, bids) && LadderOf(Sell, r)
      modifies this`asks
      ensures Sound() && Flats() == Book(Flatten(old(Snapshot(bids))), Flatten(old(Snapshot(r)))) && asks == r
    {
      ghost var b, a := Snapshot(bids), Snapshot(r);
      asks := r;
      assert Snapshot(bids) == b && Snapshot(asks) == a;
    }

    method SetBids(r: seq<PriceLevel>)
      requires LadderOf(Buy, r) && LadderOf(Sell, asks)
      modifies this`bids
      ensures Sound() && Flats() == Book(Flatten(old(Snapshot(r))), Flatten(old(Snapshot(asks)))) && bids == r
    {
      ghost var b, a := Snapshot(r), Snapshot(asks);
      bids := r;
      assert Snapshot(bids) == b && Snapshot(asks) == a;
    }

    method MatchOrder(side: Side, kind: Kind, px: int, qty: int, takerId: Id, takerClient: Id, ghost m: Outcome)
      returns (filled: int, remaining: int, stopped: bool, fills: seq<Report>)
      requires Sound()
      requires m == Match(policy, Taker(takerId, takerClient, side, kind.Market?, px), qty, Opposite(Flats(), side))
      modifies this`bids, this`asks, this`idx, this`fillIdSeq, Levels()
      ensures Sound() && Levels() <= old(Levels())
      ensures remaining == m.rem && filled == qty - m.rem && stopped == m.stopped
      ensures fills == Number(old(fillIdSeq), m.fills) && fillIdSeq == old(fillIdSeq) + |m.fills|
      ensures Flats() == WithOpposite(old(Flats()), side, m.book) && idx == old(idx) - m.gone
    {
      var r;
      if side.Buy? {
        r, filled, remaining, stopped, fills := MatchBeside(asks, bids, side, kind, px, qty, takerId, takerClient, m);
        SetAsks(r);
      } else {
        r, filled, remaining, stopped, fills := MatchBeside(bids, asks, side, kind, px, qty, takerId, takerClient, m);
        SetBids(r);
      }
    }

    method WouldCross(side: Side, px: int, ghost t: Taker) returns (crosses: bool)
      requires Sound() && !side.OtherSide? && t.side == side && t.px == px && !t.market
      ensures crosses == Books.WouldCross(Flats(), t)
    {
      if side.Buy? {
        if asks != [] { FlattenFront(Snapshot(asks)); }
        return asks != [] && asks[0].px <= px;
      }
      if bids != [] { FlattenFront(Snapshot(bids)); }
      return bids != [] && bids[0].px >= px;
    }

    /** The inner walk of the fill-or-kill check, over one queue. */
    method QueueCovers(orders: seq<Rest>, need0: int) returns (need: int, enough: bool)
      requires need0 > 0 && forall k | 0 <= k < |orders| :: orders[k].qty > 0
      ensures enough == (QueueQty(orders) >= need0)
      ensures !enough ==> need == need0 - QueueQty(orders)
    {
      need := need0;
      var j := 0;
      assert orders[0..] == orders;
      while j < |orders|
        invariant j <= |orders| && need > 0
        invariant QueueQty(orders) == need0 - need + QueueQty(orders[j..])
      {
        need := need - orders[j].qty;
        assert orders[j..][1..] == orders[j + 1..];
        QueueNonneg(orders[j + 1..]);
        if need <= 0 { return need, true; }
        j := j + 1;
      }
      return need, false;
    }

    /** The walk over the levels: it stops at the first one that does not cross and at the
        first order that is enough. */
    method Covers(levels: seq<PriceLevel>, side: Side, px: int, qty: int, ghost t: Taker, ghost s: seq<Level>)
      returns (fillable: bool)
      requires s == Snapshot(levels) && Proper(Against(side), s) && PositiveLevels(s)
      requires !side.OtherSide? && qty > 0 && t.side == side && t.px == px && !t.market
      ensures fillable == (CrossQty(t, Flatten(s)) >= qty)
    {
      var need, enough := qty, false;
      assert s[0..] == s;
      var i := 0;
      while i < |levels|
        invariant i <= |levels| && need > 0
        invariant CrossQty(t, Flatten(s)) == qty - need + CrossQty(t, Flatten(s[i..]))
      {
        CrossWalk(t, s, i);
        if (side.Buy? && levels[i].px > px) || (side.Sell? && levels[i].px < px) { return false; }
        need, enough := QueueCovers(levels[i].orders, need);
        if enough { return true; }
        i := i + 1;
      }
      return false;
    }

    /** Whether the crossing quantity covers `qty`, without touching the book. */
    method FokFillable(side: Side, px: int, qty: int, ghost t: Taker) returns (fillable: bool)
      requires Valid() && !side.OtherSide? && qty > 0 && t.side == side && t.px == px && !t.market
      ensures fillable == (CrossQty(t, Opposite(Flats(), side)) >= qty)
    {
      var levels := if side.Sell? then bids else asks;
      FlattenPositive(Snapshot(levels));
      fillable := Covers(levels, side, px, qty, t, Snapshot(levels));
    }

    /** Reject malformed and repeated requests; note the id of any other. */
    method Validate(q: Request) returns (reason: Option<Reason>)
      requires !q.kind.Cancel?
      modifies this`seenIds
      ensures reason == Rules.Invalid(old(View()), q)
      ensures seenIds == if reason.Some? then old(seenIds) else Rules.Noted(old(View()), q).seen
    {
      if q.kind.Modify? { return None; }
      if q.side.OtherSide? { return Some(BadSide); }
      if q.qty <= 0 { return Some(BadQty); }
      if !q.kind.Market? && q.px <= 0 { return Some(BadPrice); }
      if q.id.Some? && (q.client, q.id) in seenIds { return Some(DuplicateId); }
      if q.id.Some? { seenIds := seenIds + {(q.client, q.id)}; }
      return None;
    }

    method CancelOrder(q: Request) returns (r: Response)
      requires Sound()
      modifies this`bids, this`asks, this`idx, Levels()
      ensures Sound() && View() == Rules.CancelStep(old(View()), q).0 && r == Rules.CancelStep(old(View()), q).1
      ensures Levels() <= old(Levels())
    {
      if q.target !in idx { return Response(Ack(q.id, CancelMiss, 0, 0, q.target), []); }
      var loc := idx[q.target];
      var found := RemoveOrder(loc.side, loc.px, q.target);
      idx := idx - {q.target};
      return Response(Ack(q.id, CancelledAck, 0, 0, q.target), []);
    }

    /** The pre-trade checks of post-only and fill-or-kill orders. */
    method PreTrade(q: Request) returns (reason: Option<Reason>)
      requires Valid() && ((q.kind.PostOnly? || q.kind.Fok?) ==> !q.side.OtherSide? && q.qty > 0)
      ensures reason == Blocked(Flats(), q)
    {
      if q.kind.PostOnly? {
        var crosses := WouldCross(q.side, q.px, TakerOf(q));
        if crosses { return Some(WouldCrossPostOnly); }
      }
      if q.kind.Fok? {
        var fillable := FokFillable(q.side, q.px, q.qty, TakerOf(q));
        if !fillable { return Some(FokUnfillable); }
      }
      return None;
    }

    method Acknowledge(q: Request, stopped: bool, filled: int, remaining: int) returns (a: Ack)
      requires filled == q.qty - remaining && !q.kind.Cancel?
      ensures a == Rules.AckOf(q, stopped, remaining)
    {
      var status;
      match q.kind {
        case Limit | PostOnly =>
          status := Accepted;
          if filled > 0 && remaining > 0 { status := Partial; }
          else if remaining == 0 && filled > 0 { status := Filled; }
          if stopped { status := StpCancelTaker; }
        case Market =>
          status := Unfilled;
          if remaining == 0 && filled > 0 { status := Filled; }
          else if remaining > 0 && filled > 0 { status := PartialUnfilled; }
        case Ioc =>
          status := CancelledIoc;
          if remaining == 0 && filled > 0 { status := Filled; }
          else if remaining > 0 && filled > 0 { status := PartialCancelledIoc; }
        case Fok => return Ack(q.id, Filled, filled, 0, None);
        case _ => return Ack(q.id, Rejected(UnknownType), 0, 0, None);
      }
      return Ack(q.id, status, filled, remaining, None);
    }

    /** Rest the remainder where the order type allows it. */
    method RestRemainder(q: Request, remaining: int, stopped: bool, ghost b: Book, ghost m: Outcome)
      requires Sound() && Flats() == WithOpposite(b, q.side, m.book) && remaining == m.rem && stopped == m.stopped
      modifies this`bids, this`asks, this`idx, Levels()
      ensures Sound() && Flats() == Settle(b, TakerOf(q), m, MayRest(q))
      ensures forall l | l in Levels() :: l in old(Levels()) || fresh(l)
      ensures idx == if MayRest(q) && !m.stopped && m.rem > 0
                     then old(idx)[q.id := Rules.Loc(q.side, q.px, q.client)] else old(idx)
    {
      if (q.kind.Limit? || q.kind.PostOnly?) && !stopped && remaining > 0 {
        InsertResting(q.side, q.px, Rest(q.id, q.client, remaining));
        idx := idx[q.id := Rules.Loc(q.side, q.px, q.client)];
      }
    }

    method Finish(q: Request, filled: int, remaining: int, stopped: bool, fills: seq<Report>, ghost s: Rules.State,
                  ghost m: Outcome)
      returns (r: Response)
      requires Sound() && !q.kind.Cancel?
      requires View() == Rules.State(WithOpposite(s.book, q.side, m.book), s.idx - m.gone, s.seen,
        s.fillSeq + |m.fills|)
      requires remaining == m.rem && filled == q.qty - m.rem && stopped == m.stopped
        && fills == Number(s.fillSeq, m.fills)
      modifies this`bids, this`asks, this`idx, Levels()
      ensures Sound() && View() == Rules.Finish(s, q, m).0 && r == Rules.Finish(s, q, m).1
      ensures forall l | l in Levels() :: l in old(Levels()) || fresh(l)
    {
      RestRemainder(q, remaining, stopped, s.book, m);
      var a := Acknowledge(q, stopped, filled, remaining);
      return Response(a, fills);
    }

    method Execute(q: Request) returns (r: Response)
      requires Sound() && !q.kind.Cancel?
      modifies this`bids, this`asks, this`idx, this`fillIdSeq, Levels()
      ensures Sound() && View() == Rules.Execute(policy, old(View()), q).0
        && r == Rules.Execute(policy, old(View()), q).1
      ensures forall l | l in Levels() :: l in old(Levels()) || fresh(l)
    {
      var remaining, filled, stopped, fills := q.qty, 0, false, [];
      ghost var s := View();
      ghost var m := Trading(policy, s.book, q);
      if !q.kind.PostOnly? {
        filled, remaining, stopped, fills := MatchOrder(q.side, q.kind, q.px, q.qty, q.id, q.client, m);
      }
      r := Finish(q, filled, remaining, stopped, fills, s, m);
    }

    /** The part after validation: the pre-trade checks, then matching and resting. */
    method Trade(q: Request) returns (r: Response)
      requires Valid() && !q.kind.Cancel?
      requires (q.kind.PostOnly? || q.kind.Fok?) ==> !q.side.OtherSide? && q.qty > 0
      modifies this`bids, this`asks, this`idx, this`fillIdSeq, Levels()
      ensures var s, b := old(View()), Blocked(old(Flats()), q);
              var p := if b.Some? then (s, Refuse(q, b.value)) else Rules.Execute(policy, s, q);
              View() == p.0 && r == p.1
      ensures Sound()
      ensures forall l | l in Levels() :: l in old(Levels()) || fresh(l)
    {
      var reason := PreTrade(q);
      if reason.Some? { return Refuse(q, reason.value); }
      r := Execute(q);
    }

    method Submit(q: Request) returns (r: Response)
      requires Valid()
      modifies this, Levels()
      ensures Valid() && View() == Rules.Step(policy, old(View()), q).0 && r == Rules.Step(policy, old(View()), q).1
      ensures forall l | l in Levels() :: l in old(Levels()) || fresh(l)
    {
      Rules.StepShape(policy, View(), q);
      if q.kind.Cancel? {
        r := CancelOrder(q);
        return;
      }
      var reason := Validate(q);
      if reason.Some? { return Refuse(q, reason.value); }
      r := Trade(q);
    }
  }
}
