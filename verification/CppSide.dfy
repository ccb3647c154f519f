// One half of the C++ order book: an ordered set of prices, a map from price to its
// limit and a cached best price.
module CppSide {
  import opened Flat
  import opened Books
  import opened Depth
  import opened CppLimit

  function TakerOf(o: OrderNode): Taker {
    Taker(Some(o.id), Some(o.agentId), o.side, false, o.price)
  }

  /** A well-formed limit for this price and side. */
  ghost predicate LimitOk(l: Limit, p: int, side: Side)
    reads l, l.nodes
  {
    p > 0 && l.price == p && l.side == side && l.Chain() && l.Live()
  }

  /** Every limit is well formed under its key, its orders among `linked`. */
  ghost predicate AllOk(limits: map<int, Limit>, side: Side, linked: set<OrderNode>)
    reads limits.Values, linked
  {
    && (forall p | p in limits :: limits[p].nodes <= linked)
    && (forall p {:trigger LimitOk(limits[p], p, side)} | p in limits :: LimitOk(limits[p], p, side))
  }

  ghost function QueuesOf(limits: map<int, Limit>): Queues
    reads limits.Values
  {
    map p | p in limits :: limits[p].queue
  }

  /** The queues with one opened, if it was not, and with an order pushed to one. */
  function Opened(d: Queues, p: int): Queues { d[p := QueueAt(d, p)] }
  function Pushed(d: Queues, p: int, r: Rest): Queues { d[p := QueueAt(d, p) + [r]] }

  lemma {:induction false} QueuesPut(limits: map<int, Limit>, d: Queues, p: int)
    requires p in limits && d.Keys == limits.Keys && forall q | q in limits && q != p :: limits[q].queue == d[q]
    ensures QueuesOf(limits) == d[p := limits[p].queue] && QueuesOf(limits) - {p} == d - {p}
  {
    var e, f := QueuesOf(limits), d[p := limits[p].queue];
    assert e.Keys == f.Keys;
    forall q | q in e ensures e[q] == f[q] {}
  }

  lemma PushedOpened(d: Queues, p: int, r: Rest)
    ensures Pushed(Opened(d, p), p, r) == Pushed(d, p, r)
  {}

  lemma PushedNoneEmpty(limits: map<int, Limit>, d: Queues, p: int, r: Rest)
    requires NoneEmpty(d) && QueuesOf(limits) == Pushed(d, p, r)
    ensures forall q | q in limits :: limits[q].queue != []
  {
    forall q | q in limits ensures limits[q].queue != [] {
      assert limits[q].queue == QueuesOf(limits)[q];
    }
  }

  lemma PutTwice(d: Queues, p: int, q: seq<Rest>)
    ensures Put(d[p := q], p, q) == Put(d, p, q)
  {
    assert d[p := q] - {p} == d - {p};
  }

  /** The buy or the sell half of the book; the original spells both out. */
  class BookSide {
    const side: Side
    var tree: set<int>
    var limits: map<int, Limit>
    var best: int
    ghost var linked: set<OrderNode>

    ghost function Flats(): seq<Order>
      reads this, limits.Values
    {
      Flatten(side, QueuesOf(limits))
    }

    /** Everything but the cached best price, and with limits possibly empty. */
    ghost predicate Filed()
      reads this, limits.Values, linked
    {
      !side.OtherSide? && tree == limits.Keys && AllOk(limits, side, linked)
    }

    ghost predicate AccountedFor(s: set<OrderNode>)
      reads this, limits.Values
    {
      forall o | o in s :: o.price in limits && o in limits[o.price].nodes
    }

    /** Every linked order is in the limit of its price. */
    ghost predicate Accounted()
      reads this, limits.Values, linked
    {
      AccountedFor(linked)
    }

    ghost function BestOf(ps: set<int>): int { if ps == {} then 0 else Best(side, ps) }

    /** `Valid`, apart from the accounting of orders. */
    ghost predicate Tidy()
      reads this, limits.Values, linked
    {
      && Filed() && (forall p | p in limits :: limits[p].queue != [])
      && best == BestOf(tree)
    }

    /** The tree and the map share their keys, no limit is empty, every linked order is in
        exactly the limit of its price, and `best` is the best price, or 0 if there is none. */
    ghost predicate Valid()
      reads this, limits.Values, linked
    {
      Tidy() && Accounted()
    }

    constructor (side: Side)
      requires !side.OtherSide?
      ensures Valid() && linked == {} && this.side == side && limits == map[]
    {
      this.side := side;
      tree, limits, best, linked := {}, map[], 0, {};
    }

    method UpdateBest()
      modifies this`best
      ensures best == BestOf(tree)
    {
      if tree != {} {
        assert IsBest(side, tree, Best(side, tree));
        var p :| p in tree && IsBest(side, tree, p);
        BestIs(side, tree, p);
        best := p;
      } else {
        best := 0;
      }
    }

    method EraseLimit(price: int)
      requires Filed() && Accounted() && price in limits && limits[price].nodes == {}
      modifies this`tree, this`limits
      ensures Filed() && Accounted() && tree == old(tree) - {price} && limits == old(limits) - {price}
      ensures QueuesOf(limits) == old(QueuesOf(limits)) - {price}
    {
      limits := limits - {price};
      tree := tree - {price};
    }

    method EraseAndRefresh(price: int)
      requires Filed() && Accounted() && best == BestOf(tree) && price in limits && limits[price].nodes == {}
      requires forall p | p in limits && p != price :: limits[p].queue != []
      modifies this`tree, this`limits, this`best
      ensures Valid() && limits == old(limits) - {price} && QueuesOf(limits) == old(QueuesOf(limits)) - {price}
    {
      EraseLimit(price);
      if price == best {
        UpdateBest();
      } else {
        BestStays(side, old(tree), price);
      }
    }

    /** Erase the limit at this price, if there is one and it has emptied, and refresh the
        best price if it was it. */
    method CheckForEmptyLimit(price: int)
      requires Filed() && Accounted() && best == BestOf(tree)
      requires forall p | p in limits && p != price :: limits[p].queue != []
      modifies this`tree, this`limits, this`best
      ensures Valid()
      ensures QueuesOf(limits) == old(if price in limits then Put(QueuesOf(limits), price, limits[price].queue)
        else QueuesOf(limits))
      ensures limits == if old(price in limits && limits[price].queue == []) then old(limits) - {price} else old(limits)
      ensures limits == old(limits) ==> best == old(best)
    {
      if price in limits {
        assert LimitOk(limits[price], price, side);
        assert limits[price].queue == [] <==> limits[price].list == [];
        if limits[price].length == 0 {
          EraseAndRefresh(price);
        } else {
          assert QueuesOf(limits)[price := QueuesOf(limits)[price]] == QueuesOf(limits);
        }
      }
    }

    /** Nothing new on this side; what left it is fulfilled, and the rest keeps its status. */
    twostate predicate Spent(was: set<OrderNode>)
      reads this, was
    {
      linked <= was && forall o | o in was :: o.status == if o in linked then old(o.status) else FULFILLED
    }

    /** Match an order at one limit; every other limit stays as it is. */
    method MatchAt(p: int, order: OrderNode, ghost t: Taker, ghost acc0: Outcome, ghost m: Outcome,
                   ghost rest: seq<Order>)
      returns (trades: seq<Fill>, ghost acc: Outcome)
      requires AllOk(limits, side, linked) && p in limits && order !in linked
      requires Crosses(t, p) && t.id == Some(order.id) && limits[p].Matching(order, t, acc0, m, rest)
      modifies limits[p], linked`prev, linked`next, linked`volume, linked`status, order`volume, order`status
      ensures AllOk(limits, side, linked) && limits[p].Matching(order, t, acc, m, rest)
        && acc.fills == acc0.fills + trades
      ensures forall q | q in limits && q != p ::
                limits[q].queue == old(limits[q].queue)
                && limits[q].nodes == old(limits[q].nodes)
      ensures limits[p].nodes <= old(limits[p].nodes)
      ensures forall o | o in linked ::
                o.status == if o in old(limits[p].nodes) - limits[p].nodes then FULFILLED else old(o.status)
      ensures limits[p].queue == [] || order.volume == 0
      ensures order.volume <= old(order.volume)
        && order.status == Traded(old(order.status), old(order.volume), order.volume)
    {
      ghost var l := limits[p];
      assert LimitOk(l, p, side);
      forall q | q in limits && q != p
        ensures limits[q] != l && limits[q].nodes !! l.nodes && order !in limits[q].nodes
      {
        assert LimitOk(limits[q], q, side);
      }
      trades, acc := limits[p].MatchOrder(order, t, acc0, m, rest);
      assert LimitOk(limits[p], p, side);
      forall q | q in limits && q != p
        ensures LimitOk(limits[q], q, side) && limits[q].nodes == old(limits[q].nodes)
          && limits[q].queue == old(limits[q].queue)
      {
        assert old(LimitOk(limits[q], q, side));
      }
    }

    /** Where matching stands on this side. */
    ghost predicate Taking(order: OrderNode, t: Taker, acc: Outcome, m: Outcome)
      reads this, limits.Values, order
    {
      Resume(NoPolicy, t, acc) == m && !acc.stopped && acc.rem == order.volume && acc.book == Flats()
    }

    /** Matching at the best limit, before it is checked for emptiness. */
    method MatchTop(p: int, order: OrderNode, ghost t: Taker, ghost acc0: Outcome, ghost m: Outcome)
      returns (trades: seq<Fill>, ghost acc: Outcome)
      requires Filed() && IsBest(side, tree, p) && order !in linked && Crosses(t, p) && t.id == Some(order.id)
      requires Taking(order, t, acc0, m)
      modifies limits[p], linked`prev, linked`next, linked`volume, linked`status, order`volume, order`status
      ensures Filed() && acc.fills == acc0.fills + trades
      ensures Resume(NoPolicy, t, acc) == m && !acc.stopped && acc.rem == order.volume
      ensures acc.book == Flatten(side, Put(QueuesOf(limits), p, limits[p].queue))
      ensures forall q | q in limits && q != p ::
                limits[q].nodes == old(limits[q].nodes)
                && limits[q].queue == old(limits[q].queue)
      ensures limits[p].nodes <= old(limits[p].nodes)
      ensures forall o | o in linked ::
                o.status == if o in old(limits[p].nodes) - limits[p].nodes then FULFILLED else old(o.status)
      ensures limits[p].queue == [] || order.volume == 0
      ensures order.volume <= old(order.volume)
        && order.status == Traded(old(order.status), old(order.volume), order.volume)
    {
      ghost var d := QueuesOf(limits);
      FlattenBest(side, d, p);
      assert LimitOk(limits[p], p, side);
      trades, acc := MatchAt(p, order, t, acc0, m, Flatten(side, d - {p}));
      QueuesPut(limits, d, p);
      PutBest(side, QueuesOf(limits), p, limits[p].queue);
    }

    /** Orders that left the limit at `p` are no longer linked. */
    ghost method Forget(p: int, gone: set<OrderNode>)
      requires Filed() && p in limits && limits[p].nodes !! gone && forall o | o in gone :: o.price == p
      requires AccountedFor(linked - gone)
      modifies this`linked
      ensures Filed() && Accounted() && linked == old(linked) - gone
    {
      forall q | q in limits ensures limits[q].nodes !! gone {
        assert LimitOk(limits[q], q, side);
      }
      linked := linked - gone;
    }

    method MatchAndForget(p: int, order: OrderNode, ghost t: Taker, ghost acc0: Outcome, ghost m: Outcome)
      returns (trades: seq<Fill>, ghost acc: Outcome)
      requires Valid() && IsBest(side, tree, p) && order !in linked && Crosses(t, p) && t.id == Some(order.id)
      requires Taking(order, t, acc0, m)
      modifies this`linked, limits[p], linked`prev, linked`next, linked`volume, linked`status, order`volume,
        order`status
      ensures Filed() && Accounted() && (forall q | q in limits && q != p :: limits[q].queue != [])
      ensures Resume(NoPolicy, t, acc) == m && !acc.stopped && acc.rem == order.volume
        && acc.fills == acc0.fills + trades
      ensures acc.book == Flatten(side, Put(QueuesOf(limits), p, limits[p].queue))
      ensures Spent(old(linked))
      ensures limits[p].queue == [] || order.volume == 0
      ensures order.volume <= old(order.volume)
        && order.status == Traded(old(order.status), old(order.volume), order.volume)
    {
      ghost var before := limits[p].nodes;
      assert LimitOk(limits[p], p, side);
      trades, acc := MatchTop(p, order, t, acc0, m);
      Forget(p, before - limits[p].nodes);
    }

    /** One round of `place_order`: the best limit, then erase it if it emptied. */
    method MatchBest(order: OrderNode, ghost t: Taker, ghost acc0: Outcome, ghost m: Outcome)
      returns (trades: seq<Fill>, ghost acc: Outcome)
      requires Valid() && tree != {} && order !in linked && Crosses(t, best) && t.id == Some(order.id)
      requires Taking(order, t, acc0, m)
      modifies this, limits[best], linked`prev, linked`next, linked`volume, linked`status, order`volume, order`status
      ensures Valid() && Taking(order, t, acc, m) && acc.fills == acc0.fills + trades
      ensures limits.Values <= old(limits.Values)
      ensures Spent(old(linked))
      ensures tree < old(tree) || (tree == old(tree) && order.volume == 0)
      ensures order.volume <= old(order.volume)
        && order.status == Traded(old(order.status), old(order.volume), order.volume)
    {
      var p := best;
      trades, acc := MatchAndForget(p, order, t, acc0, m);
      CheckForEmptyLimit(p);
    }

    lemma LimitsHere()
      requires Filed()
      ensures forall l | l in limits.Values :: l.side == side
    {
      forall p | p in limits ensures limits[p].side == side { assert LimitOk(limits[p], p, side); }
    }

    lemma LinkedLive()
      requires Valid()
      ensures forall o | o in linked :: o.side == side && o.status != FULFILLED
    {
      forall o | o in linked ensures o.side == side && o.status != FULFILLED {
        var l := limits[o.price];
        assert LimitOk(l, o.price, side) && o in l.nodes;
        Listed(l.list, l.nodes, o);
      }
    }

    lemma BestZero()
      requires Tidy()
      ensures best == 0 <==> tree == {}
    {
      if tree != {} { assert LimitOk(limits[best], best, side); }
    }

    lemma BestSet()
      requires Valid()
      ensures best != 0 <==> tree != {}
      ensures tree != {} ==>
                && IsBest(side, tree, best) && best in limits && LimitOk(limits[best], best, side)
                && Flats() != [] && Flats()[0].px == best
      ensures tree == {} ==> Flats() == []
    {
      if tree != {} {
        assert LimitOk(limits[best], best, side);
        BestHead(side, QueuesOf(limits), best);
      }
    }

    /** `MatchBest`, with the orders used up before staying as they are. */
    method MatchRound(order: OrderNode, ghost t: Taker, ghost acc0: Outcome, ghost m: Outcome,
                      ghost was: map<OrderNode, OrderStatus>)
      returns (trades: seq<Fill>, ghost acc: Outcome)
      requires Valid() && tree != {} && order !in linked && Crosses(t, best) && t.id == Some(order.id)
      requires Taking(order, t, acc0, m) && Dealt(was, linked) && order !in was
      modifies this, limits[best], linked`prev, linked`next, linked`volume, linked`status, order`volume, order`status
      ensures Valid() && Taking(order, t, acc, m) && acc.fills == acc0.fills + trades
      ensures limits.Values <= old(limits.Values) && linked <= old(linked) && Dealt(was, linked)
      ensures tree < old(tree) || (tree == old(tree) && order.volume == 0)
      ensures Lessened(order)
    {
      ghost var top: Limit := limits[best];
      trades, acc := MatchBest(order, t, acc0, m);
      forall o | o in was.Keys - old(linked) ensures o.status == FULFILLED {
        assert o as object != this && o as object != top;
        assert o.status == old(o.status);
      }
    }

    twostate predicate Shrunk(was: set<OrderNode>)
      reads this, was
    {
      limits.Values <= old(limits.Values) && Spent(was)
    }

    /** There is a best price, and the order crosses it. */
    predicate Meets(order: OrderNode)
      reads this`best
    {
      best != 0 && (if order.side.Buy? then order.price >= best else order.price <= best)
    }

    /** One round of it, from its guard. */
    method MatchNext(order: OrderNode, ghost t: Taker, ghost acc0: Outcome, ghost m: Outcome,
                     ghost was: map<OrderNode, OrderStatus>)
      returns (trades: seq<Fill>, ghost acc: Outcome)
      requires Valid() && order !in linked && t == TakerOf(order) && side == Against(order.side)
      requires !order.side.OtherSide? && Meets(order)
      requires Taking(order, t, acc0, m) && Dealt(was, linked) && order !in was
      modifies this, limits.Values, linked`prev, linked`next, linked`volume, linked`status, order`volume, order`status
      ensures Valid() && Taking(order, t, acc, m) && acc.fills == acc0.fills + trades
      ensures limits.Values <= old(limits.Values) && linked <= old(linked) && Dealt(was, linked)
      ensures tree < old(tree) || (tree == old(tree) && order.volume == 0)
      ensures Lessened(order)
    {
      BestSet();
      trades, acc := MatchRound(order, t, acc0, m, was);
    }

    /** Once the loop is left, nothing more can trade. */
    lemma Ended(order: OrderNode, t: Taker, acc: Outcome, m: Outcome)
      requires Valid() && Taking(order, t, acc, m) && t == TakerOf(order) && side == Against(order.side)
      requires !order.side.OtherSide? && (order.volume == 0 || !Meets(order))
      ensures acc == m
    {
      BestSet();
      ResumeEnd(NoPolicy, t, acc);
    }

    /** The matching loop of `place_order` on the side the order meets. */
    method MatchLoop(order: OrderNode, ghost t: Taker, ghost m: Outcome, ghost was: map<OrderNode, OrderStatus>)
      returns (trades: seq<Fill>)
      requires Valid() && order !in linked && order.status != FULFILLED && t == TakerOf(order)
        && side == Against(order.side)
      requires m == Match(NoPolicy, t, order.volume, Flats()) && !order.side.OtherSide?
      requires (order.volume > 0 || !Meets(order)) && Dealt(was, linked) && order !in was
      modifies this, limits.Values, linked`prev, linked`next, linked`volume, linked`status, order`volume, order`status
      ensures Valid() && Flats() == m.book && trades == m.fills && order.volume == m.rem && !m.stopped
      ensures order.status == Traded(old(order.status), old(order.volume), order.volume)
      ensures Dealt(was, linked) && limits.Values <= old(limits.Values)
    {
      trades := [];
      ghost var acc := Idle(order.volume, Flats());
      ResumeStart(NoPolicy, t, order.volume, Flats());
      while Meets(order) && order.status != FULFILLED
        invariant Valid() && Taking(order, t, acc, m) && acc.fills == trades
        invariant order.status == Traded(old(order.status), old(order.volume), order.volume)
        invariant old(order.volume) > 0 || !Meets(order)
        invariant linked <= old(linked) && Dealt(was, linked) && limits.Values <= old(limits.Values)
        decreases tree, order.volume
      {
        var atLimit;
        atLimit, acc := MatchNext(order, t, acc, m, was);
        trades := trades + atLimit;
      }
      Ended(order, t, acc, m);
    }

    /** The same, as seen from outside. */
    method MatchIncoming(order: OrderNode, ghost t: Taker, ghost m: Outcome) returns (trades: seq<Fill>)
      requires Valid() && order !in linked && order.status != FULFILLED && t == TakerOf(order)
        && side == Against(order.side)
      requires m == Match(NoPolicy, t, order.volume, Flats()) && !order.side.OtherSide?
      requires order.volume > 0 || !Meets(order)
      modifies this, limits.Values, linked`prev, linked`next, linked`volume, linked`status, order`volume, order`status
      ensures Valid() && Flats() == m.book && trades == m.fills && order.volume == m.rem && !m.stopped
      ensures order.status == Traded(old(order.status), old(order.volume), order.volume)
      ensures Spent(old(linked)) && limits.Values <= old(limits.Values)
    {
      trades := MatchLoop(order, t, m, map o | o in linked :: o.status);
    }

    /** A round of that loop for an order of volume zero that crosses: nothing has changed
        afterwards and the loop goes on, so it never ends. */
    method SpinRound(order: OrderNode) returns (trades: seq<Fill>)
      requires Valid() && order !in linked && order.volume == 0 && order.status != FULFILLED && Meets(order)
      requires side == Against(order.side) && !order.side.OtherSide?
      modifies this, limits[best], linked`prev, linked`next, linked`volume, linked`status, order`volume, order`status
      ensures trades == [] && unchanged(this) && unchanged(order) && unchanged(linked)
      ensures unchanged(limits.Values) && Meets(order) && order.status != FULFILLED
    {
      BestSet();
      ghost var t, s := TakerOf(order), At(best, limits[best].queue);
      ghost var acc, m := Idle(0, s), Match(NoPolicy, t, 0, s);
      ResumeStart(NoPolicy, t, 0, s);
      trades, acc := limits[best].MatchOrder(order, t, acc, m, []);
      CheckForEmptyLimit(best);
    }

    /** The halves of a book share no object. */
    lemma ApartFrom(other: BookSide)
      requires Valid() && other.Valid() && other.side != side
      ensures this != other && limits.Values !! other.limits.Values && linked !! other.linked
    {
      LimitsHere();
      LinkedLive();
      other.LimitsHere();
      other.LinkedLive();
    }

    /** `MatchIncoming` next to the other half of the book, which it leaves alone. */
    method MatchBeside(order: OrderNode, ghost other: BookSide, ghost m: Outcome) returns (trades: seq<Fill>)
      requires Valid() && other.Valid() && other.side != side && order !in other.linked
      requires order !in linked && order.status != FULFILLED && side == Against(order.side) && !order.side.OtherSide?
      requires m == Match(NoPolicy, TakerOf(order), order.volume, Flats()) && (order.volume > 0 || !Meets(order))
      modifies this, limits.Values, linked`prev, linked`next, linked`volume, linked`status, order`volume, order`status
      ensures Valid() && trades == m.fills && order.volume == m.rem && !m.stopped
      ensures order.status == Traded(old(order.status), old(order.volume), order.volume)
      ensures Flats() == m.book && Shrunk(old(linked))
      ensures other.Valid() && other.Flats() == old(other.Flats())
    {
      ApartFrom(other);
      label L:
      trades := MatchIncoming(order, TakerOf(order), m);
      assert unchanged@L(other) && unchanged@L(other.limits.Values);
    }

    method GetOrCreateLimit(price: int) returns (l: Limit)
      requires Filed() && Accounted() && price > 0
      modifies this`tree, this`limits
      ensures Filed() && Accounted() && price in limits && l == limits[price] && tree == old(tree) + {price}
      ensures forall p | p in old(limits) :: p in limits && limits[p] == old(limits[p])
      ensures fresh(l) || l in old(limits.Values)
      ensures fresh(limits.Values - old(limits.Values))
      ensures QueuesOf(limits) == old(Opened(QueuesOf(limits), price))
    {
      ghost var d := QueuesOf(limits);
      if price in limits {
        l := limits[price];
        assert tree == tree + {price} && d[price := d[price]] == d;
      } else {
        l := new Limit(price, side);
        tree := tree + {price};
        limits := limits[price := l];
        assert QueuesOf(limits) == d[price := []];
      }
    }

    /** Append the order to a limit of this side; every other limit stays as it is. */
    method AppendAt(p: int, order: OrderNode)
      requires AllOk(limits, side, linked) && p in limits && order !in linked && order.price == p && order.side == side
      requires order.Detached() && order.status != FULFILLED
      modifies limits[p], order`prev, linked`next
      ensures AllOk(limits, side, linked + {order})
      ensures forall q | q in limits && q != p ::
                limits[q].queue == old(limits[q].queue)
                && limits[q].nodes == old(limits[q].nodes)
      ensures limits[p].queue == old(limits[p].queue) + [AsRest(order)]
        && limits[p].nodes == old(limits[p].nodes) + {order}
    {
      ghost var l := limits[p];
      assert LimitOk(l, p, side);
      forall q | q in limits && q != p
        ensures limits[q] != l && limits[q].nodes !! l.nodes && order !in limits[q].nodes
      {
        assert LimitOk(limits[q], q, side);
      }
      limits[p].InsertOrder(order);
      assert LimitOk(limits[p], p, side);
      forall q | q in limits && q != p
        ensures LimitOk(limits[q], q, side) && limits[q].nodes == old(limits[q].nodes)
          && limits[q].queue == old(limits[q].queue)
      {
        assert old(LimitOk(limits[q], q, side));
      }
    }

    /** The same, with the order accounted for. */
    method AppendFiled(l: Limit, p: int, order: OrderNode)
      requires Filed() && Accounted() && p in limits && l == limits[p] && order !in linked && order.price == p
        && order.side == side
      requires order.Detached() && order.status != FULFILLED
      modifies this`linked, l, order`prev, linked`next
      ensures Filed() && Accounted() && linked == old(linked) + {order}
      ensures QueuesOf(limits) == Pushed(old(QueuesOf(limits)), p, AsRest(order))
    {
      ghost var d := QueuesOf(limits);
      AppendAt(p, order);
      QueuesPut(limits, d, p);
      linked := linked + {order};
    }

    lemma BestWith(ps: set<int>, p: int)
      ensures Best(side, ps + {p}) == if ps == {} || Ahead(side, p, Best(side, ps)) then p else Best(side, ps)
    {
      BestIs(side, ps + {p}, if ps == {} || Ahead(side, p, Best(side, ps)) then p else Best(side, ps));
    }

    method RaiseBest(price: int, ghost ps: set<int>)
      requires best == BestOf(ps) && (best == 0 <==> ps == {}) && tree == ps + {price} && !side.OtherSide?
      modifies this`best
      ensures best == BestOf(tree)
    {
      BestWith(ps, price);
      if best == 0 || (if side.Buy? then price > best else price < best) {
        best := price;
      }
    }

    /** Find or open the limit at this price, the cached best price included. */
    method OpenLimit(price: int) returns (l: Limit)
      requires Valid() && price > 0
      modifies this`tree, this`limits, this`best
      ensures Filed() && Accounted() && best == BestOf(tree) && price in limits && l == limits[price]
      ensures fresh(l) || l in old(limits.Values)
      ensures fresh(limits.Values - old(limits.Values))
      ensures QueuesOf(limits) == Opened(old(QueuesOf(limits)), price)
    {
      ghost var ps := tree;
      BestZero();
      l := GetOrCreateLimit(price);
      RaiseBest(price, ps);
    }

    /** Rest an order behind all earlier ones of its price, which gives the flat side `after`. */
    method InsertOrder(order: OrderNode, ghost after: seq<Order>)
      requires Valid() && order !in linked && order.price > 0 && order.side == side
      requires order.Detached() && order.status != FULFILLED
      requires after == Insert(side, Flats(), Priced(order.price, AsRest(order)))
      modifies this, limits.Values, order`prev, linked`next
      ensures Valid() && linked == old(linked) + {order} && Flats() == after
      ensures fresh(limits.Values - old(limits.Values))
    {
      ghost var d := QueuesOf(limits);
      PushFlat(side, d, order.price, AsRest(order));
      PushedOpened(d, order.price, AsRest(order));
      var l := OpenLimit(order.price);
      AppendFiled(l, order.price, order);
      PushedNoneEmpty(limits, d, order.price, AsRest(order));
    }

    /** `InsertOrder` next to the other half of the book, which it leaves alone. */
    method InsertBeside(order: OrderNode, ghost other: BookSide, ghost after: seq<Order>)
      requires Valid() && other.Valid() && other.side != side && order !in other.linked
      requires order !in linked && order.price > 0 && order.side == side
      requires order.Detached() && order.status != FULFILLED
      requires after == Insert(side, Flats(), Priced(order.price, AsRest(order)))
      modifies this, limits.Values, order`prev, linked`next
      ensures Valid() && linked == old(linked) + {order} && Flats() == after
      ensures fresh(limits.Values - old(limits.Values))
      ensures other.Valid() && other.Flats() == old(other.Flats())
    {
      ApartFrom(other);
      label L:
      InsertOrder(order, after);
      assert unchanged@L(other) && unchanged@L(other.limits.Values);
    }

    /** Unlink an order from the limit at `p`, leaving the queue `q`; every other limit stays as it is. */
    method DeleteAt(p: int, order: OrderNode, ghost k: nat, ghost q: seq<Rest>)
      requires AllOk(limits, side, linked) && p in limits && k < |limits[p].list| && limits[p].list[k] == order
      requires k < |limits[p].queue| && q == limits[p].queue[..k] + limits[p].queue[k + 1..]
      modifies limits[p], linked`prev, linked`next, order`status
      ensures AllOk(limits, side, linked - {order})
      ensures forall x | x in limits && x != p ::
                limits[x].queue == old(limits[x].queue)
                && limits[x].nodes == old(limits[x].nodes)
      ensures limits[p].queue == q && limits[p].nodes == old(limits[p].nodes) - {order}
      ensures order.status == DELETED && order.Detached()
    {
      ghost var l := limits[p];
      assert LimitOk(l, p, side) && order in l.nodes && order.price == p;
      forall x | x in limits && x != p ensures limits[x] != l && limits[x].nodes !! l.nodes {
        assert LimitOk(limits[x], x, side);
      }
      limits[p].DeleteOrder(order, k);
      assert LimitOk(limits[p], p, side);
      forall x | x in limits && x != p
        ensures LimitOk(limits[x], x, side) && limits[x].nodes == old(limits[x].nodes)
          && limits[x].queue == old(limits[x].queue)
      {
        assert old(LimitOk(limits[x], x, side));
      }
    }

    /** No other linked order has the id of this one. */
    ghost predicate Alone(order: OrderNode)
      reads this
    {
      forall o | o in linked && o.id == order.id :: o == order
    }

    /** The position of a linked order in its limit. */
    lemma Position(order: OrderNode) returns (k: nat)
      requires Valid() && order in linked
      ensures order.price in limits
      ensures var l := limits[order.price];
              && LimitOk(l, order.price, side) && k < |l.list| == |l.queue| && l.list[k] == order
              && l.queue[k] == AsRest(order)
              && (Alone(order) ==> forall i | 0 <= i < k :: l.queue[i].id != Some(order.id))
    {
      var l := limits[order.price];
      assert LimitOk(l, order.price, side);
      Listed(l.list, l.nodes, order);
      k :| 0 <= k < |l.list| && l.list[k] == order;
      if Alone(order) {
        forall i | 0 <= i < k ensures l.queue[i].id != Some(order.id) {
          assert l.list[i] in linked && l.list[i] != l.list[k];
        }
      }
    }

    ghost method Drop(order: OrderNode)
      requires !side.OtherSide? && tree == limits.Keys && AllOk(limits, side, linked - {order})
        && AccountedFor(linked - {order})
      modifies this`linked
      ensures Filed() && Accounted() && linked == old(linked) - {order}
    {
      linked := linked - {order};
    }

    /** The deletion itself, before the limit is checked for emptiness. */
    method UnlinkOrder(p: int, order: OrderNode, ghost k: nat, ghost q: seq<Rest>)
      requires Filed() && Accounted() && p in limits && k < |limits[p].list| && limits[p].list[k] == order
      requires k < |limits[p].queue| && q == limits[p].queue[..k] + limits[p].queue[k + 1..] && order.price == p
      modifies this`linked, limits[p], linked`prev, linked`next, order`status
      ensures Filed() && Accounted() && linked == old(linked) - {order} && order.status == DELETED && order.Detached()
      ensures QueuesOf(limits) == old(QueuesOf(limits))[p := q] && limits[p].queue == q
      ensures forall x | x in limits && x != p :: limits[x].queue == old(limits[x].queue)
    {
      ghost var d := QueuesOf(limits);
      DeleteAt(p, order, k, q);
      QueuesPut(limits, d, p);
      Drop(order);
    }

    method DeleteAndTidy(p: int, order: OrderNode, ghost k: nat, ghost q: seq<Rest>)
      requires Valid() && p in limits && k < |limits[p].list| && limits[p].list[k] == order
      requires k < |limits[p].queue| && q == limits[p].queue[..k] + limits[p].queue[k + 1..] && order.price == p
      modifies this, limits[p], linked`prev, linked`next, order`status
      ensures Valid() && linked == old(linked) - {order} && order.status == DELETED && order.Detached()
      ensures limits.Values <= old(limits.Values)
      ensures QueuesOf(limits) == Put(old(QueuesOf(limits)), p, q)
    {
      ghost var d := QueuesOf(limits);
      UnlinkOrder(p, order, k, q);
      PutTwice(d, p, q);
      CheckForEmptyLimit(p);
    }

    /** `after` is the flat side without the order's entry, the first one under its id if it is alone. */
    ghost predicate Deleted(order: OrderNode, after: seq<Order>)
      reads this, limits.Values, order
    {
      && CutOut(Flats(), after, Priced(order.price, AsRest(order)))
      && (Alone(order) ==> after == Remove(Flats(), order.price, Some(order.id)))
    }

    /** What deleting the order at position `k` of its limit makes of the flat side. */
    lemma {:induction false} DeletedAt(order: OrderNode, k: nat)
      requires Valid() && order in linked && order.price in limits
      requires var q := limits[order.price].queue;
               && k < |q| && q[k] == AsRest(order)
               && (Alone(order) ==> forall i | 0 <= i < k :: q[i].id != Some(order.id))
      ensures var d := QueuesOf(limits);
              var q := d[order.price];
              Deleted(order, Flatten(side, Put(d, order.price, q[..k] + q[k + 1..])))
    {
      var d := QueuesOf(limits);
      assert NoneEmpty(d);
      var i := SpliceCut(side, d, order.price, k);
      if Alone(order) { SpliceFlat(side, d, order.price, k); }
    }

    /** Delete a linked order, and its limit if that empties. */
    method DeleteOrder(order: OrderNode) returns (ghost after: seq<Order>)
      requires Valid() && order in linked
      modifies this, limits.Values, linked`prev, linked`next, order`status
      ensures Valid() && linked == old(linked) - {order} && order.status == DELETED && order.Detached()
      ensures limits.Values <= old(limits.Values)
      ensures old(Deleted(order, after)) && Flats() == after
    {
      ghost var k := Position(order);
      if order.price in limits {
        DeletedAt(order, k);
        ghost var d := QueuesOf(limits);
        ghost var q := d[order.price][..k] + d[order.price][k + 1..];
        after := Flatten(side, Put(d, order.price, q));
        DeleteAndTidy(order.price, order, k, q);
      }
    }

    /** `DeleteOrder` next to the other half of the book, which it leaves alone. */
    method DeleteBeside(order: OrderNode, ghost other: BookSide) returns (ghost after: seq<Order>)
      requires Valid() && other.Valid() && other.side != side && order in linked
      modifies this, limits.Values, linked`prev, linked`next, order`status
      ensures Valid() && linked == old(linked) - {order} && order.status == DELETED && order.Detached()
      ensures limits.Values <= old(limits.Values)
      ensures old(Deleted(order, after)) && Flats() == after
      ensures other.Valid() && other.Flats() == old(other.Flats())
    {
      ApartFrom(other);
      label L:
      after := DeleteOrder(order);
      assert unchanged@L(other) && unchanged@L(other.limits.Values);
    }

    /** The flat side lists exactly the linked orders. */
    lemma FlatsLinked(e: Order)
      requires Valid()
      ensures e in Flats() <==> exists o :: o in linked && e == Priced(o.price, AsRest(o))
    {
      FlattenMembers(side, QueuesOf(limits), e);
      if e in Flats() {
        var l := limits[e.px];
        assert LimitOk(l, e.px, side);
        var i :| 0 <= i < |l.queue| && l.queue[i] == Rest(e.id, e.client, e.qty);
        assert l.list[i] in linked;
      }
      if o :| o in linked && e == Priced(o.price, AsRest(o)) {
        var l := limits[o.price];
        assert LimitOk(l, o.price, side);
        Listed(l.list, l.nodes, o);
        var i :| 0 <= i < |l.list| && l.list[i] == o;
        assert l.queue[i] == AsRest(o);
      }
    }

    /** The flat side is in price order and lists no negative quantity. */
    lemma FlatsSound()
      requires Valid()
      ensures Sorted(side, Flats()) && Nonneg(Flats())
    {
      FlattenSorted(side, QueuesOf(limits));
      var f := Flats();
      forall i | 0 <= i < |f| ensures f[i].qty >= 0 {
        FlatsLinked(f[i]);
      }
    }

    /** Whatever the flat side lists has a positive quantity exactly when every linked order has volume. */
    lemma FlatsPositive()
      requires Valid()
      ensures Positive(Flats()) <==> forall o | o in linked :: o.volume > 0
    {
      var f := Flats();
      forall i | 0 <= i < |f| ensures f[i].px > 0 && exists o :: o in linked && f[i].qty == o.volume {
        FlatsLinked(f[i]);
        var o :| o in linked && f[i] == Priced(o.price, AsRest(o));
        assert LimitOk(limits[o.price], o.price, side);
      }
      forall o | o in linked ensures exists i :: 0 <= i < |f| && f[i].qty == o.volume {
        FlatsLinked(Priced(o.price, AsRest(o)));
        var i :| 0 <= i < |f| && f[i] == Priced(o.price, AsRest(o));
      }
    }
  }
}
