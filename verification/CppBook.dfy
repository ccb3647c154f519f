// The C++ order book: its two halves and, over both, an index from id to order.
module CppBook {
  import opened Flat
  import opened MatchLaws
  import opened Books
  import opened CppLimit
  import opened CppSide
  import opened Offers

  ghost function ActiveOf(index: map<int, OrderNode>): set<OrderNode>
    reads index.Values
  {
    set o | o in index.Values && o.status == ACTIVE
  }

  ghost predicate OwnIds(index: map<int, OrderNode>) { forall id | id in index :: index[id].id == id }

  lemma KnownUnderId(index: map<int, OrderNode>, o: OrderNode)
    requires o in index.Values && OwnIds(index)
    ensures o.id in index && index[o.id] == o
  {
    if forall id | id in index :: index[id] != o { assert false; }
  }

  ghost predicate Unused(linked: set<OrderNode>, id: int) { forall o | o in linked :: o.id != id }

  ghost predicate AloneIn(linked: set<OrderNode>, order: OrderNode) {
    forall o | o in linked && o.id == order.id :: o == order
  }

  lemma AloneIffFree(taken: set<OrderNode>, linked: set<OrderNode>, order: OrderNode)
    requires order !in taken && taken <= linked <= taken + {order}
    ensures AloneIn(linked, order) <==> Unused(taken, order.id)
  {}

  /** When the index is extended by one order, only another order under its id is lost from it. */
  lemma IndexExtended(index: map<int, OrderNode>, linked: set<OrderNode>, linked': set<OrderNode>, order: OrderNode)
    requires OwnIds(index) && linked <= index.Values && linked' <= linked + {order}
    ensures linked' <= index[order.id := order].Values <==> AloneIn(linked', order)
  {
    var index' := index[order.id := order];
    forall o | o in linked' ensures o in index'.Values <==> (o.id == order.id ==> o == order) {
      assert OwnIds(index');
      assert index'[order.id] == order;
      if o in index'.Values { KnownUnderId(index', o); }
      if o.id != order.id {
        KnownUnderId(index, o);
        assert index'[o.id] == o;
      }
    }
  }

  /** The book after an order of volume `qty` matched with outcome `m`. It rests unless it was
      used up, so an order that came without volume rests too. */
  function Left(b: Books.Book, t: Taker, qty: nat, m: Outcome): Books.Book {
    var b1 := WithOpposite(b, t.side, m.book);
    if m.rem > 0 || qty == 0 then Rested(b1, t.side, Order(t.id, t.client, t.px, m.rem)) else b1
  }

  lemma LeftExact(t: Taker, bound: Bound, qty: nat, b: Books.Book)
    requires !t.side.OtherSide? && Bounds(t, bound) && Nonneg(Opposite(b, t.side))
    requires Sorted(Buy, b.bids) && Sorted(Sell, b.asks)
    ensures var l, own := Opposite(b, t.side), Opposite(b, Against(t.side));
            var m := Match(NoPolicy, t, qty, l);
            var b' := Left(b, t, qty, m);
            && m.rem == qty - Min(qty, Total(Offered(NoPolicy, None, bound, l)))
            && m.fills == SweptFills(bound, l, qty, t.id) && Opposite(b', t.side) == Swept(bound, l, qty)
            && if m.rem > 0 || qty == 0
               then RestsIn(t.side.Buy?, own, Order(t.id, t.client, t.px, m.rem), Opposite(b', Against(t.side)))
               else Opposite(b', Against(t.side)) == own
  {
    var l, own := Opposite(b, t.side), Opposite(b, Against(t.side));
    MatchSweeps(t, bound, qty, l);
    SweepTakes(t, bound, qty, l);
    OfferedToAll(bound, l, t.client);
    InsertRests(t.side, own, Order(t.id, t.client, t.px, Match(NoPolicy, t, qty, l).rem));
  }

  class Book {
    const buy: BookSide
    const sell: BookSide
    var idToOrder: map<int, OrderNode>

    ghost function View(): Books.Book
      reads this, buy, sell, buy.limits.Values, sell.limits.Values
    {
      Books.Book(buy.Flats(), sell.Flats())
    }

    ghost function Linked(): set<OrderNode>
      reads this, buy, sell
    {
      buy.linked + sell.linked
    }

    /** Every object the book may touch. */
    ghost function Repr(): set<object>
      reads this, buy, sell
    {
      {this, buy, sell} + buy.limits.Values + sell.limits.Values + Linked() + idToOrder.Values
    }

    twostate predicate NoNewLimits()
      reads this, buy, sell
    {
      buy.limits.Values <= old(buy.limits.Values) && sell.limits.Values <= old(sell.limits.Values)
    }

    /** What limits there are were there before or are new. */
    twostate predicate NewLimits()
      reads this, buy, sell
    {
      forall l | l in buy.limits.Values + sell.limits.Values ::
        l in old(buy.limits.Values + sell.limits.Values) || fresh(l)
    }

    /** Both halves well formed, each on its own side. */
    ghost predicate Halves()
      reads this, buy, sell, buy.limits.Values, sell.limits.Values, buy.linked, sell.linked
    {
      buy.side == Buy && sell.side == Sell && forall h | h in {buy, sell} :: h.Valid()
    }

    /** Every linked order is found under its id. */
    ghost predicate Indexed()
      reads this, buy, sell
    {
      Linked() <= idToOrder.Values
    }

    /** Every known order, `except` aside, is linked if it is active. */
    ghost predicate Tracked(except: set<OrderNode>)
      reads this, buy, sell, idToOrder.Values
    {
      OwnIds(idToOrder) && ActiveOf(idToOrder) <= Linked() + except
    }

    /** Everything but that the index finds every linked order. */
    ghost predicate Whole()
      reads this, buy, sell, buy.limits.Values, sell.limits.Values, buy.linked, sell.linked, idToOrder.Values
    {
      Halves() && Tracked({}) && Uncrossed(View())
    }

    ghost predicate AllActive()
      reads this, buy, sell, buy.linked, sell.linked
    {
      forall o | o in Linked() :: o.status == ACTIVE
    }

    ghost predicate Valid()
      reads this, buy, sell, buy.limits.Values, sell.limits.Values, buy.linked, sell.linked, idToOrder.Values
    {
      Whole() && Indexed() && AllActive()
    }

    constructor ()
      ensures Valid() && View() == EMPTY && idToOrder == map[]
      ensures Repr() == {this, buy, sell} && fresh(buy) && fresh(sell)
    {
      buy := new BookSide(Buy);
      sell := new BookSide(Sell);
      idToOrder := map[];
    }

    /** The halves share no object. */
    lemma Apart()
      requires Halves()
      ensures buy != sell && buy.limits.Values !! sell.limits.Values && buy.linked !! sell.linked
      ensures forall o | o in buy.linked :: o.side == Buy && o.status != FULFILLED
      ensures forall o | o in sell.linked :: o.side == Sell && o.status != FULFILLED
    {
      buy.LinkedLive();
      sell.LinkedLive();
      buy.LimitsHere();
      sell.LimitsHere();
    }

    lemma OnItsSide(order: OrderNode)
      requires Halves() && order in Linked()
      ensures order.side == (if order in buy.linked then Buy else Sell)
        && (order in buy.linked <==> order !in sell.linked)
    {
      Apart();
    }

    /** No other linked order has the id of this one. */
    ghost predicate Alone(order: OrderNode)
      reads this, buy, sell
    {
      AloneIn(Linked(), order)
    }

    /** The ids of the linked orders are those of the flat book. */
    lemma LinkedId(id: int)
      requires Halves()
      ensures Some(id) in IdsOf(View()) <==> exists o :: o in Linked() && o.id == id
    {
      if e :| (e in View().bids || e in View().asks) && e.id == Some(id) {
        buy.FlatsLinked(e);
        sell.FlatsLinked(e);
      }
      if o :| o in Linked() && o.id == id {
        buy.FlatsLinked(Priced(o.price, AsRest(o)));
        sell.FlatsLinked(Priced(o.price, AsRest(o)));
        assert Priced(o.price, AsRest(o)).id == Some(id);
      }
    }

    lemma FreeId(order: OrderNode)
      requires Halves()
      ensures Some(order.id) !in IdsOf(View()) <==> Unused(Linked(), order.id)
    {
      LinkedId(order.id);
    }

    /** Both flat sides are in price order, and what they list has a positive price. */
    lemma Sides()
      requires Halves()
      ensures Sorted(Buy, View().bids) && Sorted(Sell, View().asks) && Nonneg(View().bids) && Nonneg(View().asks)
    {
      buy.FlatsSound();
      sell.FlatsSound();
    }

    /** The book has the full shape exactly when no order rests without volume. */
    lemma ShapeIffPositive()
      requires Whole()
      ensures Shape(View()) <==> forall o | o in Linked() :: o.volume > 0
    {
      Sides();
      buy.FlatsPositive();
      sell.FlatsPositive();
    }

    /** The order is known but not linked yet, and everything else is in place. */
    ghost predicate Arriving(order: OrderNode)
      reads this, buy, sell, buy.limits.Values, sell.limits.Values, buy.linked, sell.linked, idToOrder.Values, order
    {
      && Halves() && Tracked({order}) && !order.side.OtherSide? && order !in Linked()
      && order.id in idToOrder && idToOrder[order.id] == order
    }

    /** The half that an order of this side trades against. */
    function Facing(side: Side): BookSide
      reads this
    {
      if side.Buy? then sell else buy
    }

    /** The matching loop ends: the order has volume, or crosses nothing, or is marked as fulfilled. */
    ghost predicate Ends(order: OrderNode)
      reads this, buy, sell, order
    {
      order.volume > 0 || !Facing(order.side).Meets(order) || order.status == FULFILLED
    }

    /** A buy against the sells. */
    method MatchBuy(order: OrderNode, ghost m: Outcome) returns (trades: seq<Fill>)
      requires Halves() && order !in Linked() && order.side.Buy? && order.status != FULFILLED
      requires order.volume > 0 || !sell.Meets(order)
      requires m == Match(NoPolicy, TakerOf(order), order.volume, sell.Flats())
      modifies sell, sell.limits.Values, sell.linked`prev, sell.linked`next, sell.linked`volume, sell.linked`status
      modifies order`volume, order`status
      ensures Halves() && View() == old(View()).(asks := m.book)
      ensures trades == m.fills && order.volume == m.rem && !m.stopped
      ensures order.status == Traded(old(order.status), old(order.volume), order.volume)
      ensures sell.Shrunk(old(sell.linked))
    {
      buy.ApartFrom(sell);
      trades := sell.MatchBeside(order, buy, m);
    }

    /** The same for a sell against the buys. */
    method MatchSell(order: OrderNode, ghost m: Outcome) returns (trades: seq<Fill>)
      requires Halves() && order !in Linked() && order.side.Sell? && order.status != FULFILLED
      requires order.volume > 0 || !buy.Meets(order)
      requires m == Match(NoPolicy, TakerOf(order), order.volume, buy.Flats())
      modifies buy, buy.limits.Values, buy.linked`prev, buy.linked`next, buy.linked`volume, buy.linked`status
      modifies order`volume, order`status
      ensures Halves() && View() == old(View()).(bids := m.book)
      ensures trades == m.fills && order.volume == m.rem && !m.stopped
      ensures order.status == Traded(old(order.status), old(order.volume), order.volume)
      ensures buy.Shrunk(old(buy.linked))
    {
      buy.ApartFrom(sell);
      trades := buy.MatchBeside(order, sell, m);
    }

    /** Rest an order on the buys. */
    method RestBuy(order: OrderNode, ghost after: seq<Order>)
      requires Halves() && order !in Linked() && order.side.Buy?
      requires after == Insert(Buy, buy.Flats(), Priced(order.price, AsRest(order)))
      requires order.price > 0 && order.status != FULFILLED && order.Detached()
      modifies buy, buy.limits.Values, order`prev, buy.linked`next
      ensures Halves() && buy.linked == old(buy.linked) + {order}
      ensures View() == old(View()).(bids := after) && fresh(buy.limits.Values - old(buy.limits.Values))
    {
      buy.ApartFrom(sell);
      buy.InsertBeside(order, sell, after);
    }

    /** Rest an order on the sells. */
    method RestSell(order: OrderNode, ghost after: seq<Order>)
      requires Halves() && order !in Linked() && order.side.Sell?
      requires after == Insert(Sell, sell.Flats(), Priced(order.price, AsRest(order)))
      requires order.price > 0 && order.status != FULFILLED && order.Detached()
      modifies sell, sell.limits.Values, order`prev, sell.linked`next
      ensures Halves() && sell.linked == old(sell.linked) + {order}
      ensures View() == old(View()).(asks := after) && fresh(sell.limits.Values - old(sell.limits.Values))
    {
      buy.ApartFrom(sell);
      sell.InsertBeside(order, buy, after);
    }

    /** The matching half of `place_order`. */
    method MatchHalf(order: OrderNode, ghost m: Outcome) returns (trades: seq<Fill>)
      requires Halves() && order !in Linked() && !order.side.OtherSide? && order.status != FULFILLED && Ends(order)
      requires m == Match(NoPolicy, TakerOf(order), order.volume, Opposite(View(), order.side))
      modifies buy, buy.limits.Values, buy.linked`prev, buy.linked`next, buy.linked`volume, buy.linked`status
      modifies sell, sell.limits.Values, sell.linked`prev, sell.linked`next, sell.linked`volume, sell.linked`status
      modifies order`volume, order`status
      ensures Halves() && View() == WithOpposite(old(View()), order.side, m.book)
      ensures trades == m.fills && order.volume == m.rem && !m.stopped
      ensures order.status == Traded(old(order.status), old(order.volume), order.volume)
      ensures buy.Shrunk(old(buy.linked)) && sell.Shrunk(old(sell.linked))
    {
      Apart();
      if order.side.Buy? {
        trades := MatchBuy(order, m);
      } else {
        trades := MatchSell(order, m);
      }
    }

    /** The same, with the index. */
    method Take(order: OrderNode, ghost m: Outcome) returns (trades: seq<Fill>)
      requires Arriving(order) && order.status != FULFILLED && Ends(order)
      requires m == Match(NoPolicy, TakerOf(order), order.volume, Opposite(View(), order.side))
      modifies buy, buy.limits.Values, buy.linked`prev, buy.linked`next, buy.linked`volume, buy.linked`status
      modifies sell, sell.limits.Values, sell.linked`prev, sell.linked`next, sell.linked`volume, sell.linked`status
      modifies order`volume, order`status
      ensures Arriving(order) && View() == WithOpposite(old(View()), order.side, m.book)
      ensures trades == m.fills && order.volume == m.rem && !m.stopped
      ensures order.status == Traded(old(order.status), old(order.volume), order.volume)
      ensures NoNewLimits() && buy.linked <= old(buy.linked) && sell.linked <= old(sell.linked)
      ensures old(AllActive()) ==> AllActive()
    {
      ghost var known := idToOrder.Values - Linked() - {order};
      label L:
      trades := MatchHalf(order, m);
      forall o | o in known ensures o.status == old@L(o.status) {
        assert o as object != sell && o as object != buy;
      }
    }

    /** The resting half of `place_order`. */
    method RestHalf(order: OrderNode, ghost after: Books.Book)
      requires Halves() && order !in Linked() && !order.side.OtherSide?
      requires order.price > 0 && order.status != FULFILLED && order.Detached()
      requires after == Rested(View(), order.side, Priced(order.price, AsRest(order)))
      modifies buy, buy.limits.Values, buy.linked`next, sell, sell.limits.Values, sell.linked`next, order`prev
      ensures Halves() && View() == after && Linked() == old(Linked()) + {order}
      ensures fresh(buy.limits.Values - old(buy.limits.Values)) && fresh(sell.limits.Values - old(sell.limits.Values))
    {
      if order.side.Buy? { RestBuy(order, after.bids); } else { RestSell(order, after.asks); }
    }

    /** The same, with the statuses of other orders. */
    method RestKeeping(order: OrderNode, ghost after: Books.Book, ghost others: set<OrderNode>)
      requires Halves() && order !in Linked() && !order.side.OtherSide?
      requires order.price > 0 && order.status != FULFILLED && order.Detached()
      requires after == Rested(View(), order.side, Priced(order.price, AsRest(order)))
      modifies buy, buy.limits.Values, buy.linked`next, sell, sell.limits.Values, sell.linked`next, order`prev
      ensures Halves() && View() == after && Linked() == old(Linked()) + {order}
      ensures fresh(buy.limits.Values - old(buy.limits.Values)) && fresh(sell.limits.Values - old(sell.limits.Values))
      ensures forall o | o in others :: o.status == old(o.status)
    {
      label L:
      RestHalf(order, after);
      forall o | o in others ensures o.status == old@L(o.status) {
        assert o as object != sell && o as object != buy;
      }
    }

    /** The same, with the index. */
    method Rest(order: OrderNode, ghost after: Books.Book)
      requires Arriving(order) && order.price > 0 && order.status != FULFILLED && order.Detached()
      requires after == Rested(View(), order.side, Priced(order.price, AsRest(order)))
      modifies buy, buy.limits.Values, buy.linked`next, sell, sell.limits.Values, sell.linked`next, order`prev
      ensures Halves() && Tracked({}) && View() == after && Linked() == old(Linked()) + {order}
      ensures old(AllActive()) ==> (AllActive() <==> order.status == ACTIVE)
      ensures fresh(buy.limits.Values - old(buy.limits.Values)) && fresh(sell.limits.Values - old(sell.limits.Values))
    {
      RestKeeping(order, after, idToOrder.Values + Linked());
      assert ActiveOf(idToOrder) <= old(ActiveOf(idToOrder));
    }

    method RestUnlessUsed(order: OrderNode, ghost after: Books.Book)
      requires Arriving(order) && order.price > 0 && order.Detached()
      requires after == if order.status != FULFILLED
                        then Rested(View(), order.side, Priced(order.price, AsRest(order))) else View()
      modifies buy, buy.limits.Values, buy.linked`next, sell, sell.limits.Values, sell.linked`next, order`prev
      ensures Halves() && Tracked({}) && View() == after
      ensures Linked() == old(Linked()) + if order.status != FULFILLED then {order} else {}
      ensures old(AllActive()) ==> (AllActive() <==> order.status != DELETED)
      ensures NewLimits()
    {
      if order.status != FULFILLED { Rest(order, after); }
    }

    method RestRemainder(order: OrderNode, ghost after: Books.Book)
      requires Arriving(order) && order.price > 0 && order.Detached()
      requires after == if order.status != FULFILLED
                        then Rested(View(), order.side, Priced(order.price, AsRest(order))) else View()
      modifies buy, buy.limits.Values, buy.linked`next, sell, sell.limits.Values, sell.linked`next, order`prev
      ensures Halves() && Tracked({}) && View() == after && Linked() <= old(Linked()) + {order}
      ensures order in Linked() <==> order.status != FULFILLED
      ensures Alone(order) <==> Some(order.id) !in old(IdsOf(View()))
      ensures old(AllActive()) ==> (AllActive() <==> order.status != DELETED)
      ensures NewLimits()
    {
      FreeId(order);
      RestUnlessUsed(order, after);
      AloneIffFree(old(Linked()), Linked(), order);
    }

    /** An order of whatever status that neither half links. */
    ghost predicate Placeable(order: OrderNode)
      reads this, buy, sell, order
    {
      !order.side.OtherSide? && order.Detached() && order !in Linked()
    }

    /** Enter the order in the index. */
    method Register(order: OrderNode)
      requires Whole() && Placeable(order)
      modifies this`idToOrder
      ensures Arriving(order) && idToOrder == old(idToOrder)[order.id := order] && View() == old(View())
      ensures Linked() == old(Linked())
    {
      idToOrder := idToOrder[order.id := order];
    }

    /** Match a registered order and rest it, given what matching will do and the book it will leave. */
    method Trade(order: OrderNode, ghost m: Outcome, ghost after: Books.Book) returns (trades: seq<Fill>)
      requires Arriving(order) && order.status != FULFILLED && order.Detached()
      requires Ends(order) && order.price > 0 && Uncrossed(after)
      requires m == Match(NoPolicy, TakerOf(order), order.volume, Opposite(View(), order.side))
      requires after == Left(View(), TakerOf(order), order.volume, m)
      modifies order, buy, buy.limits.Values, buy.linked, sell, sell.limits.Values, sell.linked
      ensures Whole() && View() == after && Linked() <= old(Linked()) + {order}
      ensures order.status == Traded(old(order.status), old(order.volume), order.volume)
        && (order in Linked() <==> order.status != FULFILLED)
      ensures Alone(order) <==> Some(order.id) !in IdsOf(WithOpposite(old(View()), order.side, m.book))
      ensures trades == m.fills && order.volume == m.rem
      ensures old(AllActive()) ==> (AllActive() <==> order.status != DELETED)
      ensures NewLimits()
    {
      trades := Take(order, m);
      RestRemainder(order, after);
    }

    /** What an order leaves behind is uncrossed. */
    lemma LeftUncrossed(order: OrderNode, m: Outcome)
      requires Whole() && Placeable(order) && Ends(order) && order.status != FULFILLED
      requires m == Match(NoPolicy, TakerOf(order), order.volume, Opposite(View(), order.side))
      ensures Uncrossed(Left(View(), TakerOf(order), order.volume, m))
    {
      var b, t := View(), TakerOf(order);
      Sides();
      buy.BestSet();
      sell.BestSet();
      TradeUncrossed(b, t, order.volume, m);
      var b1 := WithOpposite(b, t.side, m.book);
      if m.rem > 0 || order.volume == 0 { RestUncrossed(b1, t, Order(t.id, t.client, t.px, m.rem)); }
    }

    /** What matching does with an order that arrives: nothing if it is marked as fulfilled. */
    ghost function Met(order: OrderNode): Outcome
      reads this, buy, sell, buy.limits.Values, sell.limits.Values, order
    {
      var s := Opposite(View(), order.side);
      if order.status == FULFILLED then Idle(order.volume, s) else Match(NoPolicy, TakerOf(order), order.volume, s)
    }

    /** The book after it: such an order does not rest either. */
    ghost function Next(order: OrderNode): Books.Book
      reads this, buy, sell, buy.limits.Values, sell.limits.Values, order
    {
      if order.status == FULFILLED then View() else Left(View(), TakerOf(order), order.volume, Met(order))
    }

    /** Both in terms of the book, for an order that is not marked as fulfilled: what it takes, what
        the side it faces keeps, and what rests beside. */
    lemma NextExact(order: OrderNode)
      requires Whole() && !order.side.OtherSide? && order.status != FULFILLED
      ensures var b, b', m := View(), Next(order), Met(order);
              var bound := if order.side.Buy? then AtMost(order.price) else AtLeast(order.price);
              var faced, own := if order.side.Buy? then b.asks else b.bids, if order.side.Buy? then b.bids else b.asks;
              var faced', own' := if order.side.Buy? then b'.asks else b'.bids,
                  if order.side.Buy? then b'.bids else b'.asks;
              var left := order.volume - Min(order.volume, Total(Offered(NoPolicy, None, bound, faced)));
              var rest := Order(Some(order.id), Some(order.agentId), order.price, left);
              && m.rem == left && m.fills == SweptFills(bound, faced, order.volume, Some(order.id))
              && faced' == Swept(bound, faced, order.volume)
              && (if left > 0 || order.volume == 0 then RestsIn(order.side.Buy?, own, rest, own') else own' == own)
    {
      Sides();
      var t, b := TakerOf(order), View();
      LeftExact(t, if order.side.Buy? then AtMost(order.price) else AtLeast(order.price), order.volume, b);
    }

    /** Match and rest an order that has a price, given what matching will do and the book it will leave. */
    method Place(order: OrderNode, ghost m: Outcome, ghost after: Books.Book) returns (trades: seq<Fill>)
      requires Whole() && Placeable(order) && Ends(order) && order.price > 0 && Uncrossed(after)
      requires m == Met(order) && after == Next(order)
      modifies this, order, buy, buy.limits.Values, buy.linked, sell, sell.limits.Values, sell.linked
      ensures Whole() && View() == after && Linked() <= old(Linked()) + {order}
      ensures order.status == Traded(old(order.status), old(order.volume), order.volume)
        && (order in Linked() <==> order.status != FULFILLED)
      ensures Alone(order) <==> Some(order.id) !in IdsOf(WithOpposite(old(View()), order.side, m.book))
      ensures trades == m.fills && order.volume == m.rem && idToOrder == old(idToOrder)[order.id := order]
      ensures old(AllActive()) ==> (AllActive() <==> order.status != DELETED)
      ensures NewLimits()
    {
      Register(order);
      if order.status == FULFILLED {
        // neither loop nor insertion is entered
        FreeId(order);
        return [];
      }
      trades := Trade(order, m, after);
    }

    twostate lemma ReprGrows(order: OrderNode)
      requires Linked() <= old(Linked()) + {order} && idToOrder == old(idToOrder)[order.id := order]
      requires NewLimits()
      ensures forall x | x in Repr() :: x in old(Repr()) || x == order || fresh(x)
    {
      forall x | x in Repr() ensures x in old(Repr()) || x == order || fresh(x) {
        if l: Limit :| l in buy.limits.Values + sell.limits.Values && x == l { }
      }
    }

    /** Match an order and rest what is left of it; a price of 0 or less does nothing. The index
        keeps finding every linked order exactly when, after matching, none rests under the id; the
        linked orders stay active exactly when the order did not come as a deleted one and rest. */
    method PlaceOrder(order: OrderNode) returns (trades: seq<Fill>)
      requires Whole() && Placeable(order) && (order.price > 0 ==> Ends(order))
      modifies Repr(), order
      ensures Whole() && forall x | x in Repr() :: x in old(Repr()) || x == order || fresh(x)
      ensures order.price <= 0 ==>
        trades == [] && View() == old(View()) && idToOrder == old(idToOrder) && order.volume == old(order.volume)
          && Indexed() == old(Indexed()) && AllActive() == old(AllActive())
      ensures order.price > 0 ==>
        var m := old(Met(order));
        && trades == m.fills && order.volume == m.rem && idToOrder == old(idToOrder)[order.id := order]
        && View() == old(Next(order))
        && order.status == Traded(old(order.status), old(order.volume), order.volume)
        && (old(Indexed()) ==> (Indexed() <==> Some(order.id) !in IdsOf(WithOpposite(old(View()), order.side, m.book))))
        && (old(AllActive()) ==> (AllActive() <==> order.status != DELETED))
      ensures order.price > 0 ==>
        Linked() <= old(Linked()) + {order} && (order in Linked() <==> order.status != FULFILLED)
    {
      if order.price <= 0 { return []; }
      ghost var m := Met(order);
      if order.status != FULFILLED { LeftUncrossed(order, m); }
      trades := Place(order, m, Next(order));
      ReprGrows(order);
      if old(Indexed()) { IndexExtended(old(idToOrder), old(Linked()), Linked(), order); }
    }

    /** `after` is the book without the order's entry, the first one under its id if it is alone. */
    ghost predicate Deleted(order: OrderNode, after: Books.Book)
      reads this, buy, sell, buy.limits.Values, sell.limits.Values, order
    {
      if order.side.Buy? then after.asks == View().asks && buy.Deleted(order, after.bids)
      else after.bids == View().bids && sell.Deleted(order, after.asks)
    }

    method DeleteBuy(order: OrderNode) returns (ghost after: Books.Book)
      requires Halves() && order in buy.linked && order.side.Buy?
      modifies buy, buy.limits.Values, buy.linked`prev, buy.linked`next, order`status
      ensures Halves() && old(Deleted(order, after)) && View() == after
      ensures order.status == DELETED && order.Detached()
      ensures Linked() == old(Linked()) - {order} && NoNewLimits()
    {
      buy.ApartFrom(sell);
      ghost var b := View();
      ghost var flat := buy.DeleteBeside(order, sell);
      after := b.(bids := flat);
    }

    method DeleteSell(order: OrderNode) returns (ghost after: Books.Book)
      requires Halves() && order in sell.linked && !order.side.Buy?
      modifies sell, sell.limits.Values, sell.linked`prev, sell.linked`next, order`status
      ensures Halves() && old(Deleted(order, after)) && View() == after
      ensures order.status == DELETED && order.Detached()
      ensures Linked() == old(Linked()) - {order} && NoNewLimits()
    {
      buy.ApartFrom(sell);
      ghost var b := View();
      ghost var flat := sell.DeleteBeside(order, buy);
      after := b.(asks := flat);
    }

    method DeleteLinked(order: OrderNode) returns (ghost after: Books.Book)
      requires Halves() && order in Linked()
      modifies buy, buy.limits.Values, buy.linked`prev, buy.linked`next
      modifies sell, sell.limits.Values, sell.linked`prev, sell.linked`next, order`status
      ensures Halves() && old(Deleted(order, after)) && View() == after && order.status == DELETED && order.Detached()
      ensures Linked() == old(Linked()) - {order} && NoNewLimits()
    {
      OnItsSide(order);
      if order.side.Buy? { after := DeleteBuy(order); } else { after := DeleteSell(order); }
    }

    /** What a deletion means for the book as a whole. */
    ghost predicate Sequel(order: OrderNode, after: Books.Book)
      reads this, buy, sell, buy.limits.Values, sell.limits.Values, order
    {
      && Deleted(order, after) && Uncrossed(after)
      && (Alone(order) ==> after == Cancelled(View(), order.side, order.price, Some(order.id)))
    }

    lemma Sequels(order: OrderNode)
      requires Uncrossed(View()) && !order.side.OtherSide?
      ensures forall after: Books.Book | Deleted(order, after) :: Sequel(order, after)
    {
      forall after: Books.Book | Deleted(order, after) ensures Sequel(order, after) {
        if order.side.Buy? {
          CutPrices(View().bids, after.bids, Priced(order.price, AsRest(order)));
        } else {
          CutPrices(View().asks, after.asks, Priced(order.price, AsRest(order)));
        }
      }
    }

    /** An order that is linked and indexed is alone under its id, if every linked order is indexed. */
    lemma AloneUnderId(order: OrderNode)
      requires Whole() && Indexed() && order in idToOrder.Values
      ensures Alone(order)
    {
      forall o | o in Linked() && o.id == order.id ensures o == order {
        KnownUnderId(idToOrder, o);
        KnownUnderId(idToOrder, order);
      }
    }

    method DeleteAndFollow(order: OrderNode) returns (ghost after: Books.Book)
      requires Halves() && Uncrossed(View()) && order in Linked()
      modifies buy, buy.limits.Values, buy.linked`prev, buy.linked`next
      modifies sell, sell.limits.Values, sell.linked`prev, sell.linked`next, order`status
      ensures Halves() && old(Sequel(order, after)) && View() == after && Uncrossed(after)
      ensures order.status == DELETED && order.Detached()
      ensures Linked() == old(Linked()) - {order} && NoNewLimits()
    {
      OnItsSide(order);
      Sequels(order);
      after := DeleteLinked(order);
    }

    /** The same, with the statuses of all other orders. */
    method DeleteKeeping(order: OrderNode, ghost others: set<OrderNode>) returns (ghost after: Books.Book)
      requires Halves() && Uncrossed(View()) && order in Linked() && order !in others
      modifies buy, buy.limits.Values, buy.linked`prev, buy.linked`next
      modifies sell, sell.limits.Values, sell.linked`prev, sell.linked`next, order`status
      ensures Halves() && old(Sequel(order, after)) && View() == after && Uncrossed(after)
      ensures order.status == DELETED && order.Detached()
      ensures Linked() == old(Linked()) - {order} && NoNewLimits()
      ensures forall o | o in others :: o.status == old(o.status)
    {
      label L:
      after := DeleteAndFollow(order);
      forall o | o in others ensures o.status == old@L(o.status) {
        assert o as object != sell && o as object != buy;
      }
    }

    /** Delete a known active order. */
    method DeleteActive(order: OrderNode) returns (ghost after: Books.Book)
      requires Whole() && order in idToOrder.Values && order.status == ACTIVE
      modifies buy, buy.limits.Values, buy.linked`prev, buy.linked`next
      modifies sell, sell.limits.Values, sell.linked`prev, sell.linked`next, order`status
      ensures Whole() && old(Sequel(order, after)) && View() == after && order.status == DELETED && order.Detached()
      ensures old(AllActive()) ==> AllActive()
      ensures Linked() == old(Linked()) - {order} && NoNewLimits()
    {
      after := DeleteKeeping(order, idToOrder.Values + Linked() - {order});
    }

    /** The index has an active order under this id. */
    ghost predicate Active(id: int)
      reads this, idToOrder.Values
    {
      id in idToOrder && idToOrder[id].status == ACTIVE
    }

    /** Delete the order of this id if it is active; otherwise nothing changes. Exactly that order's
        entry leaves the book, which is cancelling by price and id while the index is complete. */
    method DeleteOrder(id: int) returns (ghost after: Books.Book)
      requires Whole()
      modifies Repr() - {this}
      ensures Whole() && View() == after && Repr() <= old(Repr()) && (old(Indexed()) ==> Indexed())
      ensures old(AllActive()) ==> AllActive()
      ensures old(Active(id)) ==>
        var o := idToOrder[id];
        && o.status == DELETED && o.Detached() && o.volume == old(idToOrder[id].volume)
        && Linked() == old(Linked()) - {o} && old(Deleted(idToOrder[id], after))
        && (old(Indexed()) ==> after == Cancelled(old(View()), o.side, o.price, Some(id)))
      ensures !old(Active(id)) ==>
        after == old(View()) && Linked() == old(Linked()) && (id in idToOrder ==> unchanged(idToOrder[id]))
    {
      after := View();
      if id in idToOrder && idToOrder[id].status == ACTIVE {
        var o := idToOrder[id];
        if Indexed() { AloneUnderId(o); }
        after := DeleteActive(o);
      }
    }

    /** A known order is active exactly when it is linked, and then its side lists it with its whole volume. */
    lemma ActiveIffResting(id: int)
      requires Valid() && id in idToOrder
      ensures var o := idToOrder[id];
              o.status == ACTIVE <==> o in Linked()
      ensures var o := idToOrder[id];
              o.status == ACTIVE ==> Priced(o.price, AsRest(o)) in (if o.side.Buy? then View().bids else View().asks)
    {
      var o := idToOrder[id];
      Apart();
      assert o in idToOrder.Values;
      if o in buy.linked { buy.FlatsLinked(Priced(o.price, AsRest(o))); }
      if o in sell.linked { sell.FlatsLinked(Priced(o.price, AsRest(o))); }
    }

    /** Whatever rests in the book is a known active order. */
    lemma RestingKnown(e: Order)
      requires Valid() && (e in View().bids || e in View().asks)
      ensures e.id.Some? && e.id.value in idToOrder
      ensures var o := idToOrder[e.id.value];
              o.status == ACTIVE && e == Priced(o.price, AsRest(o))
    {
      Apart();
      buy.FlatsLinked(e);
      sell.FlatsLinked(e);
      var o :| o in Linked() && e == Priced(o.price, AsRest(o));
      KnownUnderId(idToOrder, o);
    }

    /** The index has an active order under an id exactly when an order of that id rests. */
    lemma ActiveIffListed(id: int)
      requires Valid()
      ensures id in idToOrder && idToOrder[id].status == ACTIVE <==> Some(id) in Ids(View().bids) + Ids(View().asks)
    {
      if id in idToOrder && idToOrder[id].status == ACTIVE {
        ActiveIffResting(id);
        var o := idToOrder[id];
        assert Priced(o.price, AsRest(o)).id == Some(id);
      } else if Some(id) in Ids(View().bids) + Ids(View().asks) {
        var e :| (e in View().bids || e in View().asks) && e.id == Some(id);
        RestingKnown(e);
        assert false;
      }
    }

    /** An order is reported as active exactly when the book lists it, and an unknown one as deleted. */
    method GetOrderStatus(id: int) returns (s: OrderStatus)
      ensures Valid() ==> (s == ACTIVE <==> Some(id) in Ids(View().bids) + Ids(View().asks))
      ensures if id in idToOrder then s == idToOrder[id].status else s == DELETED
    {
      if Valid() { ActiveIffListed(id); }
      return if id in idToOrder then idToOrder[id].status else DELETED;
    }
  }

  // ----- the failures -----

  /** Place a sell while nothing is bid: it only rests. */
  method PlaceFirst(book: Book, order: OrderNode, ghost after: seq<Order>)
    requires book.Valid() && book.Placeable(order) && order.side == Sell && book.View().bids == []
    requires order.price > 0 && order.volume > 0 && order.status != FULFILLED
    requires var o := Order(Some(order.id), Some(order.agentId), order.price, order.volume);
             after == Insert(Sell, book.View().asks, o)
    modifies book.Repr(), order
    ensures book.Whole() && forall x | x in book.Repr() :: x in old(book.Repr()) || x == order || fresh(x)
    ensures book.View() == Books.Book([], after)
    ensures order in book.Linked() && order.status == old(order.status) && order.volume == old(order.volume)
    ensures book.Linked() <= old(book.Linked()) + {order}
    ensures book.idToOrder == old(book.idToOrder)[order.id := order]
    ensures book.AllActive() <==> order.status == ACTIVE
    ensures book.Indexed() <==> Some(order.id) !in old(IdsOf(book.View()))
  {
    ghost var m := Match(NoPolicy, TakerOf(order), order.volume, []);
    assert m == Idle(order.volume, []);
    var none := book.PlaceOrder(order);
  }

  method FirstSell(book: Book, order: OrderNode, ghost a: Order)
    requires book.Valid() && book.View() == EMPTY && book.Linked() == {} && book.idToOrder == map[]
    requires book.Placeable(order) && order.side == Sell && order.volume > 0 && order.price > 0
    requires order.status == ACTIVE
    requires a == Order(Some(order.id), Some(order.agentId), order.price, order.volume)
    modifies book.Repr(), order
    ensures book.Valid() && book.View() == Books.Book([], [a])
    ensures forall x | x in book.Repr() :: x in old(book.Repr()) || x == order || fresh(x)
    ensures book.Linked() == {order} && book.idToOrder == map[order.id := order]
    ensures order.volume == old(order.volume)
  {
    PlaceFirst(book, order, [a]);
  }

  /** A book in which one sell of 5 at 100 rests. */
  method OneSell(id: int, agent: int) returns (book: Book, order: OrderNode)
    ensures book.Valid() && fresh(book.Repr()) && fresh(order)
    ensures book.View() == Books.Book([], [Order(Some(id), Some(agent), 100, 5)])
    ensures book.Linked() == {order} && book.idToOrder == map[id := order] && order.id == id
    ensures order.agentId == agent && order.side == Sell && order.price == 100 && order.volume == 5
  {
    book := new Book();
    order := new OrderNode(id, agent, Sell, 100, 5);
    ghost var empty := book.Repr();
    assert forall x | x in empty :: fresh(x);
    FirstSell(book, order, Order(Some(id), Some(agent), 100, 5));
  }

  lemma SellBest(book: Book)
    requires book.Halves()
    ensures book.sell.Valid() && book.sell.side == Sell && book.buy != book.sell
    ensures book.sell.best != 0 ==> book.sell.best in book.sell.limits
    ensures book.View().asks != [] ==> book.sell.best == book.View().asks[0].px > 0
  {
    book.sell.BestSet();
    book.Apart();
  }

  /** A round of the matching loop for a buy that does not end. */
  method SpinOnce(book: Book, bid: OrderNode) returns (trades: seq<Fill>)
    requires book.Valid() && book.Placeable(bid) && bid.side == Buy && !book.Ends(bid)
    modifies book.Repr(), bid
    ensures trades == [] && book.Valid() && book.View() == old(book.View())
    ensures bid.volume == old(bid.volume) && book.Placeable(bid) && !book.Ends(bid)
  {
    SellBest(book);
    assert book.sell.limits[book.sell.best] in book.Repr();
    ghost var ok, view, known := book.Valid(), book.View(), book.idToOrder.Values;
    label L:
    trades := book.sell.SpinRound(bid);
    assert unchanged@L(known);
    assert book.Valid() == ok && book.View() == view;
  }

  /** A sell of 5 rests and a buy without volume comes at its price: after a round of the matching
      loop that trades nothing, book and order are as before and the order still meets the sell. */
  method ZeroVolumeSpins() returns (book: Book, bid: OrderNode, trades: seq<Fill>)
    ensures book.Valid() && book.View() == Books.Book([], [Order(Some(1), Some(7), 100, 5)])
    ensures bid.side == Buy && bid.price == 100 && bid.volume == 0 && book.Placeable(bid) && !book.Ends(bid)
    ensures trades == [] && book.sell.Meets(bid)
  {
    var ask;
    book, ask := OneSell(1, 7);
    bid := new OrderNode(2, 8, Buy, 100, 0);
    SellBest(book);
    trades := SpinOnce(book, bid);
  }

  lemma BehindBetter(asks: seq<Order>, a: Order, b: Order)
    requires asks == [a] && a.px < b.px
    ensures Insert(Sell, asks, b) == [a, b]
  {
    assert [a][1..] == [];
  }

  /** A second sell, at a worse price and under the id of the first. */
  method SecondSell(book: Book, first: OrderNode, second: OrderNode, ghost a: Order, ghost b: Order)
    requires book.Valid() && book.View() == Books.Book([], [a]) && book.Linked() == {first}
    requires book.idToOrder == map[first.id := first] && first.id == second.id && second != first && a.px < b.px
    requires book.Placeable(second) && second.side == Sell && second.volume > 0 && second.price > 0
    requires second.status == ACTIVE
    requires b == Order(Some(second.id), Some(second.agentId), second.price, second.volume)
    modifies book.Repr(), second
    ensures book.Halves() && book.AllActive() && book.View().asks == [a, b]
    ensures book.Linked() <= {first, second} && book.idToOrder == map[first.id := second]
  {
    BehindBetter(book.View().asks, a, b);
    PlaceFirst(book, second, [a, b]);
  }

  lemma Stranded(book: Book, first: OrderNode, second: OrderNode, a: Order)
    requires book.Halves() && book.AllActive() && book.Linked() <= {first, second}
    requires a in book.View().asks && a.px != second.price
    requires first.id == second.id && book.idToOrder == map[first.id := second] && first != second
    ensures first in book.Linked() && first.status == ACTIVE && first !in book.idToOrder.Values
  {
    book.Apart();
    book.sell.FlatsLinked(a);
  }

  /** Two sells under one id: both rest, and the index has lost the first, which no deletion
      can reach any more. */
  method SharedIdStrands() returns (book: Book, first: OrderNode)
    ensures !book.Indexed()
    ensures book.View().asks == [Order(Some(7), Some(1), 100, 5), Order(Some(7), Some(2), 200, 5)]
    ensures first in book.Linked() && first.status == ACTIVE && first !in book.idToOrder.Values
  {
    book, first := OneSell(7, 1);
    var second := new OrderNode(7, 2, Sell, 200, 5);
    SecondSell(book, first, second, Order(Some(7), Some(1), 100, 5), Order(Some(7), Some(2), 200, 5));
    Stranded(book, first, second, Order(Some(7), Some(1), 100, 5));
  }

  /** Delete the one order of a book. */
  method DeleteOnly(book: Book, order: OrderNode, ghost a: Order)
    requires book.Valid() && book.Linked() == {order} && book.idToOrder == map[order.id := order]
    requires order.side == Sell && a == Priced(order.price, AsRest(order)) && book.View() == Books.Book([], [a])
    modifies book.Repr()
    ensures book.Valid() && book.View() == EMPTY && book.Linked() == {} && book.idToOrder == map[order.id := order]
    ensures forall x | x in book.Repr() :: x in old(book.Repr())
    ensures order.status == DELETED && order.Detached() && order.volume == old(order.volume)
  {
    assert Remove([], a.px, a.id) == [] && [a][1..] == [];
    ghost var after := book.DeleteOrder(order.id);
  }

  /** Place a deleted sell into the empty book: it rests, but is not active any more. */
  method PlaceDeleted(book: Book, order: OrderNode, ghost a: Order)
    requires book.Valid() && book.Linked() == {} && book.View() == EMPTY && book.idToOrder == map[order.id := order]
    requires order.side == Sell && order.status == DELETED && order.Detached()
    requires order.price > 0 && order.volume > 0 && a == Priced(order.price, AsRest(order))
    modifies book.Repr(), order
    ensures book.Whole() && book.View() == Books.Book([], [a]) && book.idToOrder == map[order.id := order]
    ensures book.Linked() == {order} && order.status == DELETED
    ensures forall x | x in book.Repr() :: x in old(book.Repr()) || x == order || fresh(x)
  {
    PlaceFirst(book, order, [a]);
  }

  /** A deletion of an indexed order that is not active passes it by. */
  method DeleteInactive(book: Book, order: OrderNode)
    requires book.Whole() && order.id in book.idToOrder && book.idToOrder[order.id] == order && order.status != ACTIVE
    modifies book.Repr()
    ensures book.Whole() && book.View() == old(book.View()) && book.Linked() == old(book.Linked())
    ensures book.idToOrder == old(book.idToOrder) && order.status == old(order.status)
  {
    ghost var after := book.DeleteOrder(order.id);
  }

  /** A sell rests, is deleted and placed again: it rests as before and the index finds it, but it is
      not active any more, so that another deletion passes it by. */
  method DeletedStays() returns (book: Book, order: OrderNode)
    ensures book.Whole() && book.idToOrder == map[1 := order]
    ensures book.Linked() == {order} && order.status == DELETED
    ensures book.View() == Books.Book([], [Order(Some(1), Some(7), 100, 5)])
  {
    ghost var a := Order(Some(1), Some(7), 100, 5);
    book, order := OneSell(1, 7);
    ghost var full := book.Repr();
    DeleteOnly(book, order, a);
    ghost var empty := book.Repr();
    assert forall x | x in empty :: x in full && fresh(x);
    PlaceDeleted(book, order, a);
    DeleteInactive(book, order);
  }
}
