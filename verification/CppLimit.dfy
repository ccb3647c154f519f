// Orders and price limits of the C++ order book: a doubly linked list of orders with
// cached length and total volume, kept in step with the queue the list stands for.
module CppLimit {
  import opened Flat
  import Ladder

  datatype OrderStatus = ACTIVE | FULFILLED | DELETED

  class OrderNode {
    const id: int
    const agentId: int
    const side: Side
    const price: int
    const initialVolume: nat
    var volume: nat
    var status: OrderStatus
    var prev: OrderNode?
    var next: OrderNode?

    constructor (id: int, agentId: int, side: Side, price: int, volume: nat)
      ensures this.id == id && this.agentId == agentId && this.side == side && this.price == price
      ensures this.initialVolume == this.volume == volume && status == ACTIVE && prev == null && next == null
    {
      this.id, this.agentId, this.side, this.price := id, agentId, side, price;
      initialVolume, this.volume, status, prev, next := volume, volume, ACTIVE, null, null;
    }

    /** Take `v` from the volume; `ok` is false where the original throws, and nothing changes. */
    method Fill(v: nat) returns (ok: bool)
      modifies this`volume, this`status
      ensures ok <==> v <= old(volume)
      ensures !ok ==> volume == old(volume) && status == old(status)
      ensures ok ==> volume == old(volume) - v && status == if volume == 0 then FULFILLED else old(status)
    {
      if v > volume { return false; }
      volume := volume - v;
      if volume == 0 { status := FULFILLED; }
      return true;
    }

    /** In no list. */
    predicate Detached()
      reads this
    {
      prev == null && next == null
    }

    predicate IsFulfilled()
      reads this
    {
      volume == 0
    }
  }

  /** The node at a position, or null beyond the ends. */
  ghost function Nth(s: seq<OrderNode>, i: int): OrderNode? {
    if 0 <= i < |s| then s[i] else null
  }

  ghost predicate Distinct(s: seq<OrderNode>) {
    forall i, j | 0 <= i < j < |s| :: s[i] != s[j]
  }

  /** The status after trading from volume `before` to `volume`: an order is marked as
      fulfilled by the fill that uses it up, not by having no volume. */
  function Traded(status: OrderStatus, before: nat, volume: nat): OrderStatus {
    if volume == 0 && before > 0 then FULFILLED else status
  }

  /** The order's volume only fell, and being used up marked it as fulfilled. */
  twostate predicate Lessened(order: OrderNode)
    reads order
  {
    order.volume <= old(order.volume) && order.status == Traded(old(order.status), old(order.volume), order.volume)
  }

  /** Of the orders in `was`, those in `now` have the status given there and the others are fulfilled. */
  ghost predicate Dealt(was: map<OrderNode, OrderStatus>, now: set<OrderNode>)
    reads was.Keys
  {
    now <= was.Keys && forall o | o in was :: o.status == if o in now then was[o] else FULFILLED
  }

  ghost function AsRest(o: OrderNode): Rest
    reads o`volume
  {
    Rest(Some(o.id), Some(o.agentId), o.volume)
  }

  lemma {:induction false} QtyConcat(a: seq<Rest>, b: seq<Rest>)
    ensures Ladder.QueueQty(a + b) == Ladder.QueueQty(a) + Ladder.QueueQty(b)
  {
    if a == [] {
      assert a + b == b;
    } else {
      assert (a + b)[1..] == a[1..] + b;
      QtyConcat(a[1..], b);
    }
  }

  lemma QtyAppend(q: seq<Rest>, r: Rest)
    ensures Ladder.QueueQty(q + [r]) == Ladder.QueueQty(q) + r.qty
  {
    QtyConcat(q, [r]);
    assert [r][1..] == [];
  }

  lemma QtySplit(q: seq<Rest>, k: nat)
    requires k < |q|
    ensures Ladder.QueueQty(q) == Ladder.QueueQty(q[..k] + q[k + 1..]) + q[k].qty
  {
    QtyConcat(q[..k], q[k + 1..]);
    QtyConcat(q[..k], [q[k]] + q[k + 1..]);
    assert q == q[..k] + ([q[k]] + q[k + 1..]);
    assert ([q[k]] + q[k + 1..])[1..] == q[k + 1..];
  }

  lemma {:induction false} QtyNonneg(q: seq<Rest>)
    requires forall i | 0 <= i < |q| :: q[i].qty >= 0
    ensures Ladder.QueueQty(q) >= 0
  {
    if q == [] {
    } else {
      QtyNonneg(q[1..]);
    }
  }

  lemma DropFirst<T>(s: seq<T>)
    requires s != []
    ensures s[..0] + s[1..] == s[1..]
  {}

  /** What one fill against the head of a queue makes of the outcome. */
  lemma HeadContact(t: Taker, price: int, q: seq<Rest>, rest: seq<Order>, acc0: Outcome) returns (acc: Outcome)
    requires q != [] && !acc0.stopped && acc0.rem > 0 && acc0.book == At(price, q) + rest && Crosses(t, price)
    ensures Resume(NoPolicy, t, acc) == Resume(NoPolicy, t, acc0) && !acc.stopped
    ensures var v := Min(q[0].qty, acc0.rem);
            && acc.rem == acc0.rem - v && acc.fills == acc0.fills + [Fill(price, v, t.id, q[0].id)]
            && acc.book == At(price, if v == q[0].qty then q[1..] else [q[0].(qty := q[0].qty - v)] + q[1..]) + rest
  {
    Ladder.ContactAt(NoPolicy, t, acc0.rem, price, q, rest);
    ResumeContact(NoPolicy, t, acc0);
    acc := Then(acc0, Contact(NoPolicy, t, acc0.rem, acc0.book));
  }

  lemma AppendOn(a: seq<Fill>, b: seq<Fill>, f: Fill)
    ensures (a + b) + [f] == a + (b + [f])
  {}

  class Limit {
    const price: int
    ghost const side: Side
    var length: nat
    var totalVolume: nat
    var head: OrderNode?
    var tail: OrderNode?
    ghost var list: seq<OrderNode>
    ghost var queue: seq<Rest>
    ghost var nodes: set<OrderNode>

    /** The listed nodes are among `nodes`, which all belong to this price and side. */
    ghost predicate Owned()
      reads this`list, this`nodes
    {
      && (forall i | 0 <= i < |list| :: list[i] in nodes) && |nodes| == |list|
      && (forall o | o in nodes :: o.price == price && o.side == side)
    }

    /** The links, head and tail form exactly the list. */
    ghost predicate Links()
      requires Owned()
      reads this`list, this`nodes, this`head, this`tail, nodes`prev, nodes`next
    {
      && head == Nth(list, 0) && tail == Nth(list, |list| - 1)
      && (forall i {:trigger list[i].prev} | 0 <= i < |list| :: list[i].prev == Nth(list, i - 1))
      && (forall i {:trigger list[i].next} | 0 <= i < |list| :: list[i].next == Nth(list, i + 1))
      && Distinct(list)
    }

    /** The nodes `l` stand for the queue `q` at this price and side. */
    ghost predicate Stands(l: seq<OrderNode>, q: seq<Rest>)
      reads l
    {
      |l| == |q| && forall i | 0 <= i < |l| :: AsRest(l[i]) == q[i]
    }

    /** The caches equal what a walk of the list would find. */
    ghost predicate Counts()
      requires Owned()
      reads this, nodes
    {
      length == |list| && totalVolume == Ladder.QueueQty(queue) && Stands(list, queue)
    }

    lemma StandsCut(l: seq<OrderNode>, q: seq<Rest>, k: nat)
      requires Stands(l, q) && k < |l|
      ensures Stands(l[..k] + l[k + 1..], q[..k] + q[k + 1..])
    {}

    ghost predicate Chain()
      reads this, nodes
    {
      Owned() && Links() && Counts()
    }

    /** No linked order is marked as fulfilled. */
    ghost predicate Live()
      requires Owned()
      reads this, nodes
    {
      forall i | 0 <= i < |list| :: list[i].status != FULFILLED
    }

    ghost predicate LiveBut(k: nat)
      requires Owned()
      reads this, nodes
    {
      forall i | 0 <= i < |list| && i != k :: list[i].status != FULFILLED
    }

    constructor (price: int, ghost side: Side)
      ensures Chain() && Live() && list == [] && nodes == {} && this.price == price && this.side == side
    {
      this.price, this.side := price, side;
      length, totalVolume, head, tail, list, queue, nodes := 0, 0, null, null, [], [], {};
    }

    /** The pointer part of an insertion. */
    method AppendNode(order: OrderNode)
      requires Owned() && Links() && order !in nodes && order.Detached()
        && (length == 0 <==> list == [])
      requires order.price == price && order.side == side
      modifies this`head, this`tail, this`list, this`nodes, order`prev, nodes`next
      ensures Owned() && Links() && list == old(list) + [order] && nodes == old(nodes) + {order}
    {
      ghost var l := list;
      if length == 0 {
        head, tail := order, order;
      } else {
        tail.next := order;
        order.prev := tail;
        tail := order;
      }
      list, nodes := list + [order], nodes + {order};
      assert forall i | 0 <= i < |l| :: list[i] == l[i] && l[i] != order;
    }

    method InsertOrder(order: OrderNode)
      requires Chain() && Live() && order !in nodes && order.price == price && order.side == side
      requires order.Detached() && order.status != FULFILLED
      modifies this, order`prev, nodes`next
      ensures Chain() && Live() && list == old(list) + [order] && queue == old(queue) + [AsRest(order)]
        && nodes == old(nodes) + {order}
    {
      AppendNode(order);
      QtyAppend(queue, AsRest(order));
      totalVolume := totalVolume + order.volume;
      length := length + 1;
      queue := queue + [AsRest(order)];
    }

    /** The neighbours of position `k` point past it, and so do head and tail. */
    ghost predicate Bypassed(l: seq<OrderNode>, k: nat)
      requires k < |l|
      reads this, l
    {
      && head == Nth(l, if k == 0 then 1 else 0) && tail == Nth(l, if k == |l| - 1 then k - 1 else |l| - 1)
      && (forall i {:trigger l[i].prev} | 0 <= i < |l|
         && i != k :: l[i].prev == Nth(l, if i == k + 1 then k - 1 else i - 1))
      && (forall i {:trigger l[i].next} | 0 <= i < |l|
         && i != k :: l[i].next == Nth(l, if i == k - 1 then k + 1 else i + 1))
    }

    /** The pointer part of a deletion. */
    method Unlink(order: OrderNode, ghost k: nat)
      requires Owned() && Links() && k < |list| && list[k] == order && length == |list|
      modifies this`head, this`tail, nodes`prev, nodes`next
      ensures Owned() && Bypassed(list, k) && order.Detached()
    {
      ghost var l := list;
      if length == 1 {
        head, tail := null, null;
      } else if order == head {
        head := order.next;
        order.next.prev := null;
      } else if order == tail {
        tail := order.prev;
        order.prev.next := null;
      } else {
        order.prev.next := order.next;
        order.next.prev := order.prev;
      }
      order.prev := null;
      order.next := null;
    }

    /** Bypassing a node leaves the list without it. */
    method CutList(ghost k: nat)
      requires k < |list| && Owned() && Bypassed(list, k) && Distinct(list)
      modifies this`list, this`nodes
      ensures Owned() && Links() && list == old(list)[..k] + old(list)[k + 1..] && nodes == old(nodes) - {old(list)[k]}
    {
      ghost var l := list;
      list, nodes := l[..k] + l[k + 1..], nodes - {l[k]};
      assert forall i | 0 <= i < |list| :: list[i] == l[if i < k then i else i + 1];
    }

    method RemoveNode(order: OrderNode, ghost k: nat)
      requires Chain() && k < |list| && list[k] == order
      modifies this`head, this`tail, this`list, this`nodes, nodes`prev, nodes`next
      ensures Owned() && Links() && list == old(list)[..k] + old(list)[k + 1..] && nodes == old(nodes) - {order}
      ensures Stands(list, queue[..k] + queue[k + 1..])
      ensures order.Detached()
    {
      Unlink(order, k);
      StandsCut(list, queue, k);
      CutList(k);
    }

    method DropCounts(volume: nat, ghost k: nat)
      requires k < |queue| && queue[k].qty == volume && totalVolume == Ladder.QueueQty(queue)
      requires Owned() && length == |list| + 1 && Stands(list, queue[..k] + queue[k + 1..])
      modifies this`totalVolume, this`length, this`queue
      ensures Counts() && queue == old(queue)[..k] + old(queue)[k + 1..]
    {
      QtySplit(queue, k);
      QtyNonneg(queue[..k] + queue[k + 1..]);
      totalVolume := totalVolume - volume;
      length := length - 1;
      queue := queue[..k] + queue[k + 1..];
    }

    /** The part of a deletion after the pointers. */
    method Retire(order: OrderNode, ghost k: nat)
      requires k < |queue| && queue[k].qty == order.volume && totalVolume == Ladder.QueueQty(queue)
      requires Owned() && length == |list| + 1 && Stands(list, queue[..k] + queue[k + 1..])
      modifies this`totalVolume, this`length, this`queue, order`status
      ensures Counts() && queue == old(queue)[..k] + old(queue)[k + 1..]
      ensures order.status == if old(order.status) == FULFILLED then FULFILLED else DELETED
    {
      if order.status != FULFILLED {
        order.status := DELETED;
      }
      DropCounts(order.volume, k);
    }

    method DeleteOrder(order: OrderNode, ghost k: nat)
      requires Chain() && k < |list| && list[k] == order
      modifies this, nodes`prev, nodes`next, order`status
      ensures Chain() && list == old(list)[..k] + old(list)[k + 1..] && queue == old(queue)[..k] + old(queue)[k + 1..]
      ensures nodes == old(nodes) - {order}
      ensures order.Detached()
      ensures order.status == if old(order.status) == FULFILLED then FULFILLED else DELETED
      ensures old(LiveBut(k)) ==> Live()
    {
      RemoveNode(order, k);
      Retire(order, k);
    }

    /** Discount a fill of the head from the cached volume. */
    method Discount(v: nat)
      requires Owned() && list != [] && length == |list| == |queue| && totalVolume == Ladder.QueueQty(queue)
      requires v <= queue[0].qty && Stands(list, [queue[0].(qty := queue[0].qty - v)] + queue[1..])
      modifies this`totalVolume, this`queue
      ensures Counts() && queue == [old(queue)[0].(qty := old(queue)[0].qty - v)] + old(queue)[1..]
    {
      ghost var q := queue[1..];
      queue := [queue[0].(qty := queue[0].qty - v)] + q;
      assert queue[1..] == q;
      QtyNonneg(queue);
      totalVolume := totalVolume - v;
    }

    /** Fill both orders by `v`; neither fill can throw. */
    method FillPair(order: OrderNode, ghost h: OrderNode, v: nat)
      requires Chain() && list != [] && h == list[0] && order !in nodes && v <= h.volume && v <= order.volume
      requires order.volume > 0
      modifies h`volume, h`status, order`volume, order`status
      ensures Stands(list, [queue[0].(qty := queue[0].qty - v)] + queue[1..])
      ensures h.volume == old(h.volume) - v && h.status == if h.volume == 0 then FULFILLED else old(h.status)
      ensures order.volume == old(order.volume) - v
      ensures order.status == Traded(old(order.status), old(order.volume), order.volume)
    {
      assert forall i | 0 < i < |list| :: list[i] != h;
      var ok := head.Fill(v);
      assert ok;
      ok := order.Fill(v);
      assert ok;
    }

    /** Fill both orders by the smaller volume. */
    method FillBoth(order: OrderNode, ghost h: OrderNode) returns (v: nat)
      requires Chain() && list != [] && h == list[0] && order !in nodes && order.volume > 0
      modifies this`totalVolume, this`queue, h`volume, h`status, order`volume, order`status
      ensures Chain() && v == Min(old(h.volume), old(order.volume))
      ensures queue == [old(queue)[0].(qty := old(queue)[0].qty - v)] + old(queue)[1..]
      ensures h.status == if h.volume == 0 then FULFILLED else old(h.status)
      ensures order.volume == old(order.volume) - v
      ensures order.status == Traded(old(order.status), old(order.volume), order.volume)
    {
      ghost var linked := Links();
      v := Min(head.volume, order.volume);
      FillPair(order, h, v);
      assert Links() == linked;
      Discount(v);
      assert Links() == linked;
    }

    /** Where matching stands: `acc` is done, the rest of the way leads to `m`. */
    ghost predicate Matching(order: OrderNode, t: Taker, acc: Outcome, m: Outcome, rest: seq<Order>)
      reads this, order
    {
      && Resume(NoPolicy, t, acc) == m && !acc.stopped && acc.rem == order.volume
      && acc.book == At(price, queue) + rest
    }

    method DeleteHead(ghost h: OrderNode)
      requires Chain() && list != [] && h == list[0] && forall i | 0 < i < |list| :: list[i].status != FULFILLED
      modifies this, nodes`prev, nodes`next, h`status
      ensures Chain() && Live() && list == old(list)[1..] && queue == old(queue)[1..] && nodes == old(nodes) - {h}
      ensures h.status == if old(h.status) == FULFILLED then FULFILLED else DELETED
    {
      ghost var l, q := list, queue;
      DropFirst(l);
      DropFirst(q);
      DeleteOrder(head, 0);
    }

    /** One round of `match_order`: fill against the head, delete it once fulfilled. */
    method TakeHead(order: OrderNode, ghost h: OrderNode) returns (v: nat)
      requires Chain() && Live() && list != [] && h == list[0] && order !in nodes && order.volume > 0
      modifies this, nodes`prev, nodes`next, h`volume, h`status, order`volume, order`status
      ensures Chain() && Live() && v == Min(old(queue)[0].qty, old(order.volume))
      ensures queue == if v == old(queue)[0].qty then old(queue)[1..]
                       else [old(queue)[0].(qty := old(queue)[0].qty - v)] + old(queue)[1..]
      ensures list == if v == old(queue)[0].qty then old(list)[1..] else old(list)
      ensures h.status == if v == old(queue)[0].qty then FULFILLED else old(h.status)
      ensures nodes == if v == old(queue)[0].qty then old(nodes) - {h} else old(nodes)
      ensures order.volume == old(order.volume) - v
      ensures order.status == Traded(old(order.status), old(order.volume), order.volume)
    {
      v := FillBoth(order, h);
      if head.IsFulfilled() {
        DeleteHead(h);
      }
    }

    method TradeHead(order: OrderNode, ghost h: OrderNode, ghost t: Taker, ghost acc0: Outcome, ghost m: Outcome,
                     ghost rest: seq<Order>)
      returns (trade: Fill, ghost acc: Outcome)
      requires Chain() && Live() && list != [] && h == list[0] && order !in nodes && order.volume > 0
      requires Crosses(t, price) && t.id == Some(order.id) && Matching(order, t, acc0, m, rest)
      modifies this, nodes`prev, nodes`next, h`volume, h`status, order`volume, order`status
      ensures Chain() && Live() && Matching(order, t, acc, m, rest) && acc.fills == acc0.fills + [trade]
      ensures nodes <= old(nodes) && h.status == (if h in nodes then old(h.status) else FULFILLED)
        && old(nodes) - {h} <= nodes && Lessened(order)
      ensures |list| <= old(|list|) && (|list| == old(|list|) ==> order.volume == 0)
    {
      acc := HeadContact(t, price, queue, rest, acc0);
      var maker := head.id;
      var v := TakeHead(order, h);
      trade := Fill(price, v, Some(order.id), Some(maker));
    }

    /** The same, with what became of the nodes so far. */
    method TradeNext(order: OrderNode, ghost h: OrderNode, ghost t: Taker, ghost acc0: Outcome, ghost m: Outcome,
                     ghost rest: seq<Order>, ghost was: map<OrderNode, OrderStatus>)
      returns (trade: Fill, ghost acc: Outcome)
      requires Chain() && Live() && list != [] && h == list[0] && order !in nodes && order.volume > 0
      requires Crosses(t, price) && t.id == Some(order.id) && Matching(order, t, acc0, m, rest)
      requires Dealt(was, nodes) && order !in was
      modifies this, nodes`prev, nodes`next, h`volume, h`status, order`volume, order`status
      ensures Chain() && Live() && Matching(order, t, acc, m, rest) && acc.fills == acc0.fills + [trade]
      ensures nodes <= old(nodes) && Dealt(was, nodes) && Lessened(order)
      ensures |list| <= old(|list|) && (|list| == old(|list|) ==> order.volume == 0)
    {
      trade, acc := TradeHead(order, h, t, acc0, m, rest);
    }

    twostate predicate Untouched(order: OrderNode)
      reads this, nodes, order
    {
      unchanged(this) && unchanged(nodes) && unchanged(order)
    }

    /** Match an incoming order against the list until one of them is used up. */
    method MatchOrder(order: OrderNode, ghost t: Taker, ghost acc0: Outcome, ghost m: Outcome, ghost rest: seq<Order>)
      returns (trades: seq<Fill>, ghost acc: Outcome)
      requires Chain() && Live() && order !in nodes
      requires Crosses(t, price) && t.id == Some(order.id) && Matching(order, t, acc0, m, rest)
      modifies this, nodes`prev, nodes`next, nodes`volume, nodes`status, order`volume, order`status
      ensures Chain() && Live() && Matching(order, t, acc, m, rest) && acc.fills == acc0.fills + trades
      ensures nodes <= old(nodes) && Lessened(order) && (length == 0 || order.volume == 0)
      ensures forall o | o in old(nodes) :: o.status == if o in nodes then old(o.status) else FULFILLED
      ensures old(order.volume) == 0 ==> trades == [] && acc == acc0 && Untouched(order)
    {
      trades, acc := [], acc0;
      ghost var was := map o | o in nodes :: o.status;
      while length > 0 && !order.IsFulfilled()
        invariant Chain() == old(Chain()) && Live() == old(Live())
        invariant Matching(order, t, acc, m, rest) && acc.fills == acc0.fills + trades
        invariant nodes <= old(nodes) && Dealt(was, nodes) && Lessened(order)
        invariant old(order.volume) == 0 ==> trades == [] && acc == acc0 && Untouched(order)
        decreases |list|, order.volume
      {
        ghost var h, done := list[0], acc;
        var trade;
        trade, acc := TradeNext(order, h, t, done, m, rest, was);
        AppendOn(acc0.fills, trades, trade);
        trades := trades + [trade];
      }
    }
  }

  /** A duplicate-free listing of as many nodes as the set has lists all of them. */
  lemma {:induction false} Listed(l: seq<OrderNode>, nodes: set<OrderNode>, o: OrderNode)
    requires Distinct(l) && |l| == |nodes| && (forall i | 0 <= i < |l| :: l[i] in nodes) && o in nodes
    ensures exists k :: 0 <= k < |l| && l[k] == o
  {
    var n := |l| - 1;
    if l[n] != o { Listed(l[..n], nodes - {l[n]}, o); }
  }
}
