// The C++ book beside the correctness oracle: played the limit and cancel orders of any
// well-formed scenario, it holds the oracle's book and trades the oracle's quantities.
module CppAgreement {
  import opened Flat
  import opened MatchLaws
  import opened Books
  import opened Wire
  import opened CppLimit
  import CppSide
  import Cpp = CppBook
  import Go = GoRules
  import GoIndex
  import Oracle = OracleRules
  import Validation

  /** The scenarios of limit orders with a client, and cancels, all of them under numbered ids. */
  ghost predicate Playable(os: seq<Request>) {
    && Validation.Scenario(os)
    && forall o | o in os :: if o.kind.Cancel? then o.target.Some? else o.kind.Limit? && o.client.Some?
  }

  ghost predicate KnownWithin(book: Cpp.Book, ids: set<Id>)
    reads book
  {
    forall id | id in book.idToOrder :: Some(id) in ids
  }

  /** The book stands where the oracle stands after these orders. */
  ghost predicate Follows(book: Cpp.Book, os: seq<Request>)
    reads book, book.Repr()
  {
    && book.Valid() && book.View() == Validation.OracleRun(os)
    && KnownWithin(book, Validation.UsedIds(os))
  }

  lemma ExtendPlayable(os: seq<Request>, o: Request)
    requires Playable(os + [o])
    ensures Playable(os) && o in os + [o] && (!o.kind.Cancel? ==> o.id !in Validation.UsedIds(os))
  {
    var all := os + [o];
    assert all[|os|] == o;
    assert forall i | 0 <= i < |os| :: os[i] == all[i];
    forall x | x in os ensures x in all {}
  }

  lemma ExtendRun(os: seq<Request>, o: Request)
    ensures (os + [o])[..|os|] == os && (os + [o])[|os|] == o
    ensures Validation.OracleRun(os + [o]) == Oracle.Apply(Validation.OracleRun(os), o).0
  {}

  lemma Extend(os: seq<Request>, o: Request)
    requires Playable(os + [o])
    ensures Playable(os) && o in os + [o] && (!o.kind.Cancel? ==> o.id !in Validation.UsedIds(os))
    ensures (os + [o])[..|os|] == os
    ensures Validation.OracleRun(os + [o]) == Oracle.Apply(Validation.OracleRun(os), o).0
    ensures Validation.UsedIds(os + [o]) == if o.kind.Cancel? then Validation.UsedIds(os)
      else Validation.UsedIds(os) + {o.id}
  {
    ExtendPlayable(os, o);
    Validation.UsedGrows(os, o);
    ExtendRun(os, o);
  }

  method SumVolume(trades: seq<Fill>) returns (filled: int)
    ensures filled == Volume(trades)
  {
    filled := 0;
    for i := 0 to |trades|
      invariant filled + Volume(trades[i..]) == Volume(trades)
    {
      assert trades[i..][0] == trades[i] && trades[i..][1..] == trades[i + 1..];
      filled := filled + trades[i].qty;
    }
  }

  /** The oracle's next step on a limit order, put in terms of the outcome of matching. */
  lemma NextLimit(os: seq<Request>, o: Request, b: Books.Book, t: Taker, m: Outcome)
    requires Playable(os + [o]) && o.kind.Limit? && b == Validation.OracleRun(os) && Shape(b)
    requires t == Taker(o.id, o.client, o.side, false, o.px) && m == Match(NoPolicy, t, o.qty, Opposite(b, t.side))
    ensures Validation.OracleRun(os + [o]) == Settle(b, t, m, true)
    ensures Validation.Expected(os + [o], |os|) == Volume(m.fills)
  {
    Extend(os, o);
    assert t == Oracle.OracleTaker(o);
    OppositeShape(b, t.side);
    MatchExact(NoPolicy, t, o.qty, Opposite(b, t.side));
  }

  /** No order rests under an id that is not known, before or after matching. */
  lemma UnusedRestsNowhere(book: Cpp.Book, used: set<Id>, t: Taker, qty: int)
    requires book.Valid() && KnownWithin(book, used) && t.id.Some? && t.id !in used
    ensures var b := book.View();
            t.id !in IdsOf(WithOpposite(b, t.side, Match(NoPolicy, t, qty, Opposite(b, t.side)).book))
  {
    book.LinkedId(t.id.value);
    forall o | o in book.Linked() ensures Some(o.id) != t.id {
      Cpp.KnownUnderId(book.idToOrder, o);
    }
    MatchIds(NoPolicy, t, qty, Opposite(book.View(), t.side));
  }

  /** Place an order under an unused id and add up what it trades. */
  method PlaceUnused(book: Cpp.Book, order: OrderNode, ghost t: Taker, ghost m: Outcome, ghost after: Books.Book,
                     ghost used: set<Id>)
    returns (filled: int)
    requires book.Valid() && book.Placeable(order) && order.price > 0 && order.volume > 0 && order.status == ACTIVE
    requires KnownWithin(book, used) && Some(order.id) !in used && t == CppSide.TakerOf(order)
    requires m == Match(NoPolicy, t, order.volume, Opposite(book.View(), t.side))
      && after == Settle(book.View(), t, m, true)
    modifies book.Repr(), order
    ensures book.Valid() && book.View() == after && KnownWithin(book, used + {Some(order.id)})
    ensures filled == Volume(m.fills)
    ensures forall x | x in book.Repr() :: x in old(book.Repr()) || x == order || fresh(x)
  {
    UnusedRestsNowhere(book, used, t, order.volume);
    NoPolicyNeverStops(t, order.volume, Opposite(book.View(), t.side));
    var trades := book.PlaceOrder(order);
    filled := SumVolume(trades);
  }

  /** Build an order with an unused id and place it. */
  method PlaceAndSum(book: Cpp.Book, o: Request, ghost t: Taker, ghost m: Outcome, ghost after: Books.Book,
                     ghost used: set<Id>)
    returns (filled: int)
    requires book.Valid() && KnownWithin(book, used) && o.id.Some? && o.client.Some? && o.id !in used
    requires !o.side.OtherSide? && o.px > 0 && o.qty > 0 && t == Taker(o.id, o.client, o.side, false, o.px)
    requires m == Match(NoPolicy, t, o.qty, Opposite(book.View(), o.side)) && after == Settle(book.View(), t, m, true)
    modifies book.Repr()
    ensures book.Valid() && book.View() == after && filled == Volume(m.fills) && KnownWithin(book, used + {o.id})
    ensures forall x | x in book.Repr() :: x in old(book.Repr()) || fresh(x)
  {
    var order := new OrderNode(o.id.value, o.client.value, o.side, o.px, o.qty);
    filled := PlaceUnused(book, order, t, m, after, used);
  }

  /** The oracle's book is the Go engine's, so it has the full shape. */
  lemma FollowsShape(os: seq<Request>)
    requires Playable(os)
    ensures Shape(Validation.OracleRun(os))
  {
    Validation.RunAgrees(os);
    Go.RunShape(NoPolicy, os);
  }

  /** The next limit order fills what the oracle expects and leaves the oracle's book. */
  method PlaceNext(book: Cpp.Book, ghost os: seq<Request>, o: Request) returns (filled: int)
    requires Playable(os + [o]) && Follows(book, os) && o.kind.Limit?
    modifies book.Repr()
    ensures Follows(book, os + [o]) && filled == Validation.Expected(os + [o], |os|)
    ensures forall x | x in book.Repr() :: x in old(book.Repr()) || fresh(x)
  {
    Extend(os, o);
    ghost var t := Taker(o.id, o.client, o.side, false, o.px);
    ghost var m := Match(NoPolicy, t, o.qty, Opposite(book.View(), t.side));
    FollowsShape(os);
    NextLimit(os, o, book.View(), t, m);
    filled := PlaceAndSum(book, o, t, m, Validation.OracleRun(os + [o]), Validation.UsedIds(os));
  }

  /** The oracle cancels a resting order where it rests, and nothing for an id that does not rest. */
  lemma CancelWhere(s: Go.State, o: Request)
    requires GoIndex.IndexExact(s.book, s.idx) && o.kind.Cancel?
    ensures forall e | e in s.book.bids && e.id == o.target ::
              Oracle.Apply(s.book, o).0 == Cancelled(s.book, Buy, e.px, o.target)
    ensures forall e | e in s.book.asks && e.id == o.target ::
              Oracle.Apply(s.book, o).0 == Cancelled(s.book, Sell, e.px, o.target)
    ensures o.target !in Ids(s.book.bids) + Ids(s.book.asks) ==> Oracle.Apply(s.book, o).0 == s.book
  {
    Validation.CancelAgrees(s, o);
  }

  /** An active order under this id is listed on its side, and if there is none no order of this id rests. */
  lemma TargetRests(book: Cpp.Book, id: int)
    requires book.Valid()
    ensures if id in book.idToOrder && book.idToOrder[id].status == ACTIVE then
              var r := book.idToOrder[id];
              !r.side.OtherSide?
              && Priced(r.price, AsRest(r)) in (if r.side.Buy? then book.View().bids else book.View().asks)
            else Some(id) !in Ids(book.View().bids) + Ids(book.View().asks)
  {
    book.ActiveIffListed(id);
    if id in book.idToOrder && book.idToOrder[id].status == ACTIVE {
      book.Apart();
      book.ActiveIffResting(id);
    }
  }

  lemma CancelFinds(book: Cpp.Book, b: Books.Book, os: seq<Request>, o: Request)
    requires Playable(os + [o]) && Follows(book, os) && o.kind.Cancel? && b == book.View()
    ensures var id := o.target.value;
            Validation.OracleRun(os + [o]) ==
              if id in book.idToOrder && book.idToOrder[id].status == ACTIVE
              then Cancelled(b, book.idToOrder[id].side, book.idToOrder[id].price, o.target)
              else b
  {
    Extend(os, o);
    Validation.RunAgrees(os);
    CancelWhere(Go.Run(NoPolicy, Go.INITIAL, os), o);
    TargetRests(book, o.target.value);
  }

  /** The next cancel leaves the oracle's book. */
  method DeleteNext(book: Cpp.Book, ghost os: seq<Request>, o: Request)
    requires Playable(os + [o]) && Follows(book, os) && o.kind.Cancel?
    modifies book.Repr()
    ensures Follows(book, os + [o]) && Validation.Expected(os + [o], |os|) == 0
    ensures book.Repr() <= old(book.Repr())
  {
    Extend(os, o);
    CancelFinds(book, book.View(), os, o);
    ghost var after := book.DeleteOrder(o.target.value);
  }

  /** The next order of a playable scenario, of either kind. */
  method Next(book: Cpp.Book, ghost os: seq<Request>, o: Request, ghost all: seq<Request>) returns (filled: int)
    requires Playable(all) && all == os + [o] && Follows(book, os)
    modifies book.Repr()
    ensures Follows(book, all) && filled == Validation.Expected(all, |os|)
    ensures forall x | x in book.Repr() :: x in old(book.Repr()) || fresh(x)
  {
    Extend(os, o);
    if o.kind.Cancel? {
      DeleteNext(book, os, o);
      filled := 0;
    } else {
      filled := PlaceNext(book, os, o);
    }
  }

  /** What the book filled for the first `k` orders. */
  ghost predicate Log(os: seq<Request>, k: nat, filled: seq<int>) {
    |filled| == k <= |os| && forall i | 0 <= i < k :: filled[i] == Validation.Expected(os, i)
  }

  lemma PrefixPlayable(os: seq<Request>, k: nat)
    requires Playable(os) && k <= |os|
    ensures Playable(os[..k])
  {
    assert forall x | x in os[..k] :: x in os;
  }

  /** Order `k` of a playable scenario. */
  method NextAt(book: Cpp.Book, ghost os: seq<Request>, ghost k: nat, o: Request) returns (filled: int)
    requires Playable(os) && k < |os| && o == os[k] && Follows(book, os[..k])
    modifies book.Repr()
    ensures Follows(book, os[..k + 1]) && filled == Validation.Expected(os, k)
    ensures forall x | x in book.Repr() :: x in old(book.Repr()) || fresh(x)
  {
    PrefixPlayable(os, k + 1);
    assert os[..k + 1] == os[..k] + [o] && os[..k + 1][..k] == os[..k];
    filled := Next(book, os[..k], o, os[..k + 1]);
  }

  method Start() returns (book: Cpp.Book)
    ensures fresh(book.Repr()) && Follows(book, [])
  {
    book := new Cpp.Book();
  }

  lemma Logged(os: seq<Request>, k: nat, filled: seq<int>, v: int)
    requires k < |os| && Log(os, k, filled) && v == Validation.Expected(os, k)
    ensures Log(os, k + 1, filled + [v])
  {}

  /** Any playable scenario on a new book: at each order the C++ book fills what the oracle
      expects, and stands for the oracle's book. */
  method Replay(os: seq<Request>) returns (book: Cpp.Book, filled: seq<int>)
    requires Playable(os)
    ensures Follows(book, os) && Log(os, |os|, filled)
  {
    book := Start();
    filled := [];
    assert os[..0] == [] && os[..|os|] == os;
    for k := 0 to |os|
      invariant fresh(book.Repr()) && Follows(book, os[..k]) && Log(os, k, filled)
    {
      var v := NextAt(book, os, k, os[k]);
      Logged(os, k, filled, v);
      filled := filled + [v];
    }
  }
}
