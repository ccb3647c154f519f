// What the correctness oracle computes, on flat books: trades without self-trade
// prevention, every non-limit type treated as a market order, every non-buy as a sell.
module OracleRules {
  import opened Flat
  import opened MatchLaws
  import opened Books
  import opened Wire
  import opened Offers

  function OracleTaker(o: Request): Taker {
    Taker(o.id, o.client, if o.side.Buy? then Buy else Sell, !o.kind.Limit?, o.px)
  }

  /** The side without its first order of this id. */
  function Without(s: seq<Order>, id: Id): seq<Order> {
    if s == [] then [] else if s[0].id == id then s[1..] else [s[0]] + Without(s[1..], id)
  }

  function Traded(b: Book, o: Request): Outcome {
    Match(NoPolicy, OracleTaker(o), o.qty, Opposite(b, OracleTaker(o).side))
  }

  function After(b: Book, o: Request, m: Outcome): (Book, int) {
    (Settle(b, OracleTaker(o), m, o.kind.Limit?), o.qty - m.rem)
  }

  /** The book after one order, and the quantity the order filled on arrival. */
  function Apply(b: Book, o: Request): (Book, int) {
    if o.kind.Cancel? then (Book(Without(b.bids, o.target), Without(b.asks, o.target)), 0)
    else After(b, o, Traded(b, o))
  }

  /** A limit order comes to rest, after trading, while an order under its id rests already. */
  predicate RestsOnUsedId(b: Book, o: Request) {
    o.kind.Limit? && !o.kind.Cancel? &&
    var m, t := Traded(b, o), OracleTaker(o);
    var b1 := WithOpposite(b, t.side, m.book);
    m.rem > 0 && o.id in Ids(b1.bids) + Ids(b1.asks)
  }

  /** The prices an order trades at: a limit order names one, everything else takes any, and what is
      no buy is a sell. */
  function OracleBound(o: Request): Bound {
    if !o.kind.Limit? then Any else if o.side.Buy? then AtMost(o.px) else AtLeast(o.px)
  }

  lemma TradedExact(b: Book, o: Request)
    requires Shape(b)
    ensures var m, l := Traded(b, o), Faced(b, o);
            && m.rem == (if o.qty <= 0 then o.qty
                         else o.qty - Min(o.qty, Total(Offered(NoPolicy, o.client, OracleBound(o), l))))
            && m.book == Swept(OracleBound(o), l, o.qty) && !m.stopped
  {
    var t, l := OracleTaker(o), Faced(b, o);
    assert Bounds(t, OracleBound(o));
    MatchSweeps(t, OracleBound(o), o.qty, l);
    if o.qty > 0 { SweepTakes(t, OracleBound(o), o.qty, l); }
  }

  /** One order in terms of the book: what it fills, what the side it faces keeps, what rests. */
  lemma ApplyExact(b: Book, o: Request)
    requires Shape(b) && !o.kind.Cancel?
    ensures var (b', filled) := Apply(b, o);
            var l := Faced(b, o);
            && filled == (if o.qty <= 0 then 0 else Min(o.qty, Total(Offered(NoPolicy, o.client, OracleBound(o), l))))
            && Faced(b', o) == Swept(OracleBound(o), l, o.qty)
            && (if o.kind.Limit? && filled < o.qty
                then RestsIn(o.side.Buy?, Beside(b, o), Order(o.id, o.client, o.px, o.qty - filled), Beside(b', o))
                else Beside(b', o) == Beside(b, o))
  {
    TradedExact(b, o);
    SidesAfter(b, OracleTaker(o), Traded(b, o), o.kind.Limit?);
  }

  /** A cancel takes out the first order of the id, on each side. */
  lemma {:induction false} WithoutAt(s: seq<Order>, id: Id, k: nat)
    requires k < |s| && s[k].id == id && forall i | 0 <= i < k :: s[i].id != id
    ensures Without(s, id) == s[..k] + s[k + 1..]
  {
    if k == 0 {
    } else {
      WithoutAt(s[1..], id, k - 1);
      assert s[..k] == [s[0]] + s[1..][..k - 1];
    }
  }

  lemma {:induction false} WithoutAbsent(s: seq<Order>, id: Id)
    requires id !in Ids(s)
    ensures Without(s, id) == s
  {
    if s == [] {
    } else {
      assert s[0] in s && forall x | x in s[1..] :: x in s;
      WithoutAbsent(s[1..], id);
    }
  }

  lemma {:induction false} WithoutIsRemove(s: seq<Order>, o: Order)
    requires DistinctIds(s) && o in s
    ensures Without(s, o.id) == Remove(s, o.px, o.id)
  {
    if s[0].id == o.id {
      var j :| 0 <= j < |s| && s[j] == o;
      assert j == 0;
    } else {
      assert o in s[1..];
      WithoutIsRemove(s[1..], o);
    }
  }

  function Whole(o: Request): Order { Order(o.id, o.client, o.px, o.qty) }

  /** Of two sells into the empty book, the dearer rests behind the other. */
  lemma SellsRest(a: Request, b: Request)
    requires a.kind.Limit? && a.side.Sell? && a.qty > 0 && b.kind.Limit? && b.side.Sell? && b.qty > 0 && a.px < b.px
    ensures Apply(EMPTY, a) == (Book([], [Whole(a)]), 0) && Traded(EMPTY, a).rem == a.qty
    ensures var b1 := Book([], [Whole(a)]);
            Apply(b1, b) == (Book([], [Whole(a), Whole(b)]), 0) && Traded(b1, b).rem == b.qty
  {
    var x, y := Whole(a), Whole(b);
    assert Traded(EMPTY, a) == Idle(a.qty, []) && Traded(Book([], [x]), b) == Idle(b.qty, []);
    assert Insert(Sell, [], x) == [x] && Insert(Sell, [], y) == [y];
    assert [x][1..] == [] && Insert(Sell, [x], y) == [x, y];
  }
}
