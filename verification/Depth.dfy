// A side of the book keyed by price, each price with its FIFO queue. Whatever the
// order of the keys, reading the queues best price first gives the flat side.
module Depth {
  import opened Flat
  import opened Ladder

  type Queues = map<int, seq<Rest>>

  ghost predicate NoneEmpty(d: Queues) { forall p | p in d :: d[p] != [] }

  predicate IsBest(side: Side, ps: set<int>, p: int) {
    p in ps && forall q | q in ps :: q == p || Ahead(side, p, q)
  }

  ghost function Best(side: Side, ps: set<int>): (p: int)
    requires ps != {}
    ensures IsBest(side, ps, p)
  {
    assert (forall x :: x !in ps) ==> ps == {};
    var x :| x in ps;
    var rest := ps - {x};
    assert forall q | q in ps :: q == x || q in rest;
    if rest == {} then x
    else
      var y := Best(side, rest);
      if Ahead(side, x, y) then x else y
  }

  lemma BestIs(side: Side, ps: set<int>, p: int)
    requires IsBest(side, ps, p)
    ensures Best(side, ps) == p
  {
    var b := Best(side, ps);
    assert IsBest(side, ps, b) && b in ps;
  }

  /** A best price stays best when another one goes. */
  lemma BestStays(side: Side, ps: set<int>, p: int)
    requires ps != {} && p != Best(side, ps)
    ensures ps - {p} != {} && Best(side, ps - {p}) == Best(side, ps)
  {
    var b := Best(side, ps);
    assert b in ps - {p};
    BestIs(side, ps - {p}, b);
  }

  ghost function Flatten(side: Side, d: Queues): seq<Order>
    decreases d.Keys
  {
    if d.Keys == {} then []
    else
      var p := Best(side, d.Keys);
      At(p, d[p]) + Flatten(side, d - {p})
  }

  function QueueAt(d: Queues, p: int): seq<Rest> { if p in d then d[p] else [] }

  lemma FlattenBest(side: Side, d: Queues, p: int)
    requires IsBest(side, d.Keys, p)
    ensures Flatten(side, d) == At(p, d[p]) + Flatten(side, d - {p})
  {
    var b := Best(side, d.Keys);
    assert b == p;
  }

  /** Replacing the queue of the best price, or opening a better one. */
  lemma FlattenSet(side: Side, d: Queues, p: int, q: seq<Rest>)
    requires IsBest(side, d.Keys + {p}, p)
    ensures Flatten(side, d[p := q]) == At(p, q) + Flatten(side, d - {p})
  {
    var e := d[p := q];
    assert e.Keys == d.Keys + {p} && e - {p} == d - {p};
    FlattenBest(side, e, p);
  }

  lemma FlattenHead(side: Side, d: Queues)
    requires NoneEmpty(d) && d.Keys != {}
    ensures var p := Best(side, d.Keys);
            Flatten(side, d) != [] && Flatten(side, d)[0] == Priced(p, d[p][0])
  {
    var p := Best(side, d.Keys);
    AtFront(p, d[p]);
  }

  lemma BestHead(side: Side, d: Queues, p: int)
    requires NoneEmpty(d) && IsBest(side, d.Keys, p)
    ensures Flatten(side, d) != [] && Flatten(side, d)[0].px == p
  {
    FlattenHead(side, d);
    assert Best(side, d.Keys) == p;
  }

  lemma AtPushed(p: int, q: seq<Rest>, r: Rest, f: seq<Order>)
    ensures At(p, q + [r]) + f == At(p, q) + ([Priced(p, r)] + f)
  {
    assert At(p, q + [r]) == At(p, q) + [Priced(p, r)];
  }

  lemma PushBest(side: Side, d: Queues, p: int, r: Rest)
    requires NoneEmpty(d) && IsBest(side, d.Keys, p)
    ensures Flatten(side, d[p := d[p] + [r]]) == Insert(side, Flatten(side, d), Priced(p, r))
  {
    var o, e := Priced(p, r), d - {p};
    assert d.Keys + {p} == d.Keys;
    FlattenSet(side, d, p, d[p] + [r]);
    FlattenBest(side, d, p);
    InsertBehind(side, p, d[p], Flatten(side, e), o);
    if e.Keys != {} { FlattenHead(side, e); }
    InsertAhead(side, Flatten(side, e), o);
    AtPushed(p, d[p], r, Flatten(side, e));
  }

  /** Pushing to the queue of a price is inserting behind equal or better prices. */
  lemma {:induction false} PushFlat(side: Side, d: Queues, p: int, r: Rest)
    requires NoneEmpty(d)
    ensures Flatten(side, d[p := QueueAt(d, p) + [r]]) == Insert(side, Flatten(side, d), Priced(p, r))
    decreases d.Keys
  {
    var o, q := Priced(p, r), QueueAt(d, p) + [r];
    if d.Keys == {} {
      FlattenSet(side, d, p, q);
      assert d - {p} == d && At(p, q) == [o];
    } else {
      var b := Best(side, d.Keys);
      if p == b {
        PushBest(side, d, p, r);
      } else if Ahead(side, p, b) {
        FlattenSet(side, d, p, q);
        FlattenHead(side, d);
        InsertAhead(side, Flatten(side, d), o);
        assert d - {p} == d && At(p, q) == [o];
      } else {
        FlattenBest(side, d[p := q], b);
        assert d[p := q] - {b} == (d - {b})[p := QueueAt(d - {b}, p) + [r]];
        PushFlat(side, d - {b}, p, r);
        InsertBehind(side, b, d[b], Flatten(side, d - {b}), o);
      }
    }
  }

  /** A queue written back: an empty one goes. */
  function Put(d: Queues, p: int, q: seq<Rest>): Queues {
    if q == [] then d - {p} else d[p := q]
  }

  lemma PutBest(side: Side, d: Queues, p: int, q: seq<Rest>)
    requires IsBest(side, d.Keys, p)
    ensures Flatten(side, Put(d, p, q)) == At(p, q) + Flatten(side, d - {p})
  {
    if q != [] {
      assert d.Keys + {p} == d.Keys;
      FlattenSet(side, d, p, q);
    }
  }

  lemma PutPast(side: Side, d: Queues, p: int, q: seq<Rest>, b: int)
    requires p in d && IsBest(side, d.Keys, b) && p != b
    ensures Flatten(side, Put(d, p, q)) == At(b, d[b]) + Flatten(side, Put(d - {b}, p, q))
  {
    var e := Put(d, p, q);
    assert e - {b} == Put(d - {b}, p, q);
    assert IsBest(side, e.Keys, b);
    FlattenBest(side, e, b);
  }

  /** Splicing an order out of its price's queue is removing it from the flat side. */
  lemma {:induction false} SpliceFlat(side: Side, d: Queues, p: int, j: nat)
    requires NoneEmpty(d) && p in d && j < |d[p]| && forall i | 0 <= i < j :: d[p][i].id != d[p][j].id
    ensures Flatten(side, Put(d, p, d[p][..j] + d[p][j + 1..])) == Remove(Flatten(side, d), p, d[p][j].id)
    decreases d.Keys
  {
    var b, q := Best(side, d.Keys), d[p][..j] + d[p][j + 1..];
    FlattenBest(side, d, b);
    if p == b {
      PutBest(side, d, p, q);
      RemoveWithin(p, d[p], Flatten(side, d - {p}), j);
    } else {
      SpliceFlat(side, d - {b}, p, j);
      RemovePast(b, d[b], Flatten(side, d - {b}), p, d[p][j].id);
      PutPast(side, d, p, q, b);
    }
  }

  lemma CutFront(a: seq<Order>, f: seq<Order>, j: nat)
    requires j < |a|
    ensures (a + f)[..j] + (a + f)[j + 1..] == (a[..j] + a[j + 1..]) + f
  {}

  lemma CutBehind(a: seq<Order>, f: seq<Order>, j: nat)
    requires j < |f|
    ensures (a + f)[..|a| + j] + (a + f)[|a| + j + 1..] == a + (f[..j] + f[j + 1..])
  {
    assert (a + f)[..|a| + j] == a + f[..j];
  }

  /** Splicing position `j` out of a queue cuts one position out of the flat side. */
  lemma {:induction false} SpliceCut(side: Side, d: Queues, p: int, j: nat) returns (i: nat)
    requires p in d && j < |d[p]|
    ensures var f := Flatten(side, d);
            && i < |f| && f[i] == Priced(p, d[p][j])
            && Flatten(side, Put(d, p, d[p][..j] + d[p][j + 1..])) == f[..i] + f[i + 1..]
    decreases d.Keys
  {
    var b, q := Best(side, d.Keys), d[p][..j] + d[p][j + 1..];
    var a, f := At(b, d[b]), Flatten(side, d - {b});
    FlattenBest(side, d, b);
    if p == b {
      i := j;
      PutBest(side, d, p, q);
      CutFront(a, f, j);
      assert At(p, q) == a[..j] + a[j + 1..];
    } else {
      var i0 := SpliceCut(side, d - {b}, p, j);
      i := |a| + i0;
      PutPast(side, d, p, q, b);
      CutBehind(a, f, i0);
    }
  }

  /** No order of this id in the queue of this price: nothing to remove. */
  lemma {:induction false} RemoveNone(side: Side, d: Queues, p: int, id: Id)
    requires forall r | r in QueueAt(d, p) :: r.id != id
    ensures Remove(Flatten(side, d), p, id) == Flatten(side, d)
    decreases d.Keys
  {
    if d.Keys == {} {
    } else {
      var b := Best(side, d.Keys);
      RemoveNone(side, d - {b}, p, id);
      RemovePast(b, d[b], Flatten(side, d - {b}), p, id);
    }
  }

  lemma AtMembers(p: int, q: seq<Rest>, o: Order)
    ensures o in At(p, q) <==> o.px == p && Rest(o.id, o.client, o.qty) in q
  {
    if o.px == p && Rest(o.id, o.client, o.qty) in q {
      var i :| 0 <= i < |q| && q[i] == Rest(o.id, o.client, o.qty);
      assert At(p, q)[i] == o;
    }
  }

  /** The flat side holds exactly the queued orders, each at the price of its queue. */
  lemma {:induction false} FlattenMembers(side: Side, d: Queues, o: Order)
    ensures o in Flatten(side, d) <==> o.px in d && Rest(o.id, o.client, o.qty) in d[o.px]
    decreases d.Keys
  {
    if d.Keys == {} {
    } else {
      var b := Best(side, d.Keys);
      FlattenMembers(side, d - {b}, o);
      AtMembers(b, d[b], o);
    }
  }

  /** The flat side is in price order. */
  lemma {:induction false} FlattenSorted(side: Side, d: Queues)
    ensures Sorted(side, Flatten(side, d))
    decreases d.Keys
  {
    if d.Keys == {} {
    } else {
      var p := Best(side, d.Keys);
      var a, f := At(p, d[p]), Flatten(side, d - {p});
      FlattenSorted(side, d - {p});
      forall j | 0 <= j < |f| ensures !Ahead(side, f[j].px, p) {
        FlattenMembers(side, d - {p}, f[j]);
        assert f[j] in f;
      }
    }
  }

  // ----- as a ladder -----

  ghost predicate SortedKeys(side: Side, d: Queues, prices: seq<int>) {
    && (forall i, j | 0 <= i < j < |prices| :: Ahead(side, prices[i], prices[j]))
    && (forall i | 0 <= i < |prices| :: prices[i] in d)
    && (forall p | p in d :: p in prices)
  }

  ghost function Rungs(d: Queues, prices: seq<int>): (l: seq<Level>)
    requires forall i | 0 <= i < |prices| :: prices[i] in d
    ensures |l| == |prices| && forall i | 0 <= i < |l| :: l[i] == Level(prices[i], d[prices[i]])
  {
    seq(|prices|, i requires 0 <= i < |prices| => Level(prices[i], d[prices[i]]))
  }

  lemma SortedFront(side: Side, d: Queues, prices: seq<int>)
    requires SortedKeys(side, d, prices) && prices != []
    ensures IsBest(side, d.Keys, prices[0])
    ensures SortedKeys(side, d - {prices[0]}, prices[1..])
  {
    forall q | q in d && q != prices[0] ensures Ahead(side, prices[0], q) && q in prices[1..] {
      var i :| 0 <= i < |prices| && prices[i] == q;
      assert prices[1..][i - 1] == q;
    }
    assert forall i | 0 < i < |prices| :: Ahead(side, prices[0], prices[i]);
  }

  lemma {:induction false} RungsFlat(side: Side, d: Queues, prices: seq<int>)
    requires SortedKeys(side, d, prices)
    ensures Flatten(side, d) == Ladder.Flatten(Rungs(d, prices))
    decreases |prices|
  {
    if prices == [] {
      assert forall p | p in d :: p in prices;
      assert d.Keys == {};
    } else {
      SortedFront(side, d, prices);
      FlattenBest(side, d, prices[0]);
      RungsFlat(side, d - {prices[0]}, prices[1..]);
      assert Rungs(d, prices)[1..] == Rungs(d - {prices[0]}, prices[1..]);
    }
  }
}
