// The correctness oracle of the validator: flat slices of pointers re-sorted after
// every append, and a byID map, updated in place.
module Oracle {
  import opened Flat
  import opened MatchLaws
  import opened Books
  import opened Wire
  import opened OracleRules

  /** A resting order; the oracle compares these by identity. The client is recorded
      for comparison with the engines only. */
  class Resting {
    const id: Id
    const px: int
    const seqNo: int
    ghost const client: Id
    var qty: int

    constructor (id: Id, px: int, qty: int, seqNo: int, ghost client: Id)
      ensures this.id == id && this.px == px && this.qty == qty && this.seqNo == seqNo && this.client == client
    {
      this.id, this.px, this.qty, this.seqNo, this.client := id, px, qty, seqNo, client;
    }
  }

  // ----- the stable sort of the standard library -----

  predicate Less(side: Side, a: Resting, b: Resting) {
    if a.px != b.px then Ahead(side, a.px, b.px) else a.seqNo < b.seqNo
  }

  function Put(side: Side, s: seq<Resting>, r: Resting): seq<Resting> {
    if s == [] || Less(side, r, s[0]) then [r] + s else [s[0]] + Put(side, s[1..], r)
  }

  function SortStable(side: Side, s: seq<Resting>): seq<Resting> {
    if s == [] then [] else Put(side, SortStable(side, s[..|s| - 1]), s[|s| - 1])
  }

  /** In price order, and in order of arrival within a price. */
  ghost predicate Ranked(side: Side, s: seq<Resting>) {
    forall i, j | 0 <= i < j < |s| :: Less(side, s[i], s[j])
  }

  lemma {:induction false} PutLast(side: Side, s: seq<Resting>, r: Resting)
    requires forall i | 0 <= i < |s| :: !Less(side, r, s[i])
    ensures Put(side, s, r) == s + [r]
  {
    if s == [] {
    } else {
      PutLast(side, s[1..], r);
    }
  }

  lemma {:induction false} SortOfRanked(side: Side, s: seq<Resting>)
    requires Ranked(side, s)
    ensures SortStable(side, s) == s
  {
    if s == [] {
    } else {
      SortOfRanked(side, s[..|s| - 1]);
      PutLast(side, s[..|s| - 1], s[|s| - 1]);
    }
  }

  /** Sorting a ranked slice with a newcomer appended puts the newcomer in its place. */
  lemma SortAppended(side: Side, s: seq<Resting>, r: Resting)
    requires Ranked(side, s)
    ensures SortStable(side, s + [r]) == Put(side, s, r)
  {
    assert (s + [r])[..|s|] == s;
    SortOfRanked(side, s);
  }

  lemma {:induction false} PutKeeps(side: Side, s: seq<Resting>, r: Resting, x: Resting)
    ensures x in Put(side, s, r) <==> x == r || x in s
  {
    if s != [] && !Less(side, r, s[0]) { PutKeeps(side, s[1..], r, x); }
  }

  lemma {:induction false} PutRanked(side: Side, s: seq<Resting>, r: Resting)
    requires Ranked(side, s) && forall i | 0 <= i < |s| :: s[i].seqNo < r.seqNo
    ensures Ranked(side, Put(side, s, r))
  {
    if s != [] && !Less(side, r, s[0]) {
      PutRanked(side, s[1..], r);
      var t := Put(side, s[1..], r);
      forall j | 0 <= j < |t| ensures Less(side, s[0], t[j]) {
        PutKeeps(side, s[1..], r, t[j]);
        if t[j] != r {
          var i :| 0 <= i < |s[1..]| && s[1..][i] == t[j];
          assert Less(side, s[0], s[i + 1]);
        }
      }
    } else if s != [] {
      forall j | 0 <= j < |s| ensures Less(side, r, s[j]) {
        assert j > 0 ==> Less(side, s[0], s[j]);
      }
    }
  }

  // ----- the flat reading of a slice -----

  ghost function AsOrder(r: Resting): Order
    reads r
  {
    Order(r.id, r.client, r.px, r.qty)
  }

  ghost function Flats(s: seq<Resting>): (f: seq<Order>)
    reads s
    ensures |f| == |s| && forall i | 0 <= i < |s| :: f[i] == AsOrder(s[i])
  {
    seq(|s|, i requires 0 <= i < |s| reads s => AsOrder(s[i]))
  }

  /** The re-sorted slice reads as the flat insertion. */
  lemma {:induction false} PutFlat(side: Side, s: seq<Resting>, r: Resting)
    requires forall i | 0 <= i < |s| :: s[i].seqNo < r.seqNo
    ensures Flats(Put(side, s, r)) == Insert(side, Flats(s), AsOrder(r))
  {
    if s != [] && !Less(side, r, s[0]) {
      PutFlat(side, s[1..], r);
      assert Flats(s)[1..] == Flats(s[1..]);
      assert Flats(Put(side, s, r)) == [AsOrder(s[0])] + Flats(Put(side, s[1..], r));
    } else {
      assert Flats([r] + s) == [AsOrder(r)] + Flats(s);
    }
  }

  lemma FlatsDrop(s: seq<Resting>)
    requires s != []
    ensures Flats(s[1..]) == Flats(s)[1..]
  {}

  /** The slice without its first occurrence of a pointer. */
  function Cut(s: seq<Resting>, r: Resting): seq<Resting> {
    if s == [] then [] else if s[0] == r then s[1..] else [s[0]] + Cut(s[1..], r)
  }

  lemma {:induction false} CutAt(s: seq<Resting>, r: Resting, k: nat)
    requires k <= |s| && r !in s[..k]
    ensures k < |s| && s[k] == r ==> Cut(s, r) == s[..k] + s[k + 1..]
    ensures k == |s| ==> Cut(s, r) == s
  {
    if k > 0 {
      assert s[0] in s[..k] && s[1..][..k - 1] == s[..k][1..];
      CutAt(s[1..], r, k - 1);
      assert s[..k] == [s[0]] + s[1..][..k - 1];
    }
  }

  /** Drop one pointer from a slice. */
  method Drop(s: seq<Resting>, r: Resting) returns (d: seq<Resting>)
    ensures d == Cut(s, r)
  {
    var i := 0;
    while i < |s|
      invariant i <= |s| && r !in s[..i]
    {
      if s[i] == r {
        CutAt(s, r, i);
        return s[..i] + s[i + 1..];
      }
      i := i + 1;
    }
    CutAt(s, r, i);
    return s;
  }

  lemma {:induction false} CutKeeps(side: Side, s: seq<Resting>, r: Resting, x: Resting)
    requires Ranked(side, s)
    ensures x in Cut(s, r) <==> x in s && x != r
  {
    if s == [] {
    } else {
      assert forall i | 0 < i < |s| :: Less(side, s[0], s[i]);
      if s[0] != r { CutKeeps(side, s[1..], r, x); }
    }
  }

  lemma {:induction false} CutSubset(s: seq<Resting>, r: Resting)
    ensures forall x | x in Cut(s, r) :: x in s
  {
    if s != [] && s[0] != r { CutSubset(s[1..], r); }
  }

  lemma {:induction false} CutRanked(side: Side, s: seq<Resting>, r: Resting)
    requires Ranked(side, s)
    ensures Ranked(side, Cut(s, r))
  {
    if s != [] && s[0] != r {
      CutRanked(side, s[1..], r);
      var c := Cut(s[1..], r);
      forall j | 0 <= j < |c| ensures Less(side, s[0], c[j]) {
        CutKeeps(side, s[1..], r, c[j]);
        var i :| 0 <= i < |s[1..]| && s[1..][i] == c[j];
        assert Less(side, s[0], s[i + 1]);
      }
    }
  }

  ghost predicate Among(r: seq<Resting>, l: seq<Resting>) {
    forall i | 0 <= i < |r| :: r[i] in l
  }

  // ----- the slices and the index -----

  /** Every resting order of the slice is indexed under its id. */
  ghost predicate Held(index: map<Id, Resting>, s: seq<Resting>) {
    forall i | 0 <= i < |s| :: s[i].id in index && index[s[i].id] == s[i]
  }

  ghost predicate Numbered(seqNo: int, s: seq<Resting>) {
    forall i | 0 <= i < |s| :: s[i].seqNo <= seqNo
  }

  /** The index knows orders of one of the two slices only, each under its id. */
  ghost predicate Listed(index: map<Id, Resting>, bids: seq<Resting>, asks: seq<Resting>) {
    forall k | k in index :: index[k].id == k && (index[k] in bids) != (index[k] in asks)
  }

  /** The slice after a cancel of this id. */
  ghost function Left(s: seq<Resting>, index: map<Id, Resting>, id: Id): seq<Resting> {
    if id in index then Cut(s, index[id]) else s
  }

  /** A new order leaves every other resting order indexed exactly when none rests under its id. */
  lemma {:induction false} HeldExtended(index: map<Id, Resting>, bids: seq<Resting>, asks: seq<Resting>,
                     r: Resting, bids': seq<Resting>, asks': seq<Resting>, side: Side)
    requires Held(index, bids) && Held(index, asks) && Listed(index, bids, asks) && r !in bids && r !in asks
    requires forall x :: x in bids' <==> x in bids || (side.Buy? && x == r)
    requires forall x :: x in asks' <==> x in asks || (!side.Buy? && x == r)
    ensures Held(index[r.id := r], bids') && Held(index[r.id := r], asks') <==> r.id !in index
  {
    var index' := index[r.id := r];
    if r.id in index {
      var x := index[r.id];
      if x in bids {
        var i :| 0 <= i < |bids'| && bids'[i] == x;
      } else {
        var i :| 0 <= i < |asks'| && asks'[i] == x;
      }
    } else {
      forall i | 0 <= i < |bids'| ensures bids'[i].id in index' && index'[bids'[i].id] == bids'[i] {
        assert bids'[i] in bids';
      }
      forall i | 0 <= i < |asks'| ensures asks'[i].id in index' && index'[asks'[i].id] == asks'[i] {
        assert asks'[i] in asks';
      }
    }
  }

  class ReferenceBook {
    var bids: seq<Resting>
    var asks: seq<Resting>
    var byID: map<Id, Resting>
    var seqNo: int

    ghost function View(): Book
      reads this, bids, asks
    {
      Book(Flats(bids), Flats(asks))
    }

    ghost function Orders(): set<Resting>
      reads this
    {
      (set r | r in bids) + (set r | r in asks)
    }

    /** Both slices ranked, sharing no order, numbered up to seqNo. */
    ghost predicate Sliced()
      reads this
    {
      && Ranked(Buy, bids) && Ranked(Sell, asks) && (forall r | r in bids :: r !in asks)
      && Numbered(seqNo, bids) && Numbered(seqNo, asks)
    }

    /** And byID holds resting orders only, each under its id. */
    ghost predicate Valid()
      reads this
    {
      Sliced() && Listed(byID, bids, asks)
    }

    /** byID holds every resting order. */
    ghost predicate Complete()
      reads this
    {
      Held(byID, bids) && Held(byID, asks)
    }

    /** byID holds this order under its id. */
    ghost predicate Names(o: Order)
      reads this, byID.Values
    {
      o.id in byID && AsOrder(byID[o.id]) == o
    }

    constructor ()
      ensures Valid() && Complete() && View() == EMPTY && byID == map[] && Orders() == {}
    {
      bids, asks, byID, seqNo := [], [], map[], 0;
    }

    lemma HeldCut(side: Side, s: seq<Resting>, r: Resting)
      requires Ranked(side, s) && Held(byID, s) && r.id in byID && byID[r.id] == r
      ensures Held(byID - {r.id}, Cut(s, r))
    {
      var c := Cut(s, r);
      forall i | 0 <= i < |c| ensures c[i].id in byID && byID[c[i].id] == c[i] && c[i].id != r.id {
        CutKeeps(side, s, r, c[i]);
        var j :| 0 <= j < |s| && s[j] == c[i];
      }
    }

    lemma CompleteCut(r: Resting)
      requires Valid() && Complete() && (r in bids || r in asks)
      ensures Held(byID - {r.id}, Cut(bids, r)) && Held(byID - {r.id}, Cut(asks, r))
    {
      var i :| (0 <= i < |bids| && bids[i] == r) || (0 <= i < |asks| && asks[i] == r);
      HeldCut(Buy, bids, r);
      HeldCut(Sell, asks, r);
    }

    lemma SlicedCut(r: Resting)
      requires Valid() && (r in bids || r in asks)
      ensures Ranked(Buy, Cut(bids, r)) && Ranked(Sell, Cut(asks, r))
      ensures forall x | x in Cut(bids, r) :: x in bids && x !in Cut(asks, r)
      ensures Numbered(seqNo, Cut(bids, r)) && Numbered(seqNo, Cut(asks, r))
      ensures Listed(byID - {r.id}, Cut(bids, r), Cut(asks, r))
    {
      CutRanked(Buy, bids, r);
      CutRanked(Sell, asks, r);
      CutSubset(bids, r);
      CutSubset(asks, r);
      forall k | k in byID
        ensures byID[k] in Cut(bids, r) <==> byID[k] in bids && byID[k] != r
        ensures byID[k] in Cut(asks, r) <==> byID[k] in asks && byID[k] != r
      {
        CutKeeps(Buy, bids, r, byID[k]);
        CutKeeps(Sell, asks, r, byID[k]);
      }
      forall i | 0 <= i < |Cut(bids, r)| ensures Cut(bids, r)[i].seqNo <= seqNo {
        assert Cut(bids, r)[i] in bids;
      }
      forall i | 0 <= i < |Cut(asks, r)| ensures Cut(asks, r)[i].seqNo <= seqNo {
        assert Cut(asks, r)[i] in asks;
      }
    }

    method Remove(r: Resting)
      requires Valid() && (r in bids || r in asks)
      modifies this`bids, this`asks, this`byID
      ensures Valid() && byID == old(byID) - {r.id} && (old(Complete()) ==> Complete())
      ensures bids == Cut(old(bids), r) && asks == Cut(old(asks), r)
    {
      SlicedCut(r);
      if Complete() { CompleteCut(r); }
      bids := Drop(bids, r);
      asks := Drop(asks, r);
      byID := byID - {r.id};
    }

    ghost function Others(t: Taker): seq<Resting>
      reads this
    {
      if t.side.Buy? then bids else asks
    }

    ghost function Facing(t: Taker): seq<Resting>
      reads this
    {
      if t.side.Buy? then asks else bids
    }

    /** The best order of one slice is nowhere else. */
    lemma BestAlone(best: Resting, t: Taker)
      requires Valid() && Facing(t) != [] && best == Facing(t)[0]
      ensures best !in Others(t) && forall k | 0 < k < |Facing(t)| :: Facing(t)[k] != best
    {}

    lemma CutBest(best: Resting, t: Taker)
      requires Valid() && Facing(t) != [] && best == Facing(t)[0]
      ensures Cut(Facing(t), best) == Facing(t)[1..] && Cut(Others(t), best) == Others(t)
    {
      BestAlone(best, t);
      CutAt(Others(t), best, |Others(t)|);
    }

    /** Remove the exhausted best order of the side the taker faces. */
    method RemoveBest(best: Resting, ghost t: Taker)
      requires Valid() && Facing(t) != [] && best == Facing(t)[0]
      modifies this`bids, this`asks, this`byID
      ensures Valid() && byID == old(byID) - {best.id} && (old(Complete()) ==> Complete())
      ensures Facing(t) == old(Facing(t))[1..] && Others(t) == old(Others(t))
      ensures View() == WithOpposite(old(View()), t.side, old(Opposite(View(), t.side))[1..])
    {
      CutBest(best, t);
      FlatsDrop(Facing(t));
      ghost var left, kept := Flats(Facing(t)[1..]), Flats(Others(t));
      Remove(best);
      assert Flats(Facing(t)) == left && Flats(Others(t)) == kept;
    }

    method ReduceBest(best: Resting, take: int, ghost t: Taker)
      requires Valid() && Facing(t) != [] && best == Facing(t)[0]
      modifies best`qty
      ensures best.qty == old(best.qty) - take
      ensures var s := old(Opposite(View(), t.side));
              View() == WithOpposite(old(View()), t.side, [s[0].(qty := best.qty)] + s[1..])
    {
      BestAlone(best, t);
      ghost var s, kept := Flats(Facing(t)), Flats(Others(t));
      best.qty := best.qty - take;
      assert Flats(Others(t)) == kept;
      assert Flats(Facing(t)) == [s[0].(qty := best.qty)] + s[1..];
    }

    /** One round of a matching loop: trade with the best order, remove it when exhausted. */
    method TradeBest(best: Resting, rem: int, ghost t: Taker) returns (take: int)
      requires Valid() && rem > 0 && Facing(t) != [] && best == Facing(t)[0] && Crosses(t, best.px)
      modifies this`bids, this`asks, this`byID, best`qty
      ensures Valid() && (old(Complete()) ==> Complete()) && Others(t) == old(Others(t))
      ensures Facing(t) == old(Facing(t)) || Facing(t) == old(Facing(t))[1..]
      ensures Facing(t) == old(Facing(t)) ==> take == rem
      ensures var c := Contact(NoPolicy, t, rem, old(Opposite(View(), t.side)));
              rem - take == c.rem && View() == WithOpposite(old(View()), t.side, c.book)
    {
      ghost var b, s := View(), Opposite(View(), t.side);
      take := Min(rem, best.qty);
      ContactForeign(NoPolicy, t, rem, s, take);
      ReduceBest(best, take, t);
      if best.qty == 0 {
        assert Opposite(View(), t.side)[1..] == s[1..];
        RemoveBest(best, t);
      }
    }

    /** Where the matching loop stands: `acc` is done, `rem` is wanted, and the rest of
        the way leads to `m`. */
    ghost predicate Taking(t: Taker, b: Book, rem: int, acc: Outcome, m: Outcome)
      reads this, bids, asks
    {
      && Valid() && View() == WithOpposite(b, t.side, acc.book)
      && !acc.stopped && acc.rem == rem && Resume(NoPolicy, t, acc) == m
    }

    /** `TradeBest` as one step of matching. */
    method Round(best: Resting, rem: int, ghost t: Taker, ghost b: Book, ghost acc: Outcome, ghost m: Outcome,
                 ghost l: seq<Resting>)
      returns (take: int, ghost acc': Outcome)
      requires Taking(t, b, rem, acc, m) && Among(Facing(t), l)
      requires rem > 0 && Facing(t) != [] && best == Facing(t)[0] && Crosses(t, best.px)
      modifies this`bids, this`asks, this`byID, best`qty
      ensures Taking(t, b, rem - take, acc', m) && Among(Facing(t), l) && Others(t) == old(Others(t))
      ensures old(Complete()) ==> Complete()
      ensures |Facing(t)| < old(|Facing(t)|) || (|Facing(t)| == old(|Facing(t)|) && take == rem)
    {
      ResumeContact(NoPolicy, t, acc);
      acc' := Then(acc, Contact(NoPolicy, t, acc.rem, acc.book));
      take := TradeBest(best, rem, t);
    }

    /** The matching loops of `apply`: buys take from the asks, sells from the bids. */
    method Take(o: Request, ghost t: Taker) returns (filled: int, rem: int, ghost m: Outcome)
      requires Valid() && t == OracleTaker(o)
      modifies this`bids, this`asks, this`byID, Orders()
      ensures Valid() && (old(Complete()) ==> Complete()) && Orders() <= old(Orders())
      ensures m == Traded(old(View()), o) && View() == WithOpposite(old(View()), t.side, m.book)
      ensures rem == m.rem && !m.stopped && filled == o.qty - rem
    {
      filled, rem := 0, o.qty;
      ghost var b, l := View(), Facing(t);
      ghost var acc := Idle(o.qty, Opposite(b, t.side));
      ResumeStart(NoPolicy, t, o.qty, Opposite(b, t.side));
      m := Traded(b, o);
      var best: Resting;
      while rem > 0
        invariant Taking(t, b, rem, acc, m) && Among(Facing(t), l) && Others(t) == old(Others(t))
        invariant (old(Complete()) ==> Complete()) && filled == o.qty - rem
        decreases |Facing(t)|, rem
      {
        if o.side.Buy? {
          if |asks| == 0 { break; }
          best := asks[0];
          if o.kind.Limit? && best.px > o.px { break; }
        } else {
          if |bids| == 0 { break; }
          best := bids[0];
          if o.kind.Limit? && best.px < o.px { break; }
        }
        var take;
        take, acc := Round(best, rem, t, b, acc, m, l);
        filled, rem := filled + take, rem - take;
      }
      ResumeEnd(NoPolicy, t, acc);
    }

    /** Append to a slice and sort it again. */
    method Append(s: seq<Resting>, side: Side, r: Resting) returns (p: seq<Resting>)
      requires Ranked(side, s) && forall i | 0 <= i < |s| :: s[i].seqNo < r.seqNo
      ensures Ranked(side, p) && Flats(p) == Insert(side, Flats(s), AsOrder(r))
      ensures Numbered(r.seqNo, p) && forall x :: x in p <==> x in s || x == r
    {
      SortAppended(side, s, r);
      PutRanked(side, s, r);
      PutFlat(side, s, r);
      p := SortStable(side, s + [r]);
      forall x ensures x in p <==> x in s || x == r {
        PutKeeps(side, s, r, x);
      }
      forall i | 0 <= i < |p| ensures p[i].seqNo <= r.seqNo {
        var x := p[i];
        PutKeeps(side, s, r, x);
        if x != r { var j :| 0 <= j < |s| && s[j] == x; }
      }
    }

    /** Index a new order; under the id of a resting one it takes that entry over. */
    method Register(o: Request, rem: int) returns (r: Resting)
      requires Valid()
      modifies this`seqNo, this`byID
      ensures fresh(r) && AsOrder(r) == Order(o.id, o.client, o.px, rem) && r.seqNo == seqNo == old(seqNo) + 1
      ensures byID == old(byID)[o.id := r] && View() == old(View())
    {
      seqNo := seqNo + 1;
      r := new Resting(o.id, o.px, rem, seqNo, o.client);
      byID := byID[o.id := r];
    }

    /** Append a new order to its slice. */
    method File(r: Resting, side: Side)
      requires Ranked(Buy, bids) && Ranked(Sell, asks) && !side.OtherSide?
      requires Numbered(r.seqNo - 1, bids) && Numbered(r.seqNo - 1, asks)
      modifies this`bids, this`asks
      ensures Ranked(Buy, bids) && Ranked(Sell, asks) && Numbered(r.seqNo, bids) && Numbered(r.seqNo, asks)
      ensures View() == Rested(old(View()), side, AsOrder(r))
      ensures Orders() == old(Orders()) + {r}
      ensures forall x :: x in bids <==> x in old(bids) || (side.Buy? && x == r)
      ensures forall x :: x in asks <==> x in old(asks) || (!side.Buy? && x == r)
    {
      if side.Buy? {
        bids := Append(bids, Buy, r);
        assert Flats(asks) == old(Flats(asks));
      } else {
        asks := Append(asks, Sell, r);
        assert Flats(bids) == old(Flats(bids));
      }
    }

    /** The same with the index; `index` is the map before the order was registered. */
    method Place(r: Resting, side: Side, ghost index: map<Id, Resting>)
      requires Ranked(Buy, bids) && Ranked(Sell, asks) && (forall x | x in bids :: x !in asks)
      requires Numbered(seqNo - 1, bids) && Numbered(seqNo - 1, asks) && Listed(index, bids, asks)
      requires byID == index[r.id := r] && r.seqNo == seqNo && r !in bids && r !in asks && !side.OtherSide?
      modifies this`bids, this`asks
      ensures Valid() && View() == Rested(old(View()), side, AsOrder(r)) && Orders() == old(Orders()) + {r}
      ensures old(Held(index, bids) && Held(index, asks)) ==> (Complete() <==> r.id !in index)
    {
      ghost var b, a := bids, asks;
      File(r, side);
      if Held(index, b) && Held(index, a) { HeldExtended(index, b, a, r, bids, asks, side); }
    }

    lemma {:induction false} CutFlat(s: seq<Resting>, r: Resting)
      requires forall i | 0 <= i < |s| && s[i].id == r.id :: s[i] == r
      ensures Flats(Cut(s, r)) == Without(Flats(s), r.id)
    {
      if s == [] {
      } else {
        FlatsDrop(s);
        if s[0] != r {
          CutFlat(s[1..], r);
          assert Flats(Cut(s, r)) == [AsOrder(s[0])] + Flats(Cut(s[1..], r));
        }
      }
    }

    lemma CancelFlat(id: Id)
      requires Valid() && Complete()
      ensures Flats(Left(bids, byID, id)) == Without(Flats(bids), id)
      ensures Flats(Left(asks, byID, id)) == Without(Flats(asks), id)
    {
      if id in byID {
        CutFlat(bids, byID[id]);
        CutFlat(asks, byID[id]);
      } else {
        WithoutAbsent(Flats(bids), id);
        WithoutAbsent(Flats(asks), id);
      }
    }

    /** Cancel by id: the order the index names goes, which is the first of that id while the
        index is complete. */
    method CancelById(id: Id)
      requires Valid()
      modifies this`bids, this`asks, this`byID
      ensures Valid() && (old(Complete()) ==> Complete()) && Orders() <= old(Orders())
      ensures byID == old(byID) - {id}
      ensures bids == Left(old(bids), old(byID), id) && asks == Left(old(asks), old(byID), id)
      ensures View() == old(Book(Flats(Left(bids, byID, id)), Flats(Left(asks, byID, id))))
      ensures old(Complete()) ==> View() == old(Book(Without(View().bids, id), Without(View().asks, id)))
    {
      if Complete() { CancelFlat(id); }
      ghost var b, a := Flats(Left(bids, byID, id)), Flats(Left(asks, byID, id));
      if id in byID {
        var r := byID[id];
        CutSubset(bids, r);
        CutSubset(asks, r);
        Remove(r);
      }
      assert Flats(bids) == b && Flats(asks) == a;
    }

    /** The residual of a limit order rests behind all earlier arrivals at its price. */
    method Residual(o: Request, rem: int, ghost b: Book, ghost m: Outcome)
      requires Valid()
      requires View() == WithOpposite(b, OracleTaker(o).side, m.book) && rem == m.rem && !m.stopped
      modifies this
      ensures Valid() && View() == Settle(b, OracleTaker(o), m, o.kind.Limit?)
      ensures forall r | r in Orders() :: r in old(Orders()) || fresh(r)
      ensures old(Complete()) ==> (Complete() <==> !(o.kind.Limit? && rem > 0 && o.id in old(byID)))
      ensures o.kind.Limit? && rem > 0 ==> Names(Order(o.id, o.client, o.px, rem))
    {
      if rem > 0 && o.kind.Limit? {
        ghost var index := byID;
        var r := Register(o, rem);
        Place(r, if o.side.Buy? then Buy else Sell, index);
      }
    }

    lemma CancelsSecond(a: Order, b: Order)
      requires Valid() && View() == Book([], [a, b]) && a.id == b.id && a != b && Names(b)
      ensures Book(Flats(Left(bids, byID, b.id)), Flats(Left(asks, byID, b.id))) == Book([], [a])
    {
      var r := byID[b.id];
      assert Flats(asks)[0] == a && Flats(asks)[1] == b;
      assert r in asks;
      CutAt(asks, r, 1);
    }

    lemma Unknown(a: Order)
      requires Valid() && View() == Book([], [a]) && a.id !in byID
      ensures byID == map[]
    {
      assert forall r | r in asks :: r.id == a.id by {
        assert Flats(asks)[0] == a;
      }
    }

    /** The ids of the index are those of the flat book. */
    lemma KeysAreIds()
      requires Valid() && Complete()
      ensures byID.Keys == Ids(View().bids) + Ids(View().asks)
    {
      forall k | k in byID ensures k in Ids(View().bids) + Ids(View().asks) {
        var r := byID[k];
        if r in bids {
          var i :| 0 <= i < |bids| && bids[i] == r;
          assert View().bids[i].id == k;
        } else {
          var i :| 0 <= i < |asks| && asks[i] == r;
          assert View().asks[i].id == k;
        }
      }
    }

    method ApplyTrade(o: Request) returns (filled: int, ghost m: Outcome)
      requires Valid()
      modifies this, Orders()
      ensures Valid() && m == Traded(old(View()), o)
      ensures View() == Settle(old(View()), OracleTaker(o), m, o.kind.Limit?) && filled == o.qty - m.rem
      ensures forall r | r in Orders() :: r in old(Orders()) || fresh(r)
      ensures old(Complete()) && !o.kind.Cancel? ==> (Complete() <==> !RestsOnUsedId(old(View()), o))
      ensures o.kind.Limit? && m.rem > 0 ==> Names(Order(o.id, o.client, o.px, m.rem))
    {
      var rem;
      filled, rem, m := Take(o, OracleTaker(o));
      if Complete() { KeysAreIds(); }
      Residual(o, rem, old(View()), m);
    }

    /** One order through the oracle; returns the quantity it filled on arrival. A cancel takes the
        order its index names. The index stays complete unless a remainder rests under the id of an
        order that rests already. */
    method Apply(o: Request) returns (filled: int)
      requires Valid()
      modifies this, Orders()
      ensures Valid() && (!o.kind.Cancel? || old(Complete()) ==> (View(), filled) == OracleRules.Apply(old(View()), o))
      ensures o.kind.Cancel? ==>
                View() == old(Book(Flats(Left(bids, byID, o.target)), Flats(Left(asks, byID, o.target))))
      ensures o.kind.Cancel? ==> filled == 0 && byID == old(byID) - {o.target}
      ensures old(Complete()) ==> (Complete() <==> !RestsOnUsedId(old(View()), o))
      ensures var rem := Traded(old(View()), o).rem;
              o.kind.Limit? && rem > 0 ==> Names(Order(o.id, o.client, o.px, rem))
      ensures forall r | r in Orders() :: r in old(Orders()) || fresh(r)
    {
      if o.kind.Cancel? {
        CancelById(o.target);
        return 0;
      }
      ghost var m;
      filled, m := ApplyTrade(o);
    }
  }

  /** Two sells under one id: both rest, and byID holds the second. */
  method SellTwice() returns (oracle: ReferenceBook)
    ensures fresh(oracle) && oracle.Valid() && oracle.Names(Order(Some(7), Some(2), 200, 5))
    ensures oracle.View() == Book([], [Order(Some(7), Some(1), 100, 5), Order(Some(7), Some(2), 200, 5)])
    ensures fresh(oracle.Orders())
  {
    oracle := new ReferenceBook();
    var first := Request(Some(7), Some(1), Sell, Limit, 100, 5, None);
    var second := Request(Some(7), Some(2), Sell, Limit, 200, 5, None);
    SellsRest(first, second);
    var filled := oracle.Apply(first);
    filled := oracle.Apply(second);
  }

  /** With two sells under one id, of which byID holds the second, a cancel of the id takes that
      one: the first still rests, and byID is empty. */
  method CancelStrands(oracle: ReferenceBook, cancel: Request, ghost a: Order, ghost b: Order)
    requires oracle.Valid() && oracle.View() == Book([], [a, b]) && a.id == b.id && a != b && oracle.Names(b)
    requires cancel.kind.Cancel? && cancel.target == a.id
    modifies oracle, oracle.Orders()
    ensures oracle.Valid() && oracle.View() == Book([], [a]) && oracle.byID == map[]
  {
    oracle.CancelsSecond(a, b);
    var filled := oracle.Apply(cancel);
    oracle.Unknown(a);
  }

  /** From an empty book: two sells under one id and a cancel of it. */
  method SharedIdStrands() returns (oracle: ReferenceBook)
    ensures oracle.Valid() && oracle.byID == map[]
    ensures oracle.View() == Book([], [Order(Some(7), Some(1), 100, 5)])
  {
    oracle := SellTwice();
    CancelStrands(oracle, Request(Some(8), Some(2), Sell, Cancel, 0, 0, Some(7)),
                  Order(Some(7), Some(1), 100, 5), Order(Some(7), Some(2), 200, 5));
  }
}
