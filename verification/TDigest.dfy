// The t-digest sketch over the reals: points are staged in a buffer, the buffer is folded
// into centroids sorted by mean, and quantiles interpolate between neighbouring centroids.
module TDigest {
  import opened Flat

  datatype Centroid = Centroid(mean: real, weight: real)

  /** A number as callers pass it. */
  datatype Number = Finite(value: real) | Infinite(positive: bool) | NaN

  // ----- totals -----

  /** The sum over the points of some quantity of a point. */
  function Sum(f: Centroid -> real, s: seq<Centroid>): real { if s == [] then 0.0 else f(s[0]) + Sum(f, s[1..]) }

  function WeightOf(c: Centroid): real { c.weight }

  function MomentOf(c: Centroid): real { c.mean * c.weight }

  function Weight(s: seq<Centroid>): real { Sum(WeightOf, s) }

  /** Total weight times mean. */
  function Mass(s: seq<Centroid>): real { Sum(MomentOf, s) }

  predicate Heavy(s: seq<Centroid>) { forall i | 0 <= i < |s| :: s[i].weight > 0.0 }

  ghost predicate ByMean(s: seq<Centroid>) { forall i, j | 0 <= i < j < |s| :: s[i].mean <= s[j].mean }

  ghost predicate Within(s: seq<Centroid>, lo: real, hi: real) { forall i | 0 <= i < |s| :: lo <= s[i].mean <= hi }

  lemma {:induction false} SumConcat(f: Centroid -> real, a: seq<Centroid>, b: seq<Centroid>)
    ensures Sum(f, a + b) == Sum(f, a) + Sum(f, b)
  {
    if a == [] {
      assert a + b == b;
    } else {
      assert (a + b)[1..] == a[1..] + b;
      SumConcat(f, a[1..], b);
    }
  }

  lemma WithinConcat(a: seq<Centroid>, b: seq<Centroid>, lo: real, hi: real)
    ensures Within(a + b, lo, hi) <==> Within(a, lo, hi) && Within(b, lo, hi)
  {
    if Within(a + b, lo, hi) {
      forall i | 0 <= i < |a| ensures lo <= a[i].mean <= hi { assert (a + b)[i] == a[i]; }
      forall i | 0 <= i < |b| ensures lo <= b[i].mean <= hi { assert (a + b)[|a| + i] == b[i]; }
    }
  }

  lemma SumPush(f: Centroid -> real, s: seq<Centroid>, c: Centroid)
    ensures Sum(f, s + [c]) == Sum(f, s) + f(c)
  {
    SumConcat(f, s, [c]);
    assert [c][1..] == [];
  }

  lemma Prefix(f: Centroid -> real, s: seq<Centroid>, i: nat)
    requires i < |s|
    ensures Sum(f, s[..i + 1]) == Sum(f, s[..i]) + f(s[i])
  {
    assert s[..i + 1] == s[..i] + [s[i]];
    SumPush(f, s[..i], s[i]);
  }

  lemma SumSwap(f: Centroid -> real, s: seq<Centroid>, a: seq<Centroid>, b: seq<Centroid>, c: seq<Centroid>)
    requires Sum(f, c) == Sum(f, a) + Sum(f, b)
    ensures Sum(f, s + c) == Sum(f, s + a + b)
  {
    SumConcat(f, s + a, b);
    SumConcat(f, s, a);
    SumConcat(f, s, c);
  }

  lemma {:induction false} WeightPositive(s: seq<Centroid>)
    requires Heavy(s)
    ensures Weight(s) >= 0.0 && (Weight(s) == 0.0 <==> s == [])
  {
    if s == [] {
    } else {
      WeightPositive(s[1..]);
    }
  }

  // ----- the sort -----

  function InsertByMean(c: Centroid, s: seq<Centroid>): seq<Centroid> {
    if s == [] || c.mean <= s[0].mean then [c] + s else [s[0]] + InsertByMean(c, s[1..])
  }

  /** The library's stable sort by mean. */
  function SortByMean(s: seq<Centroid>): seq<Centroid> {
    if s == [] then [] else InsertByMean(s[0], SortByMean(s[1..]))
  }

  lemma {:induction false} InsertByMeanMembers(c: Centroid, s: seq<Centroid>)
    ensures multiset(InsertByMean(c, s)) == multiset(s) + multiset{c} && |InsertByMean(c, s)| == |s| + 1
  {
    if s != [] && s[0].mean < c.mean {
      InsertByMeanMembers(c, s[1..]);
      assert s == [s[0]] + s[1..];
    }
  }

  lemma {:induction false} InsertByMeanSorted(c: Centroid, s: seq<Centroid>)
    requires ByMean(s)
    ensures ByMean(InsertByMean(c, s))
  {
    if s != [] && s[0].mean < c.mean {
      var t := InsertByMean(c, s[1..]);
      InsertByMeanSorted(c, s[1..]);
      InsertByMeanMembers(c, s[1..]);
      forall i | 0 <= i < |t| ensures s[0].mean <= t[i].mean {
        assert t[i] in multiset(t);
        if t[i] != c {
          assert t[i] in multiset(s[1..]);
        }
      }
    }
  }

  lemma {:induction false} InsertByMeanSum(f: Centroid -> real, c: Centroid, s: seq<Centroid>)
    ensures Sum(f, InsertByMean(c, s)) == f(c) + Sum(f, s)
  {
    if s != [] && s[0].mean < c.mean {
      InsertByMeanSum(f, c, s[1..]);
      assert InsertByMean(c, s)[1..] == InsertByMean(c, s[1..]);
    } else {
      assert ([c] + s)[1..] == s;
    }
  }

  lemma InsertPermutes(c: Centroid, r: seq<Centroid>, t: seq<Centroid>)
    requires ByMean(r) && multiset(r) == multiset(t) && |r| == |t|
    ensures var x := InsertByMean(c, r);
            ByMean(x) && multiset(x) == multiset([c] + t) && |x| == |t| + 1
  {
    InsertByMeanSorted(c, r);
    InsertByMeanMembers(c, r);
  }

  /** Sorting orders by mean and permutes. */
  lemma {:induction false} SortPermutes(s: seq<Centroid>)
    ensures ByMean(SortByMean(s)) && multiset(SortByMean(s)) == multiset(s) && |SortByMean(s)| == |s|
  {
    if s == [] {
    } else {
      SortPermutes(s[1..]);
      InsertPermutes(s[0], SortByMean(s[1..]), s[1..]);
      assert [s[0]] + s[1..] == s;
    }
  }

  lemma {:induction false} SortSum(f: Centroid -> real, s: seq<Centroid>)
    ensures Sum(f, SortByMean(s)) == Sum(f, s)
  {
    if s == [] {
    } else {
      SortSum(f, s[1..]);
      InsertByMeanSum(f, s[0], SortByMean(s[1..]));
    }
  }

  lemma SortWithin(s: seq<Centroid>, lo: real, hi: real)
    requires Within(s, lo, hi)
    ensures Within(SortByMean(s), lo, hi)
  {
    SortPermutes(s);
    var r := SortByMean(s);
    forall i | 0 <= i < |r| ensures lo <= r[i].mean <= hi {
      assert r[i] in multiset(r);
      assert r[i] in multiset(s);
    }
  }

  lemma SortHeavy(s: seq<Centroid>)
    requires Heavy(s)
    ensures Heavy(SortByMean(s))
  {
    SortPermutes(s);
    var r := SortByMean(s);
    forall i | 0 <= i < |r| ensures r[i].weight > 0.0 {
      assert r[i] in multiset(r);
      assert r[i] in multiset(s);
    }
  }

  // ----- compression -----

  /** A point absorbed by a centroid. */
  function Join(c: Centroid, n: Centroid): Centroid
    requires c.weight > 0.0 && n.weight > 0.0
  {
    Centroid(c.mean + (n.mean - c.mean) * n.weight / (c.weight + n.weight), c.weight + n.weight)
  }

  /** The joined mean is the weighted mean, so it lies between the two. */
  lemma JoinMean(c: Centroid, n: Centroid)
    requires c.weight > 0.0 && n.weight > 0.0
    ensures Join(c, n).mean * Join(c, n).weight == c.mean * c.weight + n.mean * n.weight
    ensures c.mean <= n.mean ==> c.mean <= Join(c, n).mean <= n.mean
  {
    var d, w := n.mean - c.mean, c.weight + n.weight;
    var x := d * n.weight / w;
    assert x * w == d * n.weight;
    if d >= 0.0 {
      assert d * n.weight >= 0.0;
      assert d * n.weight <= d * w;
      assert 0.0 <= x <= d;
    }
  }

  /** What compression makes of the points `rest` after a centroid `cur` that began where
      `bound` is the limit, `before` being the weight up to `rest`. */
  ghost function Compress(limit: real -> real, total: real, cur: Centroid, bound: real, before: real,
                          rest: seq<Centroid>): (r: seq<Centroid>)
    requires total > 0.0 && cur.weight > 0.0 && Heavy(rest)
    ensures |r| > 0 && Heavy(r)
    decreases |rest|
  {
    if rest == [] then [cur]
    else if (before + rest[0].weight) / total <= bound then
      Compress(limit, total, Join(cur, rest[0]), bound, before + rest[0].weight, rest[1..])
    else [cur] + Compress(limit, total, rest[0], limit(before / total), before + rest[0].weight, rest[1..])
  }

  lemma SumCut(f: Centroid -> real, cur: Centroid, t: seq<Centroid>, r: seq<Centroid>)
    requires r == [cur] + t
    ensures Sum(f, r) == f(cur) + Sum(f, t)
  {
    assert r[1..] == t;
  }

  /** Joining two centroids adds this quantity up. */
  ghost predicate AddsUp(f: Centroid -> real) {
    forall c: Centroid, n: Centroid {:trigger Join(c, n)} | c.weight > 0.0 && n.weight > 0.0 ::
      f(Join(c, n)) == f(c) + f(n)
  }

  /** A quantity that joining adds up is the same in total after compression. */
  lemma {:induction false} CompressSum(f: Centroid -> real, limit: real -> real, total: real, cur: Centroid,
                                       bound: real, before: real, rest: seq<Centroid>, r: seq<Centroid>)
    requires total > 0.0 && cur.weight > 0.0 && Heavy(rest) && r == Compress(limit, total, cur, bound, before, rest)
    requires AddsUp(f)
    ensures Sum(f, r) == f(cur) + Sum(f, rest)
    decreases |rest|
  {
    if rest == [] {
      SumCut(f, cur, [], r);
    } else if (before + rest[0].weight) / total <= bound {
      CompressSum(f, limit, total, Join(cur, rest[0]), bound, before + rest[0].weight, rest[1..], r);
    } else {
      var t := Compress(limit, total, rest[0], limit(before / total), before + rest[0].weight, rest[1..]);
      CompressSum(f, limit, total, rest[0], limit(before / total), before + rest[0].weight, rest[1..], t);
      SumCut(f, cur, t, r);
    }
  }

  lemma CompressTotals(limit: real -> real, total: real, cur: Centroid, bound: real, before: real, rest: seq<Centroid>)
    requires total > 0.0 && cur.weight > 0.0 && Heavy(rest)
    ensures var r := Compress(limit, total, cur, bound, before, rest);
            Weight(r) == Weight([cur] + rest) && Mass(r) == Mass([cur] + rest)
  {
    var r := Compress(limit, total, cur, bound, before, rest);
    forall c: Centroid, n: Centroid | c.weight > 0.0 && n.weight > 0.0
      ensures MomentOf(Join(c, n)) == MomentOf(c) + MomentOf(n)
    {
      JoinMean(c, n);
    }
    CompressSum(WeightOf, limit, total, cur, bound, before, rest, r);
    CompressSum(MomentOf, limit, total, cur, bound, before, rest, r);
    assert ([cur] + rest)[1..] == rest;
  }

  /** Compression of sorted points is sorted and stays within their range. */
  lemma SortedCut(cur: Centroid, t: seq<Centroid>, lo: real, hi: real)
    requires ByMean(t) && Within(t, cur.mean, hi) && lo <= cur.mean <= hi
    ensures ByMean([cur] + t) && Within([cur] + t, lo, hi)
  {}

  /** The points after `cur` are sorted, none below it or above `hi`. */
  ghost predicate Follow(cur: Centroid, rest: seq<Centroid>, hi: real) {
    ByMean(rest) && Within(rest, cur.mean, hi)
  }

  lemma FollowHead(s: seq<Centroid>, lo: real, hi: real)
    requires s != [] && ByMean(s) && Within(s, lo, hi)
    ensures Follow(s[0], s[1..], hi) && lo <= s[0].mean <= hi
  {}

  lemma FollowOn(cur: Centroid, n: Centroid, rest: seq<Centroid>, hi: real)
    requires rest != [] && Follow(cur, rest, hi) && n.mean <= rest[0].mean
    ensures Follow(n, rest[1..], hi)
  {
    forall i | 0 <= i < |rest[1..]| ensures n.mean <= rest[1..][i].mean <= hi {
      assert rest[0].mean <= rest[i + 1].mean;
    }
  }

  lemma {:induction false} CompressSorted(limit: real -> real, total: real, cur: Centroid, bound: real, before: real,
                                          rest: seq<Centroid>, lo: real, hi: real, r: seq<Centroid>)
    requires total > 0.0 && cur.weight > 0.0 && Heavy(rest) && r == Compress(limit, total, cur, bound, before, rest)
    requires Follow(cur, rest, hi) && lo <= cur.mean <= hi
    ensures ByMean(r) && Within(r, lo, hi)
    decreases |rest|
  {
    if rest == [] {
    } else {
      var n := rest[0];
      if (before + n.weight) / total <= bound {
        JoinMean(cur, n);
        FollowOn(cur, Join(cur, n), rest, hi);
        CompressSorted(limit, total, Join(cur, n), bound, before + n.weight, rest[1..], lo, hi, r);
      } else {
        var t := Compress(limit, total, n, limit(before / total), before + n.weight, rest[1..]);
        FollowOn(cur, n, rest, hi);
        CompressSorted(limit, total, n, limit(before / total), before + n.weight, rest[1..], cur.mean, hi, t);
        SortedCut(cur, t, lo, hi);
      }
    }
  }

  /** The size bound of the sketch: a centroid is a single point, or ends within the limit that
      the scale function sets for where it starts. */
  ghost predicate Bounded(limit: real -> real, total: real, points: set<Centroid>, start: real, s: seq<Centroid>)
    requires total > 0.0
  {
    forall k | 0 <= k < |s| ::
      var q := start + Weight(s[..k]);
      s[k] in points || (q + s[k].weight) / total <= limit(q / total)
  }

  lemma BoundedCons(limit: real -> real, total: real, points: set<Centroid>, start: real, cur: Centroid,
                    t: seq<Centroid>)
    requires total > 0.0 && Bounded(limit, total, points, start + cur.weight, t)
    requires cur in points || (start + cur.weight) / total <= limit(start / total)
    ensures Bounded(limit, total, points, start, [cur] + t)
  {
    var s := [cur] + t;
    forall k | 0 <= k < |s|
      ensures var q := start + Weight(s[..k]);
              s[k] in points || (q + s[k].weight) / total <= limit(q / total)
    {
      if k > 0 {
        assert s[..k][1..] == t[..k - 1];
        assert start + Weight(s[..k]) == start + cur.weight + Weight(t[..k - 1]);
      }
    }
  }

  lemma {:induction false} CompressBounded(limit: real -> real, total: real, cur: Centroid, start: real,
                                           rest: seq<Centroid>, points: set<Centroid>)
    requires total > 0.0 && cur.weight > 0.0 && Heavy(rest) && forall i | 0 <= i < |rest| :: rest[i] in points
    requires cur in points || (start + cur.weight) / total <= limit(start / total)
    ensures Bounded(limit, total, points, start, Compress(limit, total, cur, limit(start / total),
      start + cur.weight, rest))
    decreases |rest|
  {
    if rest == [] {
      BoundedCons(limit, total, points, start, cur, []);
    } else {
      var before, n := start + cur.weight, rest[0];
      if (before + n.weight) / total <= limit(start / total) {
        CompressBounded(limit, total, Join(cur, n), start, rest[1..], points);
      } else {
        var t := Compress(limit, total, n, limit(before / total), before + n.weight, rest[1..]);
        CompressBounded(limit, total, n, before, rest[1..], points);
        BoundedCons(limit, total, points, start, cur, t);
      }
    }
  }

  /** The centroids made of all these points. */
  ghost function Compressed(limit: real -> real, points: seq<Centroid>): seq<Centroid>
    requires points != [] && Heavy(points)
  {
    var s := SortByMean(points);
    SortHeavy(points); SortPermutes(points); WeightPositive(points);
    Compress(limit, Weight(points), s[0], limit(0.0), s[0].weight, s[1..])
  }

  lemma CompressedTotals(limit: real -> real, points: seq<Centroid>)
    requires points != [] && Heavy(points)
    ensures var r := Compressed(limit, points); Weight(r) == Weight(points) && Mass(r) == Mass(points)
  {
    var s := SortByMean(points);
    SortHeavy(points); SortPermutes(points); WeightPositive(points);
    SortSum(WeightOf, points); SortSum(MomentOf, points);
    assert [s[0]] + s[1..] == s;
    CompressTotals(limit, Weight(points), s[0], limit(0.0), s[0].weight, s[1..]);
  }

  lemma CompressedWithin(limit: real -> real, points: seq<Centroid>, lo: real, hi: real)
    requires points != [] && Heavy(points) && Within(points, lo, hi)
    ensures ByMean(Compressed(limit, points)) && Within(Compressed(limit, points), lo, hi)
  {
    var s := SortByMean(points);
    SortHeavy(points); SortPermutes(points); WeightPositive(points);
    SortWithin(points, lo, hi);
    FollowHead(s, lo, hi);
    CompressSorted(limit, Weight(points), s[0], limit(0.0), s[0].weight, s[1..], lo, hi, Compressed(limit, points));
  }

  /** Some range holds the points. */
  lemma {:induction false} InSomeRange(s: seq<Centroid>) returns (lo: real, hi: real)
    ensures Within(s, lo, hi)
  {
    if s == [] {
      lo, hi := 0.0, 0.0;
    } else {
      lo, hi := InSomeRange(s[1..]);
      if s[0].mean < lo { lo := s[0].mean; }
      if s[0].mean > hi { hi := s[0].mean; }
      forall i | 0 <= i < |s| ensures lo <= s[i].mean <= hi {
        assert i > 0 ==> s[i] == s[1..][i - 1];
      }
    }
  }

  /** Compression keeps the total weight and mass, sorts, and respects range and size bound. */
  lemma CompressedKeeps(limit: real -> real, points: seq<Centroid>)
    requires points != [] && Heavy(points)
    ensures var r := Compressed(limit, points);
            && r != [] && Heavy(r) && ByMean(r) && Weight(r) == Weight(points) && Mass(r) == Mass(points)
            && (forall lo, hi | Within(points, lo, hi) :: Within(r, lo, hi))
  {
    CompressedTotals(limit, points);
    var least, most := InSomeRange(points);
    CompressedWithin(limit, points, least, most);
    forall lo, hi | Within(points, lo, hi) ensures Within(Compressed(limit, points), lo, hi) {
      CompressedWithin(limit, points, lo, hi);
    }
  }

  lemma CompressedBounded(limit: real -> real, points: seq<Centroid>)
    requires points != [] && Heavy(points)
    ensures Weight(points) > 0.0 && Bounded(limit, Weight(points), set c | c in points, 0.0, Compressed(limit, points))
  {
    var s, total := SortByMean(points), Weight(points);
    SortHeavy(points); SortPermutes(points); WeightPositive(points);
    forall i | 0 <= i < |s| ensures s[i] in points {
      assert s[i] in multiset(s);
      assert s[i] in multiset(points);
    }
    assert 0.0 / total == 0.0;
    CompressBounded(limit, total, s[0], 0.0, s[1..], set c | c in points);
  }

  lemma PrefixRises(s: seq<Centroid>, i: nat, k: nat)
    requires i <= k <= |s| && Heavy(s)
    ensures Weight(s[..i]) <= Weight(s[..k])
  {
    assert s[..k] == s[..i] + s[i..k];
    SumConcat(WeightOf, s[..i], s[i..k]);
    WeightPositive(s[i..k]);
  }

  // ----- which points are joined -----

  /** A centroid that begins at position `b` may take in the point at `i`: it then ends no further
      than the limit for where it begins. */
  ghost predicate Fits(limit: real -> real, s: seq<Centroid>, b: nat, i: nat)
    requires b <= i < |s| && Weight(s) > 0.0
  {
    Weight(s[..i + 1]) / Weight(s) <= limit(Weight(s[..b]) / Weight(s))
  }

  /** `c` has the weight and the mass of these points. */
  predicate StandsFor(c: Centroid, s: seq<Centroid>) { c.weight == Weight(s) && c.mean * c.weight == Mass(s) }

  /** `c` stands for the points from `b` to before `e`: every further one of them fits, and the
      first after them does not. */
  ghost predicate Slice(limit: real -> real, s: seq<Centroid>, b: nat, e: nat, c: Centroid)
    requires Weight(s) > 0.0
  {
    && b < e <= |s| && StandsFor(c, s[b..e])
    && (forall i | b < i < e :: Fits(limit, s, b, i)) && (e < |s| ==> !Fits(limit, s, b, e))
  }

  /** From the first cut on, `r` stands for the slices between the cuts. */
  ghost predicate Slices(limit: real -> real, s: seq<Centroid>, cuts: seq<nat>, r: seq<Centroid>)
    requires Weight(s) > 0.0
  {
    && r != [] && |cuts| == |r| + 1 && cuts[|r|] == |s|
    && forall k | 0 <= k < |r| :: Slice(limit, s, cuts[k], cuts[k + 1], r[k])
  }

  /** The centroids `r` are the sorted points `s` joined greedily. */
  ghost predicate Joins(limit: real -> real, s: seq<Centroid>, r: seq<Centroid>)
    requires Weight(s) > 0.0
  {
    exists cuts: seq<nat> :: cuts != [] && cuts[0] == 0 && Slices(limit, s, cuts, r)
  }

  /** `r` is what greedy joining makes of the points, once they are sorted. */
  ghost predicate Greedy(limit: real -> real, points: seq<Centroid>, r: seq<Centroid>) {
    Weight(SortByMean(points)) > 0.0 && Joins(limit, SortByMean(points), r)
  }

  lemma StandsOn(c: Centroid, s: seq<Centroid>, b: nat, i: nat)
    requires Heavy(s) && b < i < |s| && StandsFor(c, s[b..i]) && c.weight > 0.0
    ensures StandsFor(Join(c, s[i]), s[b..i + 1])
  {
    assert s[b..i + 1] == s[b..i] + [s[i]];
    SumPush(WeightOf, s[b..i], s[i]);
    SumPush(MomentOf, s[b..i], s[i]);
    JoinMean(c, s[i]);
  }

  lemma StandsAlone(s: seq<Centroid>, i: nat)
    requires i < |s|
    ensures StandsFor(s[i], s[i..i + 1])
  {
    assert s[i..i + 1] == [] + [s[i]];
    SumPush(WeightOf, [], s[i]);
    SumPush(MomentOf, [], s[i]);
  }

  lemma SlicesCons(limit: real -> real, s: seq<Centroid>, b: nat, c: Centroid, cuts: seq<nat>, r: seq<Centroid>)
    requires Weight(s) > 0.0 && Slices(limit, s, cuts, r) && Slice(limit, s, b, cuts[0], c)
    ensures Slices(limit, s, [b] + cuts, [c] + r)
  {
    var cs, q := [b] + cuts, [c] + r;
    forall k | 0 <= k < |q| ensures Slice(limit, s, cs[k], cs[k + 1], q[k]) {
      if k > 0 { assert q[k] == r[k - 1]; }
    }
  }

  lemma {:induction false} CompressSlices(limit: real -> real, s: seq<Centroid>, b: nat, i: nat, cur: Centroid,
                                          r: seq<Centroid>)
    returns (cuts: seq<nat>)
    requires Heavy(s) && Weight(s) > 0.0 && b < i <= |s| && cur.weight > 0.0 && StandsFor(cur, s[b..i])
    requires forall j | b < j < i :: Fits(limit, s, b, j)
    requires r == Compress(limit, Weight(s), cur, limit(Weight(s[..b]) / Weight(s)), Weight(s[..i]), s[i..])
    ensures Slices(limit, s, cuts, r) && cuts[0] == b
    decreases |s| - i
  {
    if i == |s| {
      cuts := [b, i];
    } else {
      assert s[i..][0] == s[i] && s[i..][1..] == s[i + 1..];
      Prefix(WeightOf, s, i);
      if Fits(limit, s, b, i) {
        StandsOn(cur, s, b, i);
        cuts := CompressSlices(limit, s, b, i + 1, Join(cur, s[i]), r);
      } else {
        StandsAlone(s, i);
        cuts := CompressSlices(limit, s, i, i + 1, s[i], r[1..]);
        SlicesCons(limit, s, b, cur, cuts, r[1..]);
        cuts := [b] + cuts;
      }
    }
  }

  /** Compression joins the sorted points greedily. */
  lemma CompressedJoins(limit: real -> real, points: seq<Centroid>)
    requires points != [] && Heavy(points)
    ensures Greedy(limit, points, Compressed(limit, points))
  {
    var s := SortByMean(points);
    SortHeavy(points);
    SortPermutes(points);
    SortSum(WeightOf, points);
    WeightPositive(points);
    StandsAlone(s, 0);
    Prefix(WeightOf, s, 0);
    assert s[..0] == [] && 0.0 / Weight(s) == 0.0;
    var cuts := CompressSlices(limit, s, 0, 1, s[0], Compressed(limit, points));
  }

  lemma Cancels(x: real, y: real, w: real)
    requires x * w == y * w && w > 0.0
    ensures x == y
  {}

  lemma SliceUnique(limit: real -> real, s: seq<Centroid>, b: nat, e: nat, c: Centroid, e': nat, c': Centroid)
    requires Heavy(s) && Weight(s) > 0.0 && Slice(limit, s, b, e, c) && Slice(limit, s, b, e', c')
    ensures e == e' && c == c'
  {
    assert e == e';
    WeightPositive(s[b..e]);
    Cancels(c.mean, c'.mean, c.weight);
  }

  lemma CutsInside(limit: real -> real, s: seq<Centroid>, cuts: seq<nat>, r: seq<Centroid>)
    requires Weight(s) > 0.0 && Slices(limit, s, cuts, r)
    ensures forall k | 0 <= k < |r| :: cuts[k] < |s|
  {
    forall k | 0 <= k < |r| ensures cuts[k] < |s| {
      assert Slice(limit, s, cuts[k], cuts[k + 1], r[k]);
    }
  }

  lemma SlicesTail(limit: real -> real, s: seq<Centroid>, cuts: seq<nat>, r: seq<Centroid>)
    requires Weight(s) > 0.0 && Slices(limit, s, cuts, r) && |r| > 1
    ensures Slices(limit, s, cuts[1..], r[1..])
  {
    forall k | 0 <= k < |r[1..]| ensures Slice(limit, s, cuts[1..][k], cuts[1..][k + 1], r[1..][k]) {
      assert Slice(limit, s, cuts[k + 1], cuts[k + 2], r[k + 1]);
    }
  }

  lemma {:induction false} SlicesUnique(limit: real -> real, s: seq<Centroid>, cuts: seq<nat>, r: seq<Centroid>,
                                        cuts': seq<nat>, r': seq<Centroid>)
    requires Heavy(s) && Weight(s) > 0.0 && Slices(limit, s, cuts, r) && Slices(limit, s, cuts', r')
    requires cuts[0] == cuts'[0]
    ensures r == r'
    decreases |r|
  {
    assert Slice(limit, s, cuts[0], cuts[1], r[0]) && Slice(limit, s, cuts'[0], cuts'[1], r'[0]);
    SliceUnique(limit, s, cuts[0], cuts[1], r[0], cuts'[1], r'[0]);
    CutsInside(limit, s, cuts, r);
    CutsInside(limit, s, cuts', r');
    if |r| > 1 {
      SlicesTail(limit, s, cuts, r);
      SlicesTail(limit, s, cuts', r');
      SlicesUnique(limit, s, cuts[1..], r[1..], cuts'[1..], r'[1..]);
    }
    assert r == [r[0]] + r[1..] && r' == [r'[0]] + r'[1..];
  }

  /** Greedy joining has one result, and it is the compression. */
  lemma JoinsExactly(limit: real -> real, points: seq<Centroid>, r: seq<Centroid>)
    requires points != [] && Heavy(points)
    ensures Greedy(limit, points, r) <==> r == Compressed(limit, points)
  {
    var s, c := SortByMean(points), Compressed(limit, points);
    CompressedJoins(limit, points);
    SortHeavy(points);
    if Greedy(limit, points, r) {
      var cuts: seq<nat> :| cuts != [] && cuts[0] == 0 && Slices(limit, s, cuts, r);
      var cuts': seq<nat> :| cuts' != [] && cuts'[0] == 0 && Slices(limit, s, cuts', c);
      SlicesUnique(limit, s, cuts, r, cuts', c);
    }
  }

  lemma AtMostWhole(x: real, w: real)
    requires x <= w && w > 0.0
    ensures x / w <= 1.0
  {}

  lemma {:induction false} AllFits(limit: real -> real, s: seq<Centroid>, i: nat)
    requires Heavy(s) && Weight(s) > 0.0 && i < |s| && forall q :: limit(q) >= 1.0
    ensures Fits(limit, s, 0, i)
  {
    PrefixRises(s, i + 1, |s|);
    assert s[..|s|] == s;
    AtMostWhole(Weight(s[..i + 1]), Weight(s));
  }

  /** With room for everything there is one centroid. */
  lemma {:induction false} OneCentroid(limit: real -> real, s: seq<Centroid>, r: seq<Centroid>)
    requires Heavy(s) && Weight(s) > 0.0 && Joins(limit, s, r) && forall q :: limit(q) >= 1.0
    ensures |r| == 1 && StandsFor(r[0], s)
  {
    var cuts: seq<nat> :| cuts != [] && cuts[0] == 0 && Slices(limit, s, cuts, r);
    var e := cuts[1];
    assert Slice(limit, s, 0, e, r[0]);
    if e < |s| { AllFits(limit, s, e); }
    assert s[0..|s|] == s;
    CutsInside(limit, s, cuts, r);
  }

  // ----- what adding many points does -----

  /** Centroids and staged points after adding `s` one by one to a buffer that folds at size `b`. */
  ghost function Taken(limit: real -> real, b: real, c: seq<Centroid>, u: seq<Centroid>, s: seq<Centroid>)
    : (r: (seq<Centroid>, seq<Centroid>))
    requires Heavy(c) && Heavy(u) && Heavy(s)
    ensures Heavy(r.0) && Heavy(r.1)
    decreases |s|
  {
    if s == [] then (c, u)
    else
      var v := u + [s[0]];
      if |v| as real < b then Taken(limit, b, c, v, s[1..]) else Taken(limit, b, Compressed(limit, c + v), [], s[1..])
  }

  /** Without a fold everything is staged. */
  lemma {:induction false} TakenStaged(limit: real -> real, b: real, c: seq<Centroid>, u: seq<Centroid>,
                                       s: seq<Centroid>)
    requires Heavy(c) && Heavy(u) && Heavy(s) && (|u| + |s|) as real < b
    ensures Taken(limit, b, c, u, s) == (c, u + s)
    decreases |s|
  {
    if s == [] {
      assert u + s == u;
    } else {
      TakenStaged(limit, b, c, u + [s[0]], s[1..]);
      assert u + [s[0]] + s[1..] == u + s;
    }
  }

  /** The number of staged points at which a buffer of this size is folded. */
  function Capacity(b: real): (n: nat)
    requires b >= 0.0
    ensures n as real >= b > n as real - 1.0
  {
    if b.Floor as real == b then b.Floor else b.Floor + 1
  }

  /** The points of `s` over and over, `n` of them. */
  function Repeated(s: seq<Centroid>, n: nat): (r: seq<Centroid>)
    requires s != []
    ensures |r| == n
  {
    seq(n, k requires 0 <= k < n => s[k % |s|])
  }

  lemma Multiple(n: int, d: int)
    requires n > 0
    ensures (d >= 1 ==> n * d >= n) && (d <= -1 ==> n * d <= -n)
  {}

  lemma Unique(n: nat, k: nat, q: nat, r: nat)
    requires 0 < n && r < n && k == n * q + r
    ensures k % n == r
  {
    var d := k / n - q;
    assert n * d == r - k % n;
    Multiple(n, d);
  }

  lemma Around(n: nat, k: nat)
    requires n > 0
    ensures (k + n) % n == k % n
  {
    var q, r := k / n, k % n;
    assert k + n == n * (q + 1) + r;
    Unique(n, k + n, q + 1, r);
  }

  lemma RepeatedOn(s: seq<Centroid>, i: nat)
    requires s != []
    ensures Repeated(s, |s| + i)[i] == s[i % |s|]
    ensures Repeated(s, |s| + i + 1) == Repeated(s, |s| + i) + [s[i % |s|]]
  {
    Around(|s|, i);
  }

  lemma RepeatedAt(s: seq<Centroid>, n: nat, k: nat)
    requires s != [] && k < n
    ensures Repeated(s, n)[k] == s[k % |s|]
  {}

  lemma RepeatedOnce(s: seq<Centroid>)
    requires s != []
    ensures Repeated(s, |s|) == s
  {
    forall k | 0 <= k < |s| ensures Repeated(s, |s|)[k] == s[k] {
      Unique(|s|, k, 0, k);
    }
  }

  /** The first point of least mean, with which folding begins. */
  function Least(s: seq<Centroid>): (k: nat)
    requires s != []
    ensures k < |s|
  {
    if |s| == 1 then 0
    else
      var k := Least(s[1..]);
      if s[0].mean <= s[k + 1].mean then 0 else k + 1
  }

  lemma {:induction false} SortHead(s: seq<Centroid>)
    requires s != []
    ensures SortByMean(s) != [] && SortByMean(s)[0] == s[Least(s)]
  {
    if |s| == 1 {
      assert SortByMean(s[1..]) == [];
    } else {
      SortHead(s[1..]);
    }
  }

  /** The walked points after the fold `f` of them, seen from position `i` on. */
  function Renewed(c: seq<Centroid>, w: seq<Centroid>, f: seq<Centroid>, i: int): (r: seq<Centroid>)
    requires w != [] && f != [] && Heavy(w) && Heavy(f)
    ensures |r| == |w| && Heavy(r)
  {
    var j := Least(c + w) - |c|;
    if j >= 0 && j >= i then w[j := f[0]] else w
  }

  /** What is added by a walk over the staged points `u` that adds each to the array it walks. Once
      that array holds a full buffer it is folded and grows no more; the point that folding began
      with is then the first centroid, and the walk meets it as such if it still lies ahead. */
  ghost function Again(limit: real -> real, b: real, c: seq<Centroid>, u: seq<Centroid>): (r: seq<Centroid>)
    requires Heavy(c) && Heavy(u) && b > 0.0
    ensures Heavy(r)
  {
    if u == [] then []
    else
      var w := Repeated(u, Capacity(b));
      Renewed(c, w, Compressed(limit, c + w), |w| - |u|)
  }

  /** It adds a full buffer, which up to the last points is the staged ones over and over. */
  lemma AgainWalks(limit: real -> real, b: real, c: seq<Centroid>, u: seq<Centroid>)
    requires Heavy(c) && Heavy(u) && b > 0.0 && u != []
    ensures var r := Again(limit, b, c, u);
            && |r| as real >= b > |r| as real - 1.0
            && forall k | 0 <= k < |r| - |u| :: r[k] == u[k % |u|]
  {
    var w := Repeated(u, Capacity(b));
    var r := Renewed(c, w, Compressed(limit, c + w), |w| - |u|);
    forall k | 0 <= k < |r| - |u| ensures r[k] == u[k % |u|] { RepeatedAt(u, Capacity(b), k); }
  }

  /** The walk goes on over its own array. */
  lemma WalkOn(u: seq<Centroid>, walk: seq<Centroid>, i: nat)
    requires u != [] && walk == Repeated(u, |u| + i)
    ensures walk + [walk[i]] == Repeated(u, |u| + i + 1)
    ensures (walk + [walk[i]])[..i + 1] == walk[..i] + [walk[i]]
  {
    RepeatedOn(u, i);
  }

  /** The walk is past position `i` of an array that grows no more; `again` was added so far. */
  ghost predicate Walking(out: seq<Centroid>, walk: seq<Centroid>, again: seq<Centroid>, i: nat) {
    Heavy(out) && i <= |walk| == |out| && again == out[..i] && forall k | i <= k < |out| :: walk[k] == out[k]
  }

  lemma WalkAhead(out: seq<Centroid>, walk: seq<Centroid>, again: seq<Centroid>, i: nat)
    requires Walking(out, walk, again, i)
    ensures i == |walk| ==> again == out
    ensures i < |walk| ==> walk[i].weight > 0.0 && Walking(out, walk, again + [walk[i]], i + 1)
  {}

  /** The array after the fold: the point that folding began with has become the first centroid. */
  function Cut(c: seq<Centroid>, w: seq<Centroid>, first: Centroid): seq<Centroid>
    requires w != []
  {
    var j := Least(c + w) - |c|;
    if j >= 0 then w[j := first] else w
  }

  lemma WalkFolded(c: seq<Centroid>, w: seq<Centroid>, f: seq<Centroid>, i: nat)
    requires w != [] && f != [] && Heavy(w) && Heavy(f) && i <= |w|
    ensures Walking(Renewed(c, w, f, i), Cut(c, w, f[0]), w[..i], i)
  {}

  /** That array, in terms of what the walk will have added in all. */
  lemma WalkEnds(limit: real -> real, b: real, c: seq<Centroid>, u: seq<Centroid>, w: seq<Centroid>, i: nat,
                 f: seq<Centroid>)
    requires Heavy(c) && Heavy(u) && u != [] && w == Repeated(u, |u| + i) && w != []
    requires |w| as real >= b > |w| as real - 1.0 && b > 0.0 && Heavy(w) && f == Compressed(limit, c + w)
    ensures Walking(Again(limit, b, c, u), Cut(c, w, f[0]), w[..i], i)
  {
    assert |w| == Capacity(b);
    WalkFolded(c, w, f, i);
  }

  lemma {:induction false} WeightAtLeast(a: seq<Centroid>, b: seq<Centroid>)
    requires |a| == |b| && forall i | 0 <= i < |a| :: a[i].weight >= b[i].weight
    ensures Weight(a) >= Weight(b)
  {
    if a == [] {
    } else {
      WeightAtLeast(a[1..], b[1..]);
    }
  }

  lemma {:induction false} WeightAlike(s: seq<Centroid>, c: Centroid)
    requires forall i | 0 <= i < |s| :: s[i] == c
    ensures Weight(s) == |s| as real * c.weight
  {
    if s == [] {
    } else {
      WeightAlike(s[1..], c);
    }
  }

  lemma {:induction false} CompressHead(limit: real -> real, total: real, cur: Centroid, bound: real, before: real,
                                        rest: seq<Centroid>)
    requires total > 0.0 && cur.weight > 0.0 && Heavy(rest)
    ensures Compress(limit, total, cur, bound, before, rest)[0].weight >= cur.weight
    decreases |rest|
  {
    if rest == [] {
    } else if (before + rest[0].weight) / total <= bound {
      CompressHead(limit, total, Join(cur, rest[0]), bound, before + rest[0].weight, rest[1..]);
    }
  }

  /** The first centroid weighs no less than the point it began with. */
  lemma CompressedHead(limit: real -> real, s: seq<Centroid>)
    requires s != [] && Heavy(s)
    ensures Compressed(limit, s)[0].weight >= s[Least(s)].weight
  {
    var t := SortByMean(s);
    SortHeavy(s);
    SortPermutes(s);
    SortHead(s);
    WeightPositive(s);
    CompressHead(limit, Weight(s), t[0], limit(0.0), t[0].weight, t[1..]);
  }

  lemma RenewedWeighs(limit: real -> real, c: seq<Centroid>, w: seq<Centroid>, i: int)
    requires w != [] && Heavy(c) && Heavy(w)
    ensures Weight(Renewed(c, w, Compressed(limit, c + w), i)) >= Weight(w)
  {
    CompressedHead(limit, c + w);
    WeightAtLeast(Renewed(c, w, Compressed(limit, c + w), i), w);
  }

  lemma RepeatedWeighs(u: seq<Centroid>, n: nat)
    requires u != [] && Heavy(u) && |u| < n
    ensures Weight(Repeated(u, n)) > Weight(u)
  {
    var w := Repeated(u, n);
    RepeatedOnce(u);
    assert w[..|u|] == Repeated(u, |u|) && w == w[..|u|] + w[|u|..];
    SumConcat(WeightOf, w[..|u|], w[|u|..]);
    WeightPositive(w[|u|..]);
  }

  /** The walk adds more weight than was staged. */
  lemma AgainWeighs(limit: real -> real, b: real, c: seq<Centroid>, u: seq<Centroid>)
    requires Heavy(c) && Heavy(u) && b > 0.0 && u != [] && |u| as real < b
    ensures Weight(Again(limit, b, c, u)) > Weight(u)
  {
    var w := Repeated(u, Capacity(b));
    RepeatedWeighs(u, |w|);
    RenewedWeighs(limit, c, w, |w| - |u|);
  }

  // ----- quantiles -----

  function Mid(s: seq<Centroid>, i: nat): real
    requires i + 1 < |s|
  {
    (s[i].mean + s[i + 1].mean) / 2.0
  }

  /** The share of a range that `x` out of `w` takes. */
  function Portion(x: real, w: real, range: real): real
    requires w > 0.0
  {
    x / w * range
  }

  /** The value at `target` inside centroid `i`, which begins at `cum`. */
  function Interpolate(s: seq<Centroid>, i: nat, cum: real, target: real): real
    requires i < |s| && Heavy(s)
  {
    if i == 0 || i == |s| - 1 then s[i].mean
    else
      var range := (s[i + 1].mean - s[i - 1].mean) / 2.0;
      s[i - 1].mean + (s[i].mean - s[i - 1].mean) / 2.0 + Portion(target - cum, s[i].weight, range)
  }

  function Scan(s: seq<Centroid>, i: nat, cum: real, target: real): real
    requires i <= |s| && s != [] && Heavy(s)
    decreases |s| - i
  {
    if i == |s| then s[|s| - 1].mean
    else if target <= cum + s[i].weight then Interpolate(s, i, cum, target)
    else Scan(s, i + 1, cum + s[i].weight, target)
  }

  function Clamp(p: real): real { if p < 0.0 then 0.0 else if p > 1.0 then 1.0 else p }

  /** The weight at the quantile `p`, which is first brought into 0..1. */
  function Target(count: real, p: real): real { Clamp(p) * count }

  lemma Scaled(x: real, y: real, r: real)
    requires x <= y && r >= 0.0
    ensures x * r <= y * r
  {}

  lemma TargetRises(count: real, p: real, q: real)
    requires count >= 0.0 && p <= q
    ensures 0.0 <= Target(count, p) <= Target(count, q)
  {
    assert 0.0 * count == 0.0;
    Scaled(0.0, Clamp(p), count);
    Scaled(Clamp(p), Clamp(q), count);
  }

  function QuantileOf(s: seq<Centroid>, count: real, p: real): real
    requires s != [] && Heavy(s)
  {
    Scan(s, 0, 0.0, Target(count, p))
  }

  lemma Sign(d: real, w: real)
    requires w > 0.0
    ensures d * w > 0.0 <==> d > 0.0
  {}

  lemma Divided(x: real, y: real, w: real)
    requires x <= y && w > 0.0
    ensures x / w <= y / w
  {
    var p, q := x / w, y / w;
    assert p * w == x && q * w == y;
    assert (p - q) * w == x - y;
    Sign(p - q, w);
  }

  lemma Proportion(x: real, y: real, w: real, range: real)
    requires 0.0 <= x <= y <= w && w > 0.0 && range >= 0.0
    ensures 0.0 <= Portion(x, w, range) <= Portion(y, w, range) <= range
  {
    Divided(0.0, x, w);
    Divided(x, y, w);
    Divided(y, w, w);
    assert 0.0 / w == 0.0 && w / w == 1.0;
    var p, q := x / w, y / w;
    assert Portion(x, w, range) == p * range && Portion(y, w, range) == q * range;
    assert 0.0 * range == 0.0 && 1.0 * range == range;
    Scaled(0.0, p, range);
    Scaled(p, q, range);
    Scaled(q, 1.0, range);
  }

  /** The least value centroid `i` interpolates to. */
  function Lowest(s: seq<Centroid>, i: nat): real
    requires i < |s|
  {
    if i == 0 || i == |s| - 1 then s[i].mean else Mid(s, i - 1)
  }

  function Highest(s: seq<Centroid>, i: nat): real
    requires i < |s|
  {
    if i == 0 || i == |s| - 1 then s[i].mean else Mid(s, i)
  }

  /** Inside a centroid the value rises with the target, from midpoint to midpoint. */
  lemma InterpolateRises(s: seq<Centroid>, i: nat, cum: real, t: real, u: real)
    requires i < |s| && Heavy(s) && ByMean(s) && cum <= t <= u <= cum + s[i].weight
    ensures Lowest(s, i) <= Interpolate(s, i, cum, t) <= Interpolate(s, i, cum, u) <= Highest(s, i)
  {
    if 0 < i < |s| - 1 {
      Proportion(t - cum, u - cum, s[i].weight, (s[i + 1].mean - s[i - 1].mean) / 2.0);
    }
  }

  lemma {:induction false} ScanAbove(s: seq<Centroid>, i: nat, cum: real, t: real)
    requires i <= |s| && s != [] && Heavy(s) && ByMean(s) && cum <= t
    ensures (if i == |s| then s[|s| - 1].mean else Lowest(s, i)) <= Scan(s, i, cum, t) <= s[|s| - 1].mean
    decreases |s| - i
  {
    if i < |s| {
      if t <= cum + s[i].weight {
        InterpolateRises(s, i, cum, t, t);
      } else {
        ScanAbove(s, i + 1, cum + s[i].weight, t);
      }
    }
  }

  lemma {:induction false} ScanMonotone(s: seq<Centroid>, i: nat, cum: real, t: real, u: real)
    requires i <= |s| && s != [] && Heavy(s) && ByMean(s) && cum <= t <= u
    ensures Scan(s, i, cum, t) <= Scan(s, i, cum, u)
    decreases |s| - i
  {
    if i < |s| {
      var after := cum + s[i].weight;
      if t > after {
        ScanMonotone(s, i + 1, after, t, u);
      } else if u <= after {
        InterpolateRises(s, i, cum, t, u);
      } else {
        InterpolateRises(s, i, cum, t, t);
        ScanAbove(s, i + 1, after, u);
      }
    }
  }

  lemma QuantileOfOne(s: seq<Centroid>, count: real, p: real)
    requires |s| > 0 && Heavy(s)
    ensures |s| == 1 ==> QuantileOf(s, count, p) == s[0].mean
  {
    if |s| == 1 { assert Scan(s, 1, s[0].weight, Target(count, p)) == s[0].mean; }
  }

  /** Quantiles rise with `p`. */
  lemma QuantileMonotone(s: seq<Centroid>, count: real, p: real, q: real)
    requires s != [] && Heavy(s) && ByMean(s) && count >= 0.0 && p <= q
    ensures QuantileOf(s, count, p) <= QuantileOf(s, count, q)
  {
    TargetRises(count, p, q);
    ScanMonotone(s, 0, 0.0, Target(count, p), Target(count, q));
  }

  lemma QuantileWithin(s: seq<Centroid>, count: real, p: real, lo: real, hi: real)
    requires s != [] && Heavy(s) && ByMean(s) && count >= 0.0 && Within(s, lo, hi)
    ensures lo <= s[0].mean <= QuantileOf(s, count, p) <= s[|s| - 1].mean <= hi
  {
    TargetRises(count, p, p);
    ScanAbove(s, 0, 0.0, Target(count, p));
  }

  lemma {:induction false} ScanSkips(s: seq<Centroid>, i: nat, k: nat, cum: real, t: real)
    requires i <= k <= |s| && s != [] && Heavy(s) && cum == Weight(s[..i]) && (i < k ==> t > Weight(s[..k]))
    ensures Scan(s, i, cum, t) == Scan(s, k, Weight(s[..k]), t)
    decreases k - i
  {
    if i < k {
      Prefix(WeightOf, s, i);
      PrefixRises(s, i + 1, k);
      ScanSkips(s, i + 1, k, cum + s[i].weight, t);
    }
  }

  /** A quantile falls between the midpoints around the centroid that holds its rank. */
  lemma QuantileRank(s: seq<Centroid>, p: real, k: nat)
    requires Heavy(s) && ByMean(s) && k < |s|
    requires var target := Target(Weight(s), p);
             (k > 0 ==> Weight(s[..k]) < target) && target <= Weight(s[..k + 1])
    ensures Lowest(s, k) <= QuantileOf(s, Weight(s), p) <= Highest(s, k)
  {
    var target := Target(Weight(s), p);
    WeightPositive(s);
    TargetRises(Weight(s), p, p);
    ScanSkips(s, 0, k, 0.0, target);
    Prefix(WeightOf, s, k);
    InterpolateRises(s, k, Weight(s[..k]), target, target);
  }

  /** Bringing the quantile into 0..1 moves its target `x` into 0..count and no further. */
  lemma Clamped(count: real, p: real, x: real)
    requires count > 0.0 && x == p * count
    ensures Target(count, p) == if x < 0.0 then 0.0 else if x > count then count else x
  {
    if p < 0.0 { assert p * count < 0.0; }
    if p > 1.0 { assert p * count > count; }
    if 0.0 <= p <= 1.0 { assert 0.0 <= p * count <= count; }
  }

  /** A target inside centroid `k` is found there. */
  lemma ScanStops(s: seq<Centroid>, k: nat, t: real)
    requires Heavy(s) && k < |s| && (k > 0 ==> t > Weight(s[..k])) && t <= Weight(s[..k]) + s[k].weight
    ensures Scan(s, 0, 0.0, t) == Interpolate(s, k, Weight(s[..k]), t)
  {
    ScanSkips(s, 0, k, 0.0, t);
  }

  lemma Shared(cum: real, t: real, f: real, w: real, range: real)
    requires w > 0.0 && 0.0 < f <= 1.0 && t == cum + f * w
    ensures cum < t <= cum + w && Portion(t - cum, w, range) == f * range
  {
    Scaled(f, 1.0, w);
    assert t - cum == f * w && f * w / w == f;
  }

  /** From the midpoint before an inner centroid to the midpoint after it. */
  function Span(s: seq<Centroid>, k: nat): real
    requires 0 < k < |s| - 1
  {
    (s[k + 1].mean - s[k - 1].mean) / 2.0
  }

  /** Linear interpolation inside an inner centroid is from midpoint to midpoint. */
  lemma Climbs(s: seq<Centroid>, k: nat, cum: real, t: real, f: real)
    requires Heavy(s) && 0 < k < |s| - 1 && Portion(t - cum, s[k].weight, Span(s, k)) == f * Span(s, k)
    ensures Interpolate(s, k, cum, t) == (s[k - 1].mean + s[k].mean) / 2.0 + f * Span(s, k)
  {}

  /** Inside an inner centroid the quantile climbs linearly from the midpoint before it to the
      midpoint after it: at a share `f` of its weight it has climbed the same share of the way. */
  lemma QuantileInside(s: seq<Centroid>, p: real, k: nat, f: real)
    requires Heavy(s) && 0 < k < |s| - 1 && 0.0 < f <= 1.0
    requires p * Weight(s) == Weight(s[..k]) + f * s[k].weight
    ensures var before, after := (s[k - 1].mean + s[k].mean) / 2.0, (s[k].mean + s[k + 1].mean) / 2.0;
            QuantileOf(s, Weight(s), p) == before + f * (after - before)
  {
    var t, cum := p * Weight(s), Weight(s[..k]);
    Shared(cum, t, f, s[k].weight, Span(s, k));
    WeightPositive(s);
    WeightPositive(s[..k]);
    Prefix(WeightOf, s, k);
    PrefixRises(s, k + 1, |s|);
    assert s[..|s|] == s;
    Clamped(Weight(s), p, t);
    ScanStops(s, k, t);
    Climbs(s, k, cum, t, f);
    assert (s[k].mean + s[k + 1].mean) / 2.0 - (s[k - 1].mean + s[k].mean) / 2.0 == Span(s, k);
  }

  /** In the first centroid the quantile is its mean, and below 0 it stays there. */
  lemma QuantileFirst(s: seq<Centroid>, p: real)
    requires Heavy(s) && s != [] && p * Weight(s) <= s[0].weight
    ensures QuantileOf(s, Weight(s), p) == s[0].mean
  {
    WeightPositive(s);
    Clamped(Weight(s), p, p * Weight(s));
    assert s[..0] == [];
    ScanStops(s, 0, Target(Weight(s), p));
  }

  lemma ScanLast(s: seq<Centroid>, cum: real, t: real)
    requires Heavy(s) && s != []
    ensures Scan(s, |s| - 1, cum, t) == s[|s| - 1].mean
  {
    assert Scan(s, |s|, cum + s[|s| - 1].weight, t) == s[|s| - 1].mean;
  }

  /** In the last centroid it is that one's mean, and beyond 1 it stays there. */
  lemma QuantileLast(s: seq<Centroid>, p: real)
    requires Heavy(s) && s != [] && p * Weight(s) > Weight(s[..|s| - 1])
    ensures QuantileOf(s, Weight(s), p) == s[|s| - 1].mean
  {
    var n, t := |s| - 1, Target(Weight(s), p);
    WeightPositive(s);
    WeightPositive(s[..n]);
    Prefix(WeightOf, s, n);
    assert s[..|s|] == s;
    Clamped(Weight(s), p, p * Weight(s));
    ScanSkips(s, 0, n, 0.0, t);
    ScanLast(s, Weight(s[..n]), t);
  }

  // ----- the digest -----

  class TDigest {
    const compression: real
    const bufferSize: real
    /** Where a centroid that starts at this rank must end. */
    const limit: real -> real
    var centroids: seq<Centroid>
    var count: real
    var unmerged: seq<Centroid>
    var unmergedWeight: real
    /** Every point accepted since the last reset. */
    ghost var points: seq<Centroid>

    /** `Valid`, with the buffer possibly full. */
    ghost predicate Sound()
      reads this
    {
      && ByMean(centroids) && Heavy(centroids) && Heavy(unmerged) && Heavy(points)
      && count == Weight(centroids) && unmergedWeight == Weight(unmerged)
      && Weight(points) == count + unmergedWeight
      && Mass(points) == Mass(centroids) + Mass(unmerged)
      && bufferSize >= 50.0
      && (forall lo, hi | Within(points, lo, hi) :: Within(centroids, lo, hi) && Within(unmerged, lo, hi))
    }

    ghost predicate Valid()
      reads this
    {
      Sound() && |unmerged| as real < bufferSize
    }

    constructor (compression: real, limit: real -> real)
      ensures Valid() && points == [] && centroids == [] && unmerged == []
      ensures this.compression == compression && this.limit == limit
      ensures bufferSize == if 50.0 > compression * 5.0 then 50.0 else compression * 5.0
    {
      this.compression, this.limit := compression, limit;
      bufferSize := if 50.0 > compression * 5.0 then 50.0 else compression * 5.0;
      centroids, count, unmerged, unmergedWeight, points := [], 0.0, [], 0.0, [];
    }

    method Reset()
      requires bufferSize >= 50.0
      modifies this
      ensures Valid() && points == [] && centroids == [] && unmerged == []
    {
      centroids, count, unmerged, unmergedWeight, points := [], 0.0, [], 0.0, [];
    }

    method Stage(c: Centroid)
      requires Valid() && c.weight > 0.0
      modifies this`unmerged, this`unmergedWeight, this`points
      ensures Sound() && unmerged == old(unmerged) + [c] && points == old(points) + [c]
    {
      SumPush(WeightOf, unmerged, c);
      SumPush(MomentOf, unmerged, c);
      SumPush(WeightOf, points, c);
      SumPush(MomentOf, points, c);
      ghost var was, staged := points, unmerged;
      unmerged := unmerged + [c];
      unmergedWeight := unmergedWeight + c.weight;
      points := points + [c];
      forall lo, hi | Within(points, lo, hi) ensures Within(centroids, lo, hi) && Within(unmerged, lo, hi) {
        WithinConcat(was, [c], lo, hi);
        WithinConcat(staged, [c], lo, hi);
      }
    }

    method Absorb(cur: Centroid, next: Centroid) returns (c: Centroid)
      requires cur.weight > 0.0 && next.weight > 0.0
      ensures c == Join(cur, next)
    {
      var newWeight := cur.weight + next.weight;
      return Centroid(cur.mean + (next.mean - cur.mean) * next.weight / newWeight, newWeight);
    }

    method RunningWeights(all: seq<Centroid>) returns (cumulative: seq<real>)
      ensures |cumulative| == |all| && (all != [] ==> cumulative[0] == all[0].weight)
      ensures forall k | 0 < k < |all| :: cumulative[k] == cumulative[k - 1] + all[k].weight
    {
      cumulative := [];
      var sum := 0.0;
      for j := 0 to |all|
        invariant |cumulative| == j && sum == if j == 0 then 0.0 else cumulative[j - 1]
        invariant j > 0 ==> cumulative[0] == all[0].weight
        invariant forall k | 0 < k < j :: cumulative[k] == cumulative[k - 1] + all[k].weight
      {
        sum := sum + all[j].weight;
        cumulative := cumulative + [sum];
      }
    }

    /** One point of the pass: the current centroid grows, or it is done. */
    lemma FoldStep(total: real, done: seq<Centroid>, cur: Centroid, bound: real, before: real, rest: seq<Centroid>,
                   out: seq<Centroid>)
      requires total > 0.0 && cur.weight > 0.0 && Heavy(rest) && rest != []
      requires done + Compress(limit, total, cur, bound, before, rest) == out
      ensures var n := rest[0];
              if (before + n.weight) / total <= bound
              then done + Compress(limit, total, Join(cur, n), bound, before + n.weight, rest[1..]) == out
              else done + [cur] + Compress(limit, total, n, limit(before / total), before + n.weight, rest[1..]) == out
    {}

    /** The pass over the sorted points: grow the current centroid up to its limit, then start another. */
    method Fold(all: seq<Centroid>, total: real, ghost out: seq<Centroid>) returns (compressed: seq<Centroid>)
      requires all != [] && Heavy(all) && total > 0.0
      requires out == Compress(limit, total, all[0], limit(0.0), all[0].weight, all[1..])
      ensures compressed == out
    {
      compressed := [];
      var cumulative := RunningWeights(all);
      var cur := all[0];
      var qLimit := limit(0.0);
      for i := 1 to |all|
        invariant cur.weight > 0.0
        invariant compressed + Compress(limit, total, cur, qLimit, cumulative[i - 1], all[i..]) == out
      {
        var next := all[i];
        assert all[i..][0] == next && all[i..][1..] == all[i + 1..];
        FoldStep(total, compressed, cur, qLimit, cumulative[i - 1], all[i..], out);
        if (cumulative[i - 1] + next.weight) / total <= qLimit {
          cur := Absorb(cur, next);
        } else {
          compressed := compressed + [cur];
          cur := Centroid(next.mean, next.weight);
          qLimit := limit(cumulative[i - 1] / total);
        }
      }
      compressed := compressed + [cur];
    }

    /** What folding makes of centroids `c` and staged points `u`. */
    lemma FoldKeeps(c: seq<Centroid>, u: seq<Centroid>)
      requires Heavy(c) && Heavy(u) && u != []
      ensures var r, all, total := Compressed(limit, c + u), SortByMean(c + u), Weight(c) + Weight(u);
              && Heavy(r) && ByMean(r) && Weight(r) == total && Mass(r) == Mass(c) + Mass(u)
              && all != [] && Heavy(all) && total > 0.0
              && r == Compress(limit, total, all[0], limit(0.0), all[0].weight, all[1..])
      ensures forall lo, hi | Within(c, lo, hi) && Within(u, lo, hi) :: Within(Compressed(limit, c + u), lo, hi)
    {
      SumConcat(WeightOf, c, u);
      SumConcat(MomentOf, c, u);
      CompressedKeeps(limit, c + u);
      SortHeavy(c + u);
      SortPermutes(c + u);
      WeightPositive(c + u);
      forall lo, hi | Within(c, lo, hi) && Within(u, lo, hi) ensures Within(Compressed(limit, c + u), lo, hi) {
        WithinConcat(c, u, lo, hi);
      }
    }

    method FoldStaged()
      requires Sound() && unmerged != []
      modifies this
      ensures Valid() && unmerged == [] && points == old(points)
      ensures centroids == Compressed(limit, old(centroids + unmerged))
    {
      FoldKeeps(centroids, unmerged);
      ghost var out := Compressed(limit, centroids + unmerged);
      var all := SortByMean(centroids + unmerged);
      count := count + unmergedWeight;
      unmerged := [];
      unmergedWeight := 0.0;
      centroids := Fold(all, count, out);
    }

    /** Fold the staged points into the centroids: all of them sorted by mean and joined greedily. */
    method MergeBuffer()
      requires Sound()
      modifies this
      ensures Valid() && unmerged == [] && points == old(points)
      ensures centroids == if old(unmerged) == [] then old(centroids) else Compressed(limit, old(centroids + unmerged))
      ensures old(unmerged) != [] ==> Greedy(limit, old(centroids + unmerged), centroids)
    {
      if |unmerged| == 0 { return; }
      CompressedJoins(limit, centroids + unmerged);
      FoldStaged();
    }

    /** Accept a point; anything but a finite value is dropped, and a weight that is not positive counts as 1. */
    method Add(value: Number, weight: real)
      requires Valid()
      modifies this
      ensures Valid()
      ensures !value.Finite? ==> points == old(points) && centroids == old(centroids) && unmerged == old(unmerged)
      ensures value.Finite? ==> points == old(points) + [Centroid(value.value, if weight > 0.0 then weight else 1.0)]
      ensures value.Finite? ==>
        var all := old(unmerged) + [Centroid(value.value, if weight > 0.0 then weight else 1.0)];
        if |all| as real < bufferSize then unmerged == all && centroids == old(centroids)
        else unmerged == [] && centroids == Compressed(limit, old(centroids) + all)
    {
      if !value.Finite? { return; }
      var w := if weight > 0.0 then weight else 1.0;
      var c := Centroid(value.value, w);
      Stage(c);
      if |unmerged| as real >= bufferSize { MergeBuffer(); }
    }

    /** Linear interpolation around an inner centroid. */
    method Between(i: nat, cumPrev: real, target: real) returns (v: real)
      requires 0 < i < |centroids| - 1 && Heavy(centroids)
      ensures v == Interpolate(centroids, i, cumPrev, target)
    {
      var prev, c, next := centroids[i - 1], centroids[i], centroids[i + 1];
      var range := (next.mean - prev.mean) / 2.0;
      var fraction := (target - cumPrev) / c.weight;
      return prev.mean + (c.mean - prev.mean) / 2.0 + fraction * range;
    }

    /** The scan over the centroids. */
    method Read(p: real) returns (r: real)
      requires centroids != [] && Heavy(centroids)
      ensures r == QuantileOf(centroids, count, p)
    {
      QuantileOfOne(centroids, count, p);
      if |centroids| == 1 { return centroids[0].mean; }
      var q := if p < 0.0 then 0.0 else if p > 1.0 then 1.0 else p;
      var target := q * count;
      assert q == Clamp(p) && target == Target(count, p);
      var cum := 0.0;
      for i := 0 to |centroids|
        invariant Scan(centroids, i, cum, target) == QuantileOf(centroids, count, p)
      {
        var c := centroids[i];
        var cumPrev := cum;
        cum := cum + c.weight;
        if target <= cum {
          if i == 0 || i == |centroids| - 1 { return c.mean; }
          var v := Between(i, cumPrev, target);
          return v;
        }
      }
      return centroids[|centroids| - 1].mean;
    }

    /** The value at quantile `p`, after folding in whatever is staged; `None` without any point. */
    method Quantile(p: real) returns (r: Option<real>)
      requires Valid()
      modifies this
      ensures Valid() && unmerged == [] && points == old(points)
      ensures centroids == if old(unmerged) == [] then old(centroids) else Compressed(limit, old(centroids + unmerged))
      ensures r.None? <==> points == []
      ensures r.Some? ==> centroids != [] && r.value == QuantileOf(centroids, count, p)
      ensures forall lo, hi | r.Some? && Within(points, lo, hi) :: lo <= r.value <= hi
    {
      if |unmerged| > 0 { MergeBuffer(); }
      WeightPositive(points);
      WeightPositive(centroids);
      if |centroids| == 0 { return None; }
      forall lo, hi | Within(points, lo, hi) ensures lo <= QuantileOf(centroids, count, p) <= hi {
        QuantileWithin(centroids, count, p, lo, hi);
      }
      var v := Read(p);
      return Some(v);
    }

    /** `count` is the weight of everything taken in exactly while nothing is staged. */
    lemma CountIsTotal()
      requires Valid()
      ensures count == Weight(points) <==> unmerged == []
    {
      WeightPositive(unmerged);
    }

    /** The total weight taken in, staged or not. */
    function TotalWeight(): real
      reads this
    {
      count + unmergedWeight
    }

    method AddOne(c: Centroid)
      requires Valid() && c.weight > 0.0
      modifies this
      ensures Valid() && points == old(points) + [c]
      ensures var all := old(unmerged) + [c];
              if |all| as real < bufferSize then unmerged == all && centroids == old(centroids)
              else unmerged == [] && centroids == Compressed(limit, old(centroids) + all)
    {
      Add(Finite(c.mean), c.weight);
    }

    method AddAll(s: seq<Centroid>)
      requires Valid() && Heavy(s)
      modifies this
      ensures Valid() && points == old(points) + s
      ensures (centroids, unmerged) == old(Taken(limit, bufferSize, centroids, unmerged, s))
    {
      ghost var end := Taken(limit, bufferSize, centroids, unmerged, s);
      assert s[0..] == s;
      for i := 0 to |s|
        invariant Valid() && points == old(points) + s[..i]
        invariant Taken(limit, bufferSize, centroids, unmerged, s[i..]) == end
      {
        assert s[..i + 1] == s[..i] + [s[i]];
        assert s[i..][0] == s[i] && s[i..][1..] == s[i + 1..];
        AddOne(s[i]);
      }
    }

    /** The walk has added `again`, its array is the staging array still, and nothing was folded. */
    ghost predicate WalksOwn(c: seq<Centroid>, u: seq<Centroid>, walk: seq<Centroid>, again: seq<Centroid>, i: nat)
      reads this
    {
      && u != [] && i < |walk| && walk == Repeated(u, |u| + i) && again == walk[..i]
      && centroids == c && unmerged == walk
    }

    /** Add point `i` of the walk, and to its array too. Returns whether the array is still its own. */
    method AddWalked(walk: seq<Centroid>, i: nat, ghost c: seq<Centroid>, ghost u: seq<Centroid>,
                     ghost again: seq<Centroid>)
      returns (next: seq<Centroid>, own: bool)
      requires Valid() && WalksOwn(c, u, walk, again, i) && Heavy(c) && Heavy(u)
      modifies this
      ensures Valid() && points == old(points) + [walk[i]]
      ensures own ==> WalksOwn(c, u, next, again + [walk[i]], i + 1)
      ensures !own ==> Walking(Again(limit, bufferSize, c, u), next, again + [walk[i]], i + 1)
    {
      WalkOn(u, walk, i);
      var before := centroids;
      next := walk + [walk[i]];
      AddOne(walk[i]);
      own := |unmerged| > 0;
      if !own {
        WalkEnds(limit, bufferSize, c, u, next, i + 1, centroids);
        next := Cut(before, next, centroids[0]);
      }
    }

    /** Where the walk stands. */
    ghost predicate Stands(c: seq<Centroid>, u: seq<Centroid>, out: seq<Centroid>, walk: seq<Centroid>,
                           again: seq<Centroid>, i: nat, own: bool)
      reads this
    {
      if own then WalksOwn(c, u, walk, again, i) else Walking(out, walk, again, i)
    }

    method AddNext(walk: seq<Centroid>, i: nat, own: bool, ghost c: seq<Centroid>, ghost u: seq<Centroid>,
                   ghost again: seq<Centroid>, ghost out: seq<Centroid>, ghost was: seq<Centroid>)
      returns (next: seq<Centroid>, stays: bool)
      requires Valid() && i < |walk| && Stands(c, u, out, walk, again, i, own) && points == was + again
      requires Heavy(c) && Heavy(u) && out == Again(limit, bufferSize, c, u)
      modifies this
      ensures Valid() && points == was + (again + [walk[i]])
      ensures Stands(c, u, out, next, again + [walk[i]], i + 1, stays) && (stays ==> own)
      ensures if stays then |next| > |walk| else own || next == walk
      ensures stays ==> |next| <= Capacity(bufferSize)
    {
      if own {
        next, stays := AddWalked(walk, i, c, u, again);
      } else {
        WalkAhead(out, walk, again, i);
        AddOne(walk[i]);
        return walk, false;
      }
    }

    method WalkStaged(ghost c: seq<Centroid>, ghost u: seq<Centroid>, ghost out: seq<Centroid>)
      requires Valid() && c == centroids && u == unmerged != [] && Stands(c, u, out, u, [], 0, true)
      requires Heavy(c) && Heavy(u) && out == Again(limit, bufferSize, c, u)
      modifies this
      ensures Valid() && points == old(points) + out
    {
      ghost var again := [];
      var walk, own := unmerged, true;
      var i := 0;
      while i < |walk|
        invariant Valid() == old(Valid()) && points == old(points) + again && Stands(c, u, out, walk, again, i, own)
        decreases own, if own then Capacity(bufferSize) - |walk| else |walk| - i
      {
        ghost var p := walk[i];
        walk, own := AddNext(walk, i, own, c, u, again, out, old(points));
        again := again + [p];
        i := i + 1;
      }
      WalkAhead(out, walk, again, i);
    }

    /** Walk the staging array and add each of its points to the digest, and so to the array too
        while it is the digest's own. */
    method AddOwn()
      requires Valid()
      modifies this
      ensures Valid() && points == old(points + Again(limit, bufferSize, centroids, unmerged))
    {
      if |unmerged| == 0 { return; }
      RepeatedOnce(unmerged);
      WalkStaged(centroids, unmerged, Again(limit, bufferSize, centroids, unmerged));
    }

    /** The other digest's centroids stand for the points behind them. */
    ghost method Credit(was: seq<Centroid>, other: TDigest)
      requires Valid() && other.Valid() && other != this && Heavy(was)
      requires points == was + other.centroids + other.unmerged
      modifies this`points
      ensures Valid() && points == was + other.points
    {
      SumSwap(WeightOf, was, other.centroids, other.unmerged, other.points);
      SumSwap(MomentOf, was, other.centroids, other.unmerged, other.points);
      forall lo, hi | Within(was + other.points, lo, hi) ensures Within(points, lo, hi) {
        WithinConcat(was, other.points, lo, hi);
        WithinConcat(was, other.centroids, lo, hi);
        WithinConcat(was + other.centroids, other.unmerged, lo, hi);
      }
      points := was + other.points;
    }

    /** What merging this digest into itself adds beside its centroids. */
    ghost function SelfAgain(): seq<Centroid>
      requires Valid()
      reads this
    {
      var (c, u) := Taken(limit, bufferSize, centroids, unmerged, centroids);
      Again(limit, bufferSize, c, u)
    }

    method MergeOther(other: TDigest)
      requires Valid() && other.Valid() && other != this && other.centroids != []
      modifies this
      ensures Valid() && points == old(points) + other.points
      ensures TotalWeight() == old(TotalWeight()) + other.TotalWeight()
    {
      AddAll(other.centroids);
      AddAll(other.unmerged);
      Credit(old(points), other);
      SumConcat(WeightOf, old(points), other.points);
    }

    method MergeSelf()
      requires Valid() && centroids != []
      modifies this
      ensures Valid() && points == old(points + centroids + SelfAgain())
      ensures TotalWeight() == old(TotalWeight() + TotalWeight()) <==> old(Weight(SelfAgain()) == unmergedWeight)
    {
      ghost var again := SelfAgain();
      AddAll(centroids);
      AddOwn();
      SumConcat(WeightOf, old(points + centroids), again);
      SumConcat(WeightOf, old(points), old(centroids));
    }

    lemma NoCentroids()
      requires Valid() && centroids == []
      ensures TotalWeight() == unmergedWeight && (TotalWeight() == 0.0 <==> unmerged == [])
    {
      WeightPositive(unmerged);
    }

    /** Take in all of another digest. If it has no centroid yet, its staged points are dropped. A
        digest merged into itself takes its staged points in over and over, up to a full buffer. */
    method Merge(other: TDigest)
      requires Valid() && other.Valid()
      modifies this
      ensures Valid()
      ensures old(other.centroids) == [] ==>
        && points == old(points) && centroids == old(centroids) && unmerged == old(unmerged)
        && (TotalWeight() == old(TotalWeight() + other.TotalWeight()) <==> old(other.unmerged) == [])
      ensures old(other.centroids) != [] && other != this ==>
        points == old(points) + other.points && TotalWeight() == old(TotalWeight()) + other.TotalWeight()
      ensures old(centroids) != [] && other == this ==>
        && points == old(points + centroids + SelfAgain())
        && (TotalWeight() == old(TotalWeight() + TotalWeight()) <==> old(Weight(SelfAgain()) == unmergedWeight))
    {
      if |other.centroids| == 0 {
        other.NoCentroids();
        return;
      }
      if other == this { MergeSelf(); } else { MergeOther(other); }
    }

    /** A digest with a centroid that has room for its centroids in the buffer is never doubled by
        being merged into itself: it takes in more. */
    lemma SelfMergeInflates()
      requires Valid() && centroids != [] && (|unmerged| + |centroids|) as real < bufferSize
      ensures Weight(SelfAgain()) > unmergedWeight + count
    {
      TakenStaged(limit, bufferSize, centroids, unmerged, centroids);
      SumConcat(WeightOf, unmerged, centroids);
      AgainWeighs(limit, bufferSize, centroids, unmerged + centroids);
    }
  }

  lemma CompressedOne(limit: real -> real, c: Centroid)
    requires c.weight > 0.0
    ensures Compressed(limit, [c]) == [c]
  {
    assert [c][1..] == [] && SortByMean([c]) == [c];
  }

  /** What a digest of one point, folded, takes in when it is merged into itself. */
  lemma OnePointAgain(limit: real -> real, b: real, c: Centroid)
    requires c.weight > 0.0 && b > 1.0
    ensures var r := Again(limit, b, [c], [c]);
            |r| == Capacity(b) && forall k | 0 <= k < |r| :: r[k] == c
  {
    var w := Repeated([c], Capacity(b));
    assert forall k | 0 <= k < |w| + 1 :: ([c] + w)[k] == c;
    assert Least([c] + w) == 0;
  }

  /** Merging a digest whose points are all staged changes nothing. */
  method MergeDropsStaged(a: TDigest, b: TDigest)
    requires a.Valid() && b.Valid() && a != b && b.centroids == [] && b.unmerged != []
    modifies a
    ensures a.Valid() && a.points == old(a.points) && a.centroids == old(a.centroids) && a.unmerged == old(a.unmerged)
    ensures a.TotalWeight() < old(a.TotalWeight()) + b.TotalWeight()
  {
    WeightPositive(b.unmerged);
    a.Merge(b);
  }

  /** A digest that has taken in 5 and staged it is merged into an empty one, which stays empty. */
  method StagedIsDropped(limit: real -> real) returns (a: TDigest, b: TDigest)
    ensures b.Valid() && b.points == b.unmerged == [Centroid(5.0, 1.0)] && b.centroids == []
    ensures a.Valid() && a.points == [] && a.TotalWeight() == 0.0 && b.TotalWeight() == 1.0
  {
    a := new TDigest(200.0, limit);
    b := new TDigest(200.0, limit);
    b.Add(Finite(5.0), 1.0);
    MergeDropsStaged(a, b);
    WeightPositive(a.points);
    SumPush(WeightOf, [], Centroid(5.0, 1.0));
  }

  /** A digest with one folded point, merged into itself. */
  method MergeOnePoint(a: TDigest, ghost c: Centroid)
    requires a.Valid() && a.centroids == [c] && a.unmerged == [] && a.points == [c] && c.weight > 0.0
    modifies a
    ensures a.Valid() && |a.points| == 2 + Capacity(a.bufferSize) && forall k | 0 <= k < |a.points| :: a.points[k] == c
  {
    TakenStaged(a.limit, a.bufferSize, [c], [], [c]);
    OnePointAgain(a.limit, a.bufferSize, c);
    assert [] + [c] == [c];
    a.Merge(a);
  }

  /** A digest that has taken in the one point 5 and folded it. */
  method OnePoint(limit: real -> real) returns (a: TDigest)
    ensures fresh(a) && a.Valid() && a.bufferSize == 50.0
    ensures a.centroids == a.points == [Centroid(5.0, 1.0)] && a.unmerged == []
  {
    a := new TDigest(10.0, limit);
    a.Add(Finite(5.0), 1.0);
    assert [] + [Centroid(5.0, 1.0)] == [Centroid(5.0, 1.0)];
    CompressedOne(limit, Centroid(5.0, 1.0));
    var q := a.Quantile(0.5);
  }

  /** Merged into itself, it weighs 52. */
  method MergedIntoItself(limit: real -> real) returns (a: TDigest)
    ensures a.Valid() && a.TotalWeight() == 52.0
  {
    a := OnePoint(limit);
    MergeOnePoint(a, Centroid(5.0, 1.0));
    WeightAlike(a.points, Centroid(5.0, 1.0));
  }
}
