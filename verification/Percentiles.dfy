/** Latency percentiles: sort the samples, then index by rank. */
module Percentiles {

  // ---------------------------------------------------------------- sorting, by its specification

  predicate Sorted(s: seq<nat>) {
    forall i, j | 0 <= i < j < |s| :: s[i] <= s[j]
  }

  function Place(x: nat, s: seq<nat>): seq<nat> {
    if s == [] || x <= s[0] then [x] + s else [s[0]] + Place(x, s[1..])
  }

  /** The samples in ascending order. */
  function Sort(s: seq<nat>): seq<nat> {
    if s == [] then [] else Place(s[0], Sort(s[1..]))
  }

  lemma {:induction false} PlaceSorted(x: nat, s: seq<nat>)
    requires Sorted(s)
    ensures Sorted(Place(x, s)) && |Place(x, s)| == |s| + 1
    ensures Place(x, s)[0] == if s == [] || x <= s[0] then x else s[0]
  {
    if s != [] && x > s[0] {
      PlaceSorted(x, s[1..]);
      var t := Place(x, s[1..]);
      assert t[0] >= s[0];
      assert forall i | 0 <= i < |t| :: t[0] <= t[i];
    }
  }

  lemma {:induction false} PlaceMembers(x: nat, s: seq<nat>)
    ensures multiset(Place(x, s)) == multiset(s) + multiset{x}
  {
    if s != [] && x > s[0] {
      PlaceMembers(x, s[1..]);
      assert s == [s[0]] + s[1..];
    }
  }

  lemma {:induction false} SortSorted(s: seq<nat>)
    ensures Sorted(Sort(s)) && multiset(Sort(s)) == multiset(s) && |Sort(s)| == |s|
  {
    if s != [] {
      hide Sorted, Place;
      SortSorted(s[1..]);
      PlaceSorted(s[0], Sort(s[1..]));
      PlaceMembers(s[0], Sort(s[1..]));
      assert s == [s[0]] + s[1..];
    }
  }

  /** The first sample of an ascending list is the least of its samples. */
  lemma HeadLeast(s: seq<nat>, x: nat)
    requires Sorted(s) && x in multiset(s)
    ensures s != [] && s[0] <= x
  {
    assert x in s;
  }

  lemma TailOf(s: seq<nat>)
    requires s != [] && Sorted(s)
    ensures Sorted(s[1..]) && multiset(s[1..]) == multiset(s) - multiset{s[0]}
  {
    assert s == [s[0]] + s[1..];
  }

  lemma SameHead(s: seq<nat>, t: seq<nat>)
    requires s != [] && Sorted(s) && Sorted(t) && multiset(s) == multiset(t)
    ensures t != [] && s[0] == t[0]
  {
    assert s[0] in multiset(s);
    HeadLeast(t, s[0]);
    assert t[0] in multiset(t);
    HeadLeast(s, t[0]);
  }

  /** There is one ascending arrangement of given samples. */
  lemma {:induction false} SortedUnique(s: seq<nat>, t: seq<nat>)
    requires Sorted(s) && Sorted(t) && multiset(s) == multiset(t)
    ensures s == t
  {
    hide Sorted;
    if s == [] {
      assert |t| == |multiset(t)| == |multiset(s)|;
    } else {
      SameHead(s, t);
      TailOf(s);
      TailOf(t);
      SortedUnique(s[1..], t[1..]);
      assert s == [s[0]] + s[1..] && t == [t[0]] + t[1..];
    }
  }

  // ---------------------------------------------------------------- ranks

  /** How many samples are below `v`. */
  function CountBelow(s: seq<nat>, v: nat): nat {
    if s == [] then 0 else (if s[0] < v then 1 else 0) + CountBelow(s[1..], v)
  }

  lemma {:induction false} CountConcat(a: seq<nat>, b: seq<nat>, v: nat)
    ensures CountBelow(a + b, v) == CountBelow(a, v) + CountBelow(b, v)
  {
    if a == [] {
      assert a + b == b;
    } else {
      assert (a + b)[1..] == a[1..] + b;
      CountConcat(a[1..], b, v);
    }
  }

  lemma {:induction false} CountAtMostAll(s: seq<nat>, v: nat)
    ensures CountBelow(s, v) <= |s|
  {
    if s != [] {
      CountAtMostAll(s[1..], v);
    }
  }

  lemma {:induction false} CountAll(s: seq<nat>, v: nat)
    requires forall i | 0 <= i < |s| :: s[i] < v
    ensures CountBelow(s, v) == |s|
  {
    if s != [] {
      CountAll(s[1..], v);
    }
  }

  lemma {:induction false} CountNone(s: seq<nat>, v: nat)
    requires forall i | 0 <= i < |s| :: s[i] >= v
    ensures CountBelow(s, v) == 0
  {
    if s != [] {
      CountNone(s[1..], v);
    }
  }

  lemma {:induction false} PlaceCount(x: nat, s: seq<nat>, v: nat)
    ensures CountBelow(Place(x, s), v) == CountBelow(s, v) + (if x < v then 1 else 0)
  {
    if s == [] || x <= s[0] {
      assert ([x] + s)[1..] == s;
    } else {
      assert Place(x, s)[1..] == Place(x, s[1..]);
      PlaceCount(x, s[1..], v);
    }
  }

  lemma {:induction false} SortCount(s: seq<nat>, v: nat)
    ensures CountBelow(Sort(s), v) == CountBelow(s, v)
  {
    if s != [] {
      SortCount(s[1..], v);
      PlaceCount(s[0], Sort(s[1..]), v);
    }
  }

  lemma CountSplit(t: seq<nat>, k: nat, v: nat)
    requires k <= |t|
    requires forall i | k <= i < |t| :: t[i] >= v
    ensures CountBelow(t, v) <= k
  {
    assert t[..k] + t[k..] == t;
    CountConcat(t[..k], t[k..], v);
    CountAtMostAll(t[..k], v);
    CountNone(t[k..], v);
  }

  lemma CountPrefix(t: seq<nat>, k: nat, v: nat)
    requires k <= |t|
    requires forall i | 0 <= i < k :: t[i] < v
    ensures CountBelow(t, v) >= k
  {
    assert t[..k] + t[k..] == t;
    CountConcat(t[..k], t[k..], v);
    CountAll(t[..k], v);
  }

  /** The k-th smallest sample: at most k are below it, more than k are at most it. */
  lemma RankCount(t: seq<nat>, k: nat)
    requires Sorted(t) && k < |t|
    ensures CountBelow(t, t[k]) <= k && CountBelow(t, t[k] + 1) >= k + 1
  {
    CountSplit(t, k, t[k]);
    CountPrefix(t, k + 1, t[k] + 1);
  }

  // ---------------------------------------------------------------- the percentiles

  function IndexFor(len: nat, num: nat, den: nat): (k: nat)
    requires len > 0 && den > 0
    ensures k < len
  {
    var k := (len * num) / den;
    if k <= len - 1 then k else len - 1
  }

  function Percentile(sorted: seq<nat>, len: nat, p: nat): nat
    requires 0 < len == |sorted|
  {
    sorted[IndexFor(len, p, 100)]
  }

  /** Below one hundred percent the index is in range without the clamp. */
  lemma ClampIdle(len: nat, num: nat, den: nat)
    requires len > 0 && num < den
    ensures (len * num) / den < len
    ensures IndexFor(len, num, den) == (len * num) / den
  {
    var k := (len * num) / den;
    FloorBounds(len * num, den);
    LessTimes(num, den, len);
    TimesLess(k, len, den);
  }

  lemma FloorBounds(n: nat, den: nat)
    requires den > 0
    ensures (n / den) * den <= n < (n / den + 1) * den
  {
  }

  lemma LessTimes(x: nat, y: nat, d: nat)
    requires x < y && d > 0
    ensures x * d < y * d
  {
  }

  lemma AtMostTimes(x: nat, y: nat, d: nat)
    requires x <= y
    ensures x * d <= y * d
  {
  }

  lemma TimesLess(x: nat, y: nat, d: nat)
    requires x * d < y * d
    ensures x < y
  {
  }

  /** What it means for `v` to be the num/den quantile of `s`. */
  ghost predicate IsQuantile(s: seq<nat>, num: nat, den: nat, v: nat) {
    && v in s
    && CountBelow(s, v) * den <= num * |s|
    && CountBelow(s, v + 1) * den > num * |s|
  }

  lemma RankArithmetic(n: nat, num: nat, den: nat, below: nat, upto: nat)
    requires den > 0 && below <= (n * num) / den && upto >= (n * num) / den + 1
    ensures below * den <= num * n < upto * den
  {
    var k := (n * num) / den;
    FloorBounds(n * num, den);
    AtMostTimes(below, k, den);
    AtMostTimes(k + 1, upto, den);
  }

  lemma QuantileOfSorted(t: seq<nat>, num: nat, den: nat)
    requires t != [] && Sorted(t) && num < den
    ensures IsQuantile(t, num, den, t[IndexFor(|t|, num, den)])
  {
    var k := IndexFor(|t|, num, den);
    RankCount(t, k);
    ClampIdle(|t|, num, den);
    hide CountBelow, IndexFor, Sorted;
    RankArithmetic(|t|, num, den, CountBelow(t, t[k]), CountBelow(t, t[k] + 1));
  }

  lemma QuantileAt(s: seq<nat>, num: nat, den: nat)
    requires s != [] && num < den
    ensures |Sort(s)| == |s| && IsQuantile(s, num, den, Sort(s)[IndexFor(|s|, num, den)])
  {
    hide Sort, Sorted, CountBelow, IndexFor;
    SortSorted(s);
    var t := Sort(s);
    var v := t[IndexFor(|s|, num, den)];
    QuantileOfSorted(t, num, den);
    SortCount(s, v);
    SortCount(s, v + 1);
    assert v in multiset(t);
  }

  datatype Report = Report(p50: nat, p90: nat, p99: nat, p999: nat)

  class Samples {
    var values: seq<nat>

    /** Sort the samples where they are and read four ranks off. */
    method CalculatePercentiles() returns (r: Report)
      modifies this
      ensures values == Sort(old(values))
      ensures old(values) == [] ==> r == Report(0, 0, 0, 0)
      ensures old(values) != [] ==>
                && IsQuantile(old(values), 50, 100, r.p50) && IsQuantile(old(values), 90, 100, r.p90)
                && IsQuantile(old(values), 99, 100, r.p99) && IsQuantile(old(values), 999, 1000, r.p999)
      ensures r.p50 <= r.p90 <= r.p99 <= r.p999
    {
      if values == [] {
        return Report(0, 0, 0, 0);
      }
      QuantileAt(values, 50, 100);
      QuantileAt(values, 90, 100);
      QuantileAt(values, 99, 100);
      QuantileAt(values, 999, 1000);
      SortSorted(values);
      values := Sort(values);
      var len := |values|;
      RanksAscend(values);
      r := Report(Percentile(values, len, 50), Percentile(values, len, 90), Percentile(values, len, 99),
                  values[IndexFor(len, 999, 1000)]);
    }
  }

  lemma RanksAscend(t: seq<nat>)
    requires t != [] && Sorted(t)
    ensures var n := |t|;
            t[IndexFor(n, 50, 100)] <= t[IndexFor(n, 90, 100)] <= t[IndexFor(n, 99, 100)] <= t[IndexFor(n, 999, 1000)]
  {
    var n := |t|;
    assert IndexFor(n, 50, 100) <= IndexFor(n, 90, 100) <= IndexFor(n, 99, 100) <= IndexFor(n, 999, 1000);
  }

  /** The quantile that is reported depends only on which samples there are, not on their order. */
  lemma OrderIrrelevant(s: seq<nat>, t: seq<nat>, num: nat, den: nat)
    requires s != [] && multiset(s) == multiset(t) && num < den
    ensures t != [] && |Sort(s)| == |s| == |t| == |Sort(t)|
    ensures Sort(s)[IndexFor(|s|, num, den)] == Sort(t)[IndexFor(|t|, num, den)]
  {
    SortSorted(s);
    SortSorted(t);
    SortedUnique(Sort(s), Sort(t));
  }
}
