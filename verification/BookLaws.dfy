/** What the reference book guarantees: price-time priority, conservation of quantity, and what every
    run keeps.  The engines refine this book, so these are their guarantees too. */
module BookLaws {
  import opened Lob

  // ---------------------------------------------------------------- caps

  /** A cap either cuts the list of trades or changes nothing. */
  lemma {:induction false} CapCut(o: Order, left: nat, against: seq<Rest>, c: nat, c': nat)
    requires c <= c'
    ensures |Match(o, left, against, c).trades| == Min(|Match(o, left, against, c').trades|, c)
    ensures |Match(o, left, against, c').trades| <= c ==> Match(o, left, against, c) == Match(o, left, against, c')
    decreases |against|, left, c'
  {
    if left != 0 && against != [] && c != 0 && Crosses(o, against[0].price) {
      var q := Min(left, against[0].quantity);
      CapCut(o, left - q, TakeBest(against, q), c - 1, c' - 1);
    }
  }

  /** Enough makers or enough units below the cap: the cap plays no part. */
  lemma CapIdle(o: Order, left: nat, against: seq<Rest>, c: nat)
    requires Positive(against) && (left <= c || |against| <= c)
    ensures Match(o, left, against, c) == Match(o, left, against, |against|)
  {
    MatchCount(o, left, against, c + |against|);
    CapCut(o, left, against, c, c + |against|);
    CapCut(o, left, against, |against|, c + |against|);
  }

  // ---------------------------------------------------------------- price-time priority

  function Units(ts: seq<Trade>): nat {
    if ts == [] then 0 else ts[0].quantity + Units(ts[1..])
  }

  /** The trades are a greedy prefix of the side, stated position by position: the i-th trade is with the
      i-th order, at its price, which crosses; every maker but the last gives all it has; and trading stops
      only when nothing is wanted, the cap is reached, or no order left crosses. */
  ghost predicate IsGreedyFill(o: Order, left: nat, against: seq<Rest>, cap: nat, f: Fill) {
    var n := |f.trades|;
    && n <= |against| && n <= cap
    && (forall i | 0 <= i < n ::
          && f.trades[i].maker == against[i].id && f.trades[i].taker == o.id
          && f.trades[i].price == against[i].price && Crosses(o, against[i].price)
          && 0 < f.trades[i].quantity <= against[i].quantity
          && (i < n - 1 ==> f.trades[i].quantity == against[i].quantity))
    && Units(f.trades) + f.left == left
    && (if n > 0 && f.trades[n - 1].quantity < against[n - 1].quantity
        then f.left == 0
             && f.against == [against[n - 1].(quantity := against[n - 1].quantity - f.trades[n - 1].quantity)] + against[n..]
        else f.against == against[n..]
             && (f.left == 0 || n == cap || n == |against| || !Crosses(o, against[n].price)))
  }

  lemma GreedyUnits(o: Order, left: nat, against: seq<Rest>, cap: nat, f: Fill)
    requires IsGreedyFill(o, left, against, cap, f)
    ensures f.trades == [] || left > 0
  {
    assert f.trades == [] || f.trades[0].quantity > 0;
  }

  /** Where matching stops at once, the empty fill is the only greedy one. */
  lemma GreedyNone(o: Order, left: nat, against: seq<Rest>, cap: nat, f: Fill)
    requires left == 0 || against == [] || cap == 0 || !Crosses(o, against[0].price)
    ensures IsGreedyFill(o, left, against, cap, f) <==> f == Fill([], against, left)
  {
    assert against[0..] == against;
    if IsGreedyFill(o, left, against, cap, f) {
      GreedyUnits(o, left, against, cap, f);
    }
  }

  /** Where matching goes on, the empty fill is not greedy. */
  lemma GreedySome(o: Order, left: nat, against: seq<Rest>, cap: nat, f: Fill)
    requires left != 0 && against != [] && cap != 0 && Crosses(o, against[0].price)
    requires IsGreedyFill(o, left, against, cap, f)
    ensures f.trades != []
  {
  }

  lemma GreedyTail(o: Order, left: nat, against: seq<Rest>, cap: nat, f: Fill)
    requires IsGreedyFill(o, left, against, cap, f) && f.trades != []
    ensures var q := f.trades[0].quantity;
            && left > 0 && cap > 0 && q == Min(left, against[0].quantity)
            && IsGreedyFill(o, left - q, TakeBest(against, q), cap - 1, Fill(f.trades[1..], f.against, f.left))
  {
    var q := f.trades[0].quantity;
    var t := f.trades[1..];
    assert Units(f.trades) == q + Units(t);
    var rest := TakeBest(against, q);
    if q == against[0].quantity {
      assert forall i | 0 <= i < |t| :: t[i] == f.trades[i + 1] && rest[i] == against[i + 1];
    } else {
      assert t == [] && f.trades == [f.trades[0]];
    }
  }

  lemma GreedyCons(o: Order, left: nat, against: seq<Rest>, cap: nat, f: Fill)
    requires left > 0 && against != [] && cap > 0 && Crosses(o, against[0].price) && Positive(against)
    requires var q := Min(left, against[0].quantity); IsGreedyFill(o, left - q, TakeBest(against, q), cap - 1, f)
    ensures var q := Min(left, against[0].quantity);
            IsGreedyFill(o, left, against, cap, Resume([Trade(against[0].id, o.id, against[0].price, q)], f))
  {
    var q := Min(left, against[0].quantity);
    var rest := TakeBest(against, q);
    var t := [Trade(against[0].id, o.id, against[0].price, q)] + f.trades;
    assert t[1..] == f.trades;
    if q < against[0].quantity {
      GreedyUnits(o, 0, rest, cap - 1, f);
    } else {
      assert forall i | 0 < i < |t| :: t[i] == f.trades[i - 1];
      assert forall i | 0 < i < |against| :: against[i] == rest[i - 1];
    }
  }

  lemma GreedyFirst(o: Order, left: nat, against: seq<Rest>, cap: nat, f: Fill)
    requires IsGreedyFill(o, left, against, cap, f) && f.trades != []
    ensures f.trades[0] == Trade(against[0].id, o.id, against[0].price, f.trades[0].quantity)
  {
  }

  lemma {:induction false} MatchIsGreedy(o: Order, left: nat, against: seq<Rest>, cap: nat)
    requires Positive(against)
    ensures IsGreedyFill(o, left, against, cap, Match(o, left, against, cap))
    decreases |against|, left
  {
    hide IsGreedyFill;
    if left == 0 || against == [] || cap == 0 || !Crosses(o, against[0].price) {
      GreedyNone(o, left, against, cap, Match(o, left, against, cap));
    } else {
      var q := Min(left, against[0].quantity);
      TakeBestPositive(against, q);
      MatchIsGreedy(o, left - q, TakeBest(against, q), cap - 1);
      GreedyCons(o, left, against, cap, Match(o, left - q, TakeBest(against, q), cap - 1));
    }
  }

  lemma {:induction false} GreedyIsMatch(o: Order, left: nat, against: seq<Rest>, cap: nat, f: Fill)
    requires Positive(against) && IsGreedyFill(o, left, against, cap, f)
    ensures f == Match(o, left, against, cap)
    decreases |against|, left
  {
    hide IsGreedyFill, Positive, Crosses;
    if left == 0 || against == [] || cap == 0 || !Crosses(o, against[0].price) {
      GreedyNone(o, left, against, cap, f);
    } else {
      GreedySome(o, left, against, cap, f);
      GreedyTail(o, left, against, cap, f);
      GreedyFirst(o, left, against, cap, f);
      var q := Min(left, against[0].quantity);
      TakeBestPositive(against, q);
      GreedyIsMatch(o, left - q, TakeBest(against, q), cap - 1, Fill(f.trades[1..], f.against, f.left));
      assert f.trades == [f.trades[0]] + f.trades[1..];
    }
  }

  /** Price-time optimality, both ways: matching yields a greedy fill, and there is no other. */
  lemma PriceTimeOptimal(o: Order, left: nat, against: seq<Rest>, cap: nat, f: Fill)
    requires Positive(against)
    ensures IsGreedyFill(o, left, against, cap, f) <==> f == Match(o, left, against, cap)
  {
    hide IsGreedyFill;
    MatchIsGreedy(o, left, against, cap);
    if IsGreedyFill(o, left, against, cap, f) {
      GreedyIsMatch(o, left, against, cap, f);
    }
  }

  // ---------------------------------------------------------------- how many trades, seen on the book before

  /** The units a list of orders offers. */
  function Supply(s: seq<Rest>): nat {
    if s == [] then 0 else s[0].quantity + Supply(s[1..])
  }

  /** The units offered at prices that `o` accepts, on a sorted side. */
  function CrossingSupply(o: Order, s: seq<Rest>): nat {
    if s == [] || !Crosses(o, s[0].price) then 0 else s[0].quantity + CrossingSupply(o, s[1..])
  }

  /** The n-th trade can be reached: an n-th order waits, its price crosses, and those before it fall short. */
  predicate Reachable(o: Order, left: nat, s: seq<Rest>, n: nat) {
    n > 0 ==> |s| >= n && Crosses(o, s[n - 1].price) && Supply(s[..n - 1]) < left
  }

  lemma SortedTail(side: Side, s: seq<Rest>)
    requires Sorted(side, s) && s != []
    ensures Sorted(side, s[1..])
    ensures forall i | 0 <= i < |s| :: !Better(side, s[i].price, s[0].price)
  {
  }

  lemma SupplyTake(s: seq<Rest>, n: nat)
    requires 0 < n <= |s|
    ensures Supply(s[..n]) == s[0].quantity + Supply(s[1..][..n - 1])
  {
    assert s[..n][1..] == s[1..][..n - 1];
  }

  lemma NothingLeft(o: Order, against: seq<Rest>, cap: nat)
    ensures Match(o, 0, against, cap) == Fill([], against, 0)
  {
  }

  lemma CrossingHead(o: Order, s: seq<Rest>, n: nat)
    requires Sorted(Opposite(o.side), s) && n < |s| && !Crosses(o, s[0].price)
    ensures !Crosses(o, s[n].price)
  {
  }

  /** Matching makes at least n trades exactly when the n-th trade can be reached. */
  lemma {:induction false} TradesReach(o: Order, left: nat, s: seq<Rest>, cap: nat, n: nat)
    requires Sorted(Opposite(o.side), s) && Positive(s) && n <= cap
    ensures |Match(o, left, s, cap).trades| >= n <==> Reachable(o, left, s, n)
    decreases |s|
  {
    if n > 0 {
      if s == [] || left == 0 || !Crosses(o, s[0].price) {
        if n <= |s| && s != [] && !Crosses(o, s[0].price) { CrossingHead(o, s, n - 1); }
      } else {
        SortedTail(Opposite(o.side), s);
        var q := Min(left, s[0].quantity);
        if left <= s[0].quantity {
          NothingLeft(o, TakeBest(s, q), cap - 1);
          if 1 < n <= |s| { SupplyTake(s, n - 1); }
        } else {
          TradesReach(o, left - q, s[1..], cap - 1, n - 1);
          if 1 < n <= |s| { SupplyTake(s, n - 1); }
        }
      }
    }
  }

  /** At the cap, units are still wanted exactly when the orders traded with do not offer enough. */
  lemma {:induction false} LeftAtCap(o: Order, left: nat, s: seq<Rest>, cap: nat)
    requires Positive(s) && |Match(o, left, s, cap).trades| == cap
    ensures cap <= |s| && (Match(o, left, s, cap).left > 0 <==> Supply(s[..cap]) < left)
    decreases |s|
  {
    if cap > 0 {
      MatchCount(o, left, s, cap);
      var q := Min(left, s[0].quantity);
      SupplyTake(s, cap);
      if left <= s[0].quantity {
        NothingLeft(o, TakeBest(s, q), cap - 1);
      } else {
        LeftAtCap(o, left - q, s[1..], cap - 1);
      }
    }
  }

  /** Without a cap, units are still wanted exactly when all crossing orders together do not offer enough. */
  lemma {:induction false} LeftUncapped(o: Order, left: nat, s: seq<Rest>, cap: nat)
    requires Positive(s) && |s| <= cap
    ensures Match(o, left, s, cap).left > 0 <==> CrossingSupply(o, s) < left
    decreases |s|
  {
    if left != 0 && s != [] && Crosses(o, s[0].price) {
      var q := Min(left, s[0].quantity);
      if left <= s[0].quantity {
        NothingLeft(o, TakeBest(s, q), cap - 1);
      } else {
        LeftUncapped(o, left - q, s[1..], cap - 1);
      }
    }
  }
}
