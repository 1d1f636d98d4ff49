/** What the reference book promises its users, in prices, quantities and request positions alone: no order is filled
    past its limit, none that could be filled is passed over, and what waits is what was submitted. */
module BookPrices {
  import opened Lob
  import opened BookLaws
  import opened BookRuns
  import opened BookLedger

  // ---------------------------------------------------------------- one order

  /** All trades are within the limit of `o`, if it has one. */
  ghost predicate WithinLimit(o: Order, ts: seq<Trade>) {
    !o.isMarket ==> forall t | t in ts :: if o.side == Buy then t.price <= o.price else t.price >= o.price
  }

  /** A limit order buys at no more and sells at no less than its price. */
  lemma {:induction false} TradesWithinLimit(o: Order, left: nat, against: seq<Rest>, cap: nat)
    ensures forall t | t in Match(o, left, against, cap).trades && !o.isMarket ::
              if o.side == Buy then t.price <= o.price else t.price >= o.price
    ensures WithinLimit(o, Match(o, left, against, cap).trades)
    decreases |against|, left
  {
    if left != 0 && against != [] && cap != 0 && Crosses(o, against[0].price) {
      var q := Min(left, against[0].quantity);
      TradesWithinLimit(o, left - q, TakeBest(against, q), cap - 1);
    }
  }

  /** While units are wanted and the cap is not reached, nobody is passed over: a market order leaves no one, a limit
      order only orders priced beyond its limit. */
  lemma {:induction false} NoneLeftBehind(o: Order, left: nat, against: seq<Rest>, cap: nat)
    requires SideSane(Opposite(o.side), against)
    ensures var f := Match(o, left, against, cap);
            |f.trades| < cap && f.left > 0 ==>
              forall x | x in f.against ::
                !o.isMarket && (if o.side == Buy then x.price > o.price else x.price < o.price)
    decreases |against|, left
  {
    if left != 0 && against != [] && cap != 0 && Crosses(o, against[0].price) {
      hide SideSane;
      var q := Min(left, against[0].quantity);
      SanePositive(Opposite(o.side), against);
      TakeBestSane(Opposite(o.side), against, q);
      NoneLeftBehind(o, left - q, TakeBest(against, q), cap - 1);
    } else if against != [] {
      forall x | x in against ensures !Better(Opposite(o.side), x.price, against[0].price) {
        var i :| 0 <= i < |against| && against[i] == x;
      }
    }
  }

  /** `x` is what is left of `y`. */
  predicate PartOf(x: Rest, y: Rest) {
    x.id == y.id && x.price == y.price && 0 < x.quantity <= y.quantity
  }

  lemma TakeBestParts(s: seq<Rest>, q: nat)
    requires Positive(s) && s != [] && q <= s[0].quantity
    ensures Positive(TakeBest(s, q)) && forall x | x in TakeBest(s, q) :: exists y :: y in s && PartOf(x, y)
  {
    TakeBestPositive(s, q);
    forall x | x in TakeBest(s, q) ensures exists y :: y in s && PartOf(x, y) {
      if x in s[1..] {
        assert x in s && PartOf(x, x);
      } else {
        assert s[0] in s && PartOf(x, s[0]);
      }
    }
  }

  /** Who is still there was there, under the same id and price, with no fewer units; every trade is at the price of an
      order that was there, and for no more units than it had. */
  lemma {:induction false} MatchParts(o: Order, left: nat, against: seq<Rest>, cap: nat)
    requires Positive(against)
    ensures var f := Match(o, left, against, cap);
            && f.left <= left
            && (forall x | x in f.against :: exists y :: y in against && PartOf(x, y))
            && (forall t | t in f.trades ::
                  t.taker == o.id && exists y :: y in against && PartOf(Rest(t.maker, t.price, t.quantity), y))
    decreases |against|, left
  {
    if left != 0 && against != [] && cap != 0 && Crosses(o, against[0].price) {
      hide Crosses;
      var q := Min(left, against[0].quantity);
      var rest := TakeBest(against, q);
      var f, g := Match(o, left, against, cap), Match(o, left - q, rest, cap - 1);
      assert f == Resume([Trade(against[0].id, o.id, against[0].price, q)], g);
      TakeBestParts(against, q);
      hide TakeBest;
      MatchParts(o, left - q, rest, cap - 1);
      hide Match;
      assert against[0] in against && PartOf(Rest(against[0].id, against[0].price, q), against[0]);
      PartsOfParts(against, rest);
    } else {
      forall x | x in against ensures PartOf(x, x) {}
    }
  }

  lemma PartsOfParts(s: seq<Rest>, t: seq<Rest>)
    requires forall x | x in t :: exists y :: y in s && PartOf(x, y)
    ensures forall z, x | x in t && PartOf(z, x) :: exists y :: y in s && PartOf(z, y)
  {
    forall z, x | x in t && PartOf(z, x) ensures exists y :: y in s && PartOf(z, y) {
      var y :| y in s && PartOf(x, y);
      assert PartOf(z, y);
    }
  }

  /** An order is answered with nothing and changes nothing exactly when it carries no id, no units, or, as a limit
      order, no price - or when it is a market order and nobody waits. */
  lemma RefusedIff(b: Book, o: Order, cap: nat)
    requires cap > 0
    ensures Submit(b, o, cap) == Outcome(b, []) <==>
            o.id == 0 || o.quantity == 0 || (!o.isMarket && o.price == 0)
            || (o.isMarket && (if o.side == Buy then b.asks else b.bids) == [])
  {
    if WellFormed(o) {
      if o.isMarket {
        MarketShows(b, o, cap);
      } else {
        AcceptShows(b, o, cap);
      }
    }
  }

  lemma MatchUnits(o: Order, against: seq<Rest>, cap: nat)
    requires Positive(against)
    ensures var f := Match(o, o.quantity, against, cap); Units(f.trades) + f.left == o.quantity
  {
    MatchIsGreedy(o, o.quantity, against, cap);
  }

  /** What becomes of the units of an accepted order: traded at once, or, of a limit order, waiting on its own side
      under its id and at its price.  Nobody else joins that side. */
  lemma RestExact(b: Book, o: Order, cap: nat)
    requires Positive(b.Against(o.side)) && o.id > 0 && o.quantity > 0 && (o.isMarket || o.price > 0)
    ensures var out := Submit(b, o, cap);
            var own, own' := if o.side == Buy then b.bids else b.asks,
                             if o.side == Buy then out.book.bids else out.book.asks;
            var left := o.quantity - Units(out.trades);
            && left >= 0
            && (o.isMarket || left == 0 ==> own' == own)
            && (!o.isMarket && left > 0 ==>
                  |own'| == |own| + 1 && forall x :: x in own' <==> x in own || x == Rest(o.id, o.price, left))
  {
    MatchUnits(o, b.Against(o.side), cap);
    hide Match;
    var f := Match(o, o.quantity, b.Against(o.side), cap);
    InsertMembers(o.side, b.Own(o.side), Rest(o.id, o.price, f.left));
  }

  /** Whoever is new on a side is what is left of `o`, at its price. */
  ghost predicate OnlyRestOf(o: Order, before: seq<Rest>, after: seq<Rest>) {
    forall x | x in after && x !in before ::
      !o.isMarket && x.id == o.id && x.price == o.price && 0 < x.quantity <= o.quantity
  }

  lemma RestOfOrder(b: Book, o: Order, cap: nat)
    ensures OnlyRestOf(o, b.Own(o.side), Settle(b, o, Match(o, o.quantity, b.Against(o.side), cap)).Own(o.side))
  {
    MatchLeft(o, o.quantity, b.Against(o.side), cap);
    var f := Match(o, o.quantity, b.Against(o.side), cap);
    InsertMembers(o.side, b.Own(o.side), Rest(o.id, o.price, f.left));
  }

  lemma NothingDone(o: Order, s: seq<Rest>)
    ensures WithinLimit(o, []) && OnlyRestOf(o, s, s)
  {
  }

  lemma {:induction false} MatchLeft(o: Order, left: nat, against: seq<Rest>, cap: nat)
    ensures Match(o, left, against, cap).left <= left
    decreases |against|, left
  {
    if left != 0 && against != [] && cap != 0 && Crosses(o, against[0].price) {
      var q := Min(left, against[0].quantity);
      MatchLeft(o, left - q, TakeBest(against, q), cap - 1);
    }
  }

  // ---------------------------------------------------------------- whole runs

  /** Request `j` of the run is a limit order of `side` under the id and at the price of `x`, for at least its units. */
  predicate SubmittedAs(rs: seq<Request>, j: nat, side: Side, x: Rest)
    requires j < |rs|
  {
    rs[j].Place? && !rs[j].order.isMarket
    && rs[j].order.id == x.id && rs[j].order.side == side && rs[j].order.price == x.price
    && 0 < x.quantity <= rs[j].order.quantity
  }

  ghost predicate Explained(rs: seq<Request>, side: Side, s: seq<Rest>) {
    forall x | x in s :: exists j :: 0 <= j < |rs| && SubmittedAs(rs, j, side, x)
  }

  lemma ExplainedLater(rs: seq<Request>, r: Request, side: Side, s: seq<Rest>)
    requires Explained(rs, side, s)
    ensures Explained(rs + [r], side, s)
  {
    forall x | x in s ensures exists j :: 0 <= j < |rs + [r]| && SubmittedAs(rs + [r], j, side, x) {
      var j :| 0 <= j < |rs| && SubmittedAs(rs, j, side, x);
      assert SubmittedAs(rs + [r], j, side, x);
    }
  }

  lemma ExplainedParts(rs: seq<Request>, side: Side, s: seq<Rest>, t: seq<Rest>)
    requires Explained(rs, side, s) && forall x | x in t :: exists y :: y in s && PartOf(x, y)
    ensures Explained(rs, side, t)
  {
    forall x | x in t ensures exists j :: 0 <= j < |rs| && SubmittedAs(rs, j, side, x) {
      var y :| y in s && PartOf(x, y);
      var j :| 0 <= j < |rs| && SubmittedAs(rs, j, side, y);
      assert SubmittedAs(rs, j, side, x);
    }
  }

  lemma ExplainedPositive(rs: seq<Request>, side: Side, s: seq<Rest>)
    requires Explained(rs, side, s)
    ensures Positive(s)
  {
    forall i | 0 <= i < |s| ensures s[i].quantity > 0 {
      assert s[i] in s;
      var j :| 0 <= j < |rs| && SubmittedAs(rs, j, side, s[i]);
    }
  }

  lemma SubmitExplained(rs: seq<Request>, b: Book, o: Order, cap: nat)
    requires Explained(rs, Buy, b.bids) && Explained(rs, Sell, b.asks)
    ensures var c := Submit(b, o, cap).book;
            Explained(rs + [Place(o)], Buy, c.bids) && Explained(rs + [Place(o)], Sell, c.asks)
  {
    var rs' := rs + [Place(o)];
    hide Explained;
    ExplainedLater(rs, Place(o), Buy, b.bids);
    ExplainedLater(rs, Place(o), Sell, b.asks);
    if WellFormed(o) {
      var against, own := b.Against(o.side), b.Own(o.side);
      ExplainedPositive(rs', Opposite(o.side), against);
      MatchParts(o, o.quantity, against, cap);
      var f := Match(o, o.quantity, against, cap);
      ExplainedParts(rs', Opposite(o.side), against, f.against);
      var r := Rest(o.id, o.price, f.left);
      if !o.isMarket && f.left > 0 {
        assert SubmittedAs(rs', |rs|, o.side, r);
        InsertMembers(o.side, own, r);
        InsertExplained(rs', o.side, own, r, |rs|);
      }
    }
  }

  lemma InsertExplained(rs: seq<Request>, side: Side, s: seq<Rest>, r: Rest, j: nat)
    requires Explained(rs, side, s) && j < |rs| && SubmittedAs(rs, j, side, r)
    ensures Explained(rs, side, Insert(side, s, r))
  {
    hide SubmittedAs, Insert;
    InsertMembers(side, s, r);
  }

  /** Over every run, whoever waits was submitted: as a limit order of that side, under that id, at that price, and for
      at least that many units. */
  lemma {:induction false} EveryRestExplained(rs: seq<Request>, cap: nat)
    ensures Explained(rs, Buy, After(rs, cap).bids) && Explained(rs, Sell, After(rs, cap).asks)
  {
    if rs != [] {
      hide Explained;
      var n := |rs| - 1;
      var p, r := rs[..n], rs[n];
      var b := After(p, cap);
      assert rs == p + [r];
      EveryRestExplained(p, cap);
      match r {
        case Place(o) => SubmitExplained(p, b, o, cap);
        case Withdraw(id) =>
          ExplainedLater(p, r, Buy, b.bids);
          ExplainedLater(p, r, Sell, b.asks);
          RemoveExplained(rs, Buy, b.bids, id);
          RemoveExplained(rs, Sell, b.asks, id);
      }
    }
  }

  lemma RemoveExplained(rs: seq<Request>, side: Side, s: seq<Rest>, id: nat)
    requires Explained(rs, side, s)
    ensures Explained(rs, side, Remove(s, id))
  {
    hide SubmittedAs, Remove;
    RemoveMembers(s, id);
  }

  lemma {:induction false} AnswerAt(rs: seq<Request>, i: nat, cap: nat)
    requires i < |rs|
    ensures Answers(rs, cap)[i] == Step(After(rs[..i], cap), rs[i], cap).trades
    ensures After(rs[..i + 1], cap) == Step(After(rs[..i], cap), rs[i], cap).book
  {
    hide After, Step;
    assert rs[..i + 1] == rs[..i] + [rs[i]];
    AfterSnoc(rs[..i], rs[i], cap);
    var n := |rs| - 1;
    if i < n {
      AnswerAt(rs[..n], i, cap);
      assert rs[..n][..i] == rs[..i];
    }
  }

  /** Over every run, each trade is between the order being answered and an earlier limit order of the other side, at
      that order's price and for no more units than either submitted, and within the limit of both. */
  lemma EveryTradeExplained(rs: seq<Request>, cap: nat, i: nat, t: Trade)
    requires i < |rs| && t in Answers(rs, cap)[i]
    ensures rs[i].Place? && t.taker == rs[i].order.id && 0 < t.quantity <= rs[i].order.quantity
    ensures exists j :: 0 <= j < i && SubmittedAs(rs, j, Opposite(rs[i].order.side), Rest(t.maker, t.price, t.quantity))
    ensures !rs[i].order.isMarket ==>
              if rs[i].order.side == Buy then t.price <= rs[i].order.price else t.price >= rs[i].order.price
  {
    AnswerAt(rs, i, cap);
    EveryRestExplained(rs[..i], cap);
    var b := After(rs[..i], cap);
    hide After, Answers;
    match rs[i] {
      case Place(o) =>
        var against := b.Against(o.side);
        ExplainedPositive(rs[..i], Opposite(o.side), against);
        TradesWithinLimit(o, o.quantity, against, cap);
        MatchParts(o, o.quantity, against, cap);
        TradeUnits(o, o.quantity, against, cap);
        var y :| y in against && PartOf(Rest(t.maker, t.price, t.quantity), y);
        var j :| 0 <= j < i && SubmittedAs(rs[..i], j, Opposite(o.side), y);
        assert SubmittedAs(rs, j, Opposite(o.side), Rest(t.maker, t.price, t.quantity));
    }
  }

  /** No trade is for more than was wanted. */
  lemma {:induction false} TradeUnits(o: Order, left: nat, against: seq<Rest>, cap: nat)
    ensures forall t | t in Match(o, left, against, cap).trades :: t.quantity <= left
    decreases |against|, left
  {
    if left != 0 && against != [] && cap != 0 && Crosses(o, against[0].price) {
      var q := Min(left, against[0].quantity);
      var g := Match(o, left - q, TakeBest(against, q), cap - 1);
      assert Match(o, left, against, cap).trades == [Trade(against[0].id, o.id, against[0].price, q)] + g.trades;
      TradeUnits(o, left - q, TakeBest(against, q), cap - 1);
      hide Match, TakeBest, Crosses;
    }
  }

  /** Over every fresh-id run, an accepted order that is not filled, below the cap, finds nobody left within its limit,
      and a limit order then waits for exactly what is missing. */
  lemma EveryMissExplained(rs: seq<Request>, cap: nat, i: nat, o: Order)
    requires FreshIds(rs) && i < |rs| && rs[i] == Place(o)
    requires o.id > 0 && o.quantity > 0 && (o.isMarket || o.price > 0)
    ensures var b := After(rs[..i + 1], cap);
            var left := o.quantity - Units(Answers(rs, cap)[i]);
            && left >= 0
            && (|Answers(rs, cap)[i]| < cap && left > 0 ==>
                  forall x | x in (if o.side == Buy then b.asks else b.bids) ::
                    !o.isMarket && (if o.side == Buy then x.price > o.price else x.price < o.price))
            && (!o.isMarket && left > 0 ==> Rest(o.id, o.price, left) in (if o.side == Buy then b.bids else b.asks))
  {
    AnswerAt(rs, i, cap);
    FreshTake(rs, i);
    RunSane(rs[..i], cap);
    var b := After(rs[..i], cap);
    var against := b.Against(o.side);
    hide After, Answers, FreshIds;
    SanePositive(Opposite(o.side), against);
    hide SideSane;
    NoneLeftBehind(o, o.quantity, against, cap);
    MatchUnits(o, against, cap);
    RestExact(b, o, cap);
  }

  /** Over every fresh-id run: bids by falling price, asks by rising price, and first come first at one price. */
  lemma EverySideOrdered(rs: seq<Request>, cap: nat)
    requires FreshIds(rs)
    ensures var s := After(rs, cap).bids;
            forall i, j | 0 <= i < j < |s| ::
              s[i].price > s[j].price || (s[i].price == s[j].price && ArrivedBefore(rs, s[i].id, s[j].id))
    ensures var s := After(rs, cap).asks;
            forall i, j | 0 <= i < j < |s| ::
              s[i].price < s[j].price || (s[i].price == s[j].price && ArrivedBefore(rs, s[i].id, s[j].id))
  {
    hide ArrivedBefore, After, FreshIds;
    RunTimeOrdered(rs, cap);
  }
}
