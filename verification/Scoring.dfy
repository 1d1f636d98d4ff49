/** The benchmark's order stream, and the verdict on every answer when the flat engine is the submission. */
module Scoring {
  import opened Lob
  import opened BookRuns
  import opened Flat
  import opened FlatEngine
  import opened Shadow
  import opened Agreement
  import opened TableLimit

  /** One outcome of the random choices behind one order. */
  datatype Draw = Draw(roll: nat, price: nat, limitQty: nat, marketQty: nat, pick: nat)

  predicate InRange(d: Draw) {
    1 <= d.roll <= 100 && 90 <= d.price < 110 && 1 <= d.limitQty < 50 && 1 <= d.marketQty < 20
  }

  /** The `index`-th order of the stream, apart from what it cancels. */
  predicate Drawn(index: nat, d: Draw, r: Request) {
    && (d.roll <= 60 <==> r.Place? && !r.order.isMarket)
    && (60 < d.roll <= 85 <==> r.Place? && r.order.isMarket)
    && (r.Place? ==>
          && r.order.id == index + 1 && (r.order.side == Buy <==> d.roll % 2 == 0)
          && (if r.order.isMarket then r.order.price == 0 && r.order.quantity == d.marketQty
              else r.order.price == d.price && r.order.quantity == d.limitQty))
  }

  /** The ids of limit orders not yet picked for cancelling. */
  class ActiveOrders {
    var ids: seq<nat>

    constructor ()
      ensures ids == []
    {
      ids := [];
    }
  }

  /** The next order of the stream: a limit order, a market order, or a cancel of a limit order picked from
      those still active - or, when there is none, of the order's own id. */
  method GenerateSingleOrder(index: nat, active: ActiveOrders, d: Draw) returns (r: Request)
    requires InRange(d)
    modifies active
    ensures Drawn(index, d, r)
    ensures d.roll == 60 ==> r == Place(Order(index + 1, d.price, d.limitQty, Buy, false))
    ensures d.roll == 61 ==> r == Place(Order(index + 1, 0, d.marketQty, Sell, true))
    ensures d.roll == 85 ==> r == Place(Order(index + 1, 0, d.marketQty, Sell, true))
    ensures d.roll == 86 ==> r.Withdraw?
    ensures active.ids == if d.roll <= 60 then old(active.ids) + [index + 1]
                          else if d.roll <= 85 || old(active.ids) == [] then old(active.ids)
                          else Without(old(active.ids), d.pick % |old(active.ids)|)
    ensures r.Withdraw? ==>
              r.id == if old(active.ids) == [] then index + 1 else old(active.ids)[d.pick % |old(active.ids)|]
  {
    var side := if d.roll % 2 == 0 then Buy else Sell;
    var orderId := index + 1;
    if d.roll <= 60 {
      active.ids := active.ids + [orderId];
      r := Place(Order(orderId, d.price, d.limitQty, side, false));
    } else if d.roll <= 85 {
      r := Place(Order(orderId, 0, d.marketQty, side, true));
    } else {
      var target := orderId;
      if active.ids != [] {
        var idx := d.pick % |active.ids|;
        target := active.ids[idx];
        active.ids := Without(active.ids, idx);
      }
      r := Withdraw(target);
    }
  }

  /** Position by position; lengths first. */
  method CompareTrades(shadow: seq<Trade>, contestant: seq<Trade>) returns (same: bool)
    ensures same <==> shadow == contestant
  {
    if |shadow| != |contestant| {
      return false;
    }
    for i := 0 to |shadow|
      invariant shadow[..i] == contestant[..i]
    {
      var s, c := shadow[i], contestant[i];
      if s.maker != c.maker || s.taker != c.taker || s.price != c.price || s.quantity != c.quantity {
        return false;
      }
    }
    return true;
  }

  // ---------------------------------------------------------------- the stream

  ghost predicate NoRepeat(s: seq<nat>) {
    forall i, j | 0 <= i < j < |s| :: s[i] != s[j]
  }

  ghost predicate Issued(s: seq<nat>, n: nat) {
    forall i | 0 <= i < |s| :: 1 <= s[i] <= n
  }

  /** Ids that earlier cancels named. */
  ghost function Targets(rs: seq<Request>): set<nat> {
    set r | r in rs && r.Withdraw? :: r.id
  }

  ghost predicate CancelsOnce(rs: seq<Request>) {
    forall i, j | 0 <= i < j < |rs| && rs[i].Withdraw? && rs[j].Withdraw? :: rs[i].id != rs[j].id
  }

  ghost predicate StillActive(active: seq<nat>, rs: seq<Request>) {
    NoRepeat(active) && Issued(active, |rs|) && forall x | x in active :: x !in Targets(rs)
  }

  lemma TargetsSnoc(rs: seq<Request>, r: Request)
    ensures Targets(rs + [r]) == Targets(rs) + (if r.Withdraw? then {r.id} else {})
  {
    if r.Withdraw? { assert r in rs + [r]; }
    forall id | id in Targets(rs) ensures id in Targets(rs + [r]) {
      var x :| x in rs && x.Withdraw? && x.id == id;
      assert x in rs + [r];
    }
  }

  lemma CancelsSnoc(rs: seq<Request>, r: Request)
    requires CancelsOnce(rs) && (r.Withdraw? ==> r.id !in Targets(rs))
    ensures CancelsOnce(rs + [r])
  {
    var t := rs + [r];
    forall i, j | 0 <= i < j < |t| && t[i].Withdraw? && t[j].Withdraw? ensures t[i].id != t[j].id {
      if j == |rs| { assert rs[i] in rs; }
    }
  }

  ghost predicate Nth(r: Request, j: nat) {
    if r.Place? then r.order.id == j + 1 && WellFormed(r.order) && r.order.quantity < 50 else 1 <= r.id <= j + 1
  }

  ghost predicate InSequence(rs: seq<Request>) {
    forall j | 0 <= j < |rs| :: Nth(rs[j], j)
  }

  lemma SequenceSnoc(rs: seq<Request>, r: Request)
    requires InSequence(rs) && Nth(r, |rs|)
    ensures InSequence(rs + [r])
  {
  }

  lemma AppendActive(active: seq<nat>, n: nat)
    requires NoRepeat(active) && Issued(active, n)
    ensures NoRepeat(active + [n + 1]) && Issued(active + [n + 1], n + 1) && Issued(active, n + 1)
  {
  }

  lemma DropActive(active: seq<nat>, n: nat, k: nat)
    requires NoRepeat(active) && Issued(active, n) && k < |active|
    ensures NoRepeat(Without(active, k)) && Issued(Without(active, k), n + 1) && 1 <= active[k] <= n
    ensures forall x | x in Without(active, k) :: x in active && x != active[k]
  {
    var u := Without(active, k);
    assert forall i | 0 <= i < |u| :: u[i] == active[if i < k then i else i + 1];
  }

  lemma {:induction false} MaxIdBound(rs: seq<Request>)
    requires forall i | 0 <= i < |rs| && rs[i].Place? :: rs[i].order.id == i + 1
    ensures MaxId(rs) <= |rs|
  {
    if rs != [] {
      MaxIdBound(rs[..|rs| - 1]);
    }
  }

  lemma StreamRises(rs: seq<Request>)
    requires InSequence(rs)
    ensures RisingRun(rs) && Counted(rs)
    ensures |rs| < MAX_ORDERS ==> ComparableRun(rs)
  {
    assert forall i | 0 <= i < |rs| :: Nth(rs[i], i);
    forall i | 0 <= i < |rs| ensures MaxId(rs[..i]) <= i {
      MaxIdBound(rs[..i]);
    }
  }

  /** Everything the generator keeps while the stream grows. */
  ghost predicate StreamOk(active: seq<nat>, rs: seq<Request>) {
    && StillActive(active, rs) && CancelsOnce(rs) && InSequence(rs)
    && forall x | x in Targets(rs) :: x <= |rs|
  }

  lemma NextKept(active: seq<nat>, rs: seq<Request>, r: Request)
    requires StreamOk(active, rs) && r.Place? && Nth(r, |rs|)
    ensures StreamOk(active, rs + [r]) && StreamOk(active + [|rs| + 1], rs + [r])
  {
    hide NoRepeat, CancelsOnce, Targets, InSequence, Issued;
    AppendActive(active, |rs|);
    TargetsSnoc(rs, r);
    CancelsSnoc(rs, r);
    SequenceSnoc(rs, r);
  }

  lemma NextCancels(active: seq<nat>, rs: seq<Request>, k: nat)
    requires StreamOk(active, rs) && k < |active|
    ensures StreamOk(Without(active, k), rs + [Withdraw(active[k])])
  {
    hide NoRepeat, CancelsOnce, Targets, InSequence, Issued, Without;
    DropActive(active, |rs|, k);
    assert active[k] in active;
    TargetsSnoc(rs, Withdraw(active[k]));
    CancelsSnoc(rs, Withdraw(active[k]));
    SequenceSnoc(rs, Withdraw(active[k]));
  }

  lemma NextCancelsItself(rs: seq<Request>)
    requires StreamOk([], rs)
    ensures StreamOk([], rs + [Withdraw(|rs| + 1)])
  {
    hide CancelsOnce, Targets, InSequence;
    TargetsSnoc(rs, Withdraw(|rs| + 1));
    CancelsSnoc(rs, Withdraw(|rs| + 1));
    SequenceSnoc(rs, Withdraw(|rs| + 1));
  }

  /** One order further, whatever was drawn. */
  lemma NextOk(before: seq<nat>, rs: seq<Request>, r: Request, d: Draw)
    requires StreamOk(before, rs) && InRange(d) && Drawn(|rs|, d, r)
    requires r.Withdraw? ==> r.id == if before == [] then |rs| + 1 else before[d.pick % |before|]
    ensures StreamOk(if d.roll <= 60 then before + [|rs| + 1]
                     else if d.roll <= 85 || before == [] then before
                     else Without(before, d.pick % |before|), rs + [r])
  {
    hide StreamOk, Without;
    if r.Place? {
      NextKept(before, rs, r);
    } else if before == [] {
      NextCancelsItself(rs);
    } else {
      NextCancels(before, rs, d.pick % |before|);
    }
  }

  /** Whatever the random choices, ids count the orders, cancels name issued ids, each at most once, and a stream of
      fewer than 131072 orders is one on which the engines must agree. */
  method GenerateStream(draws: seq<Draw>) returns (rs: seq<Request>)
    requires forall d | d in draws :: InRange(d)
    ensures |rs| == |draws| && RisingRun(rs) && Counted(rs)
    ensures |draws| < 131072 ==> ComparableRun(rs)
    ensures forall i | 0 <= i < |rs| :: Drawn(i, draws[i], rs[i])
    ensures forall i | 0 <= i < |rs| :: if rs[i].Place? then rs[i].order.id == i + 1 else 1 <= rs[i].id <= i + 1
    ensures CancelsOnce(rs)
  {
    hide Drawn, RisingRun, Counted, CancelsOnce, ComparableRun;
    NothingDrawn();
    var active := new ActiveOrders();
    rs := [];
    for i := 0 to |draws|
      invariant fresh(active)
      invariant |rs| == i && StreamOk(active.ids, rs)
      invariant forall j | 0 <= j < i :: Drawn(j, draws[j], rs[j])
    {
      ghost var before := active.ids;
      assert draws[i] in draws;
      hide StreamOk, Without, InRange;
      var r := GenerateSingleOrder(i, active, draws[i]);
      NextOk(before, rs, r, draws[i]);
      rs := rs + [r];
    }
    StreamMeans(active.ids, rs);
  }

  lemma NothingDrawn()
    ensures StreamOk([], [])
  {
  }

  lemma StreamMeans(active: seq<nat>, rs: seq<Request>)
    requires StreamOk(active, rs)
    ensures RisingRun(rs) && Counted(rs) && CancelsOnce(rs) && (|rs| < MAX_ORDERS ==> ComparableRun(rs))
    ensures forall i | 0 <= i < |rs| :: if rs[i].Place? then rs[i].order.id == i + 1 else 1 <= rs[i].id <= i + 1
  {
    assert forall j | 0 <= j < |rs| :: Nth(rs[j], j);
    hide CancelsOnce, StillActive;
    StreamRises(rs);
  }

  /** One verdict an answer. */
  method CompareAll(shadow: seq<seq<Trade>>, flat: seq<seq<Trade>>) returns (verdicts: seq<bool>)
    requires |shadow| == |flat|
    ensures |verdicts| == |shadow| && forall i | 0 <= i < |shadow| :: verdicts[i] <==> shadow[i] == flat[i]
    ensures (forall i | 0 <= i < |shadow| :: verdicts[i]) <==> shadow == flat
  {
    verdicts := [];
    for i := 0 to |shadow|
      invariant |verdicts| == i && forall j | 0 <= j < i :: verdicts[j] <==> shadow[j] == flat[j]
    {
      var same := CompareTrades(shadow[i], flat[i]);
      verdicts := verdicts + [same];
    }
  }

  /** The verdict on each answer of the reference engine is that of the shadow engine's answer.  All verdicts succeed
      exactly when the reference book never trades with an order beyond the table, and the first 131072 always do. */
  method ScoreReferenceEngine(draws: seq<Draw>) returns (verdicts: seq<bool>, ghost rs: seq<Request>)
    requires forall d | d in draws :: InRange(d)
    ensures |verdicts| == |rs| == |draws| && forall i | 0 <= i < |draws| :: Drawn(i, draws[i], rs[i])
    ensures (forall i | 0 <= i < |draws| :: verdicts[i]) <==> AllKnown(Answers(rs, MAX_TRADES_PER_MATCH))
    ensures forall i | 0 <= i < |draws| && i < 131072 :: verdicts[i]
  {
    hide InRange, Drawn, RisingRun, Counted, CancelsOnce, AllKnown;
    var stream := GenerateStream(draws);
    rs := stream;
    RisingFresh(rs);
    var shadow, flat, _, _ := CompareEngines(stream);
    verdicts := CompareAll(shadow, flat);
    FlatForgets(rs);
    FirstVerdicts(rs);
  }

  lemma FirstVerdicts(rs: seq<Request>)
    requires RisingRun(rs) && Counted(rs)
    ensures forall i | 0 <= i < |rs| && i < MAX_ORDERS :: Answers(rs, MAX_TRADES_PER_MATCH)[i] == FlatAnswers(rs)[i]
  {
    hide *;
    var n := if |rs| <= MAX_ORDERS then |rs| else MAX_ORDERS;
    RunTake(rs, n);
    CountedKnown(rs[..n]);
    FlatForgets(rs[..n]);
    AnswersTake(rs, n, MAX_TRADES_PER_MATCH);
    assert forall i | 0 <= i < n :: Answers(rs, MAX_TRADES_PER_MATCH)[i] == Answers(rs, MAX_TRADES_PER_MATCH)[..n][i];
    assert forall i | 0 <= i < n :: FlatAnswers(rs)[i] == FlatAnswers(rs)[..n][i];
  }

  lemma {:induction false} OnlyCancels(rs: seq<Request>, cap: nat)
    requires forall i | 0 <= i < |rs| :: rs[i].Withdraw?
    ensures After(rs, cap) == EMPTY
  {
    if rs != [] {
      OnlyCancels(rs[..|rs| - 1], cap);
    }
  }

  lemma LateSellMeets(rs: seq<Request>, sell: Order, buy: Order)
    requires forall i | 0 <= i < |rs| :: rs[i].Withdraw?
    requires sell.side == Sell && buy.side == Buy && sell.price == buy.price == 100 && sell.quantity == buy.quantity == 5
    requires !sell.isMarket && !buy.isMarket && MAX_ORDERS <= sell.id && 0 < buy.id
    ensures !AllKnown(Answers(rs + [Place(sell)] + [Place(buy)], MAX_TRADES_PER_MATCH))
  {
    var p := rs + [Place(sell)];
    OnlyCancels(rs, MAX_TRADES_PER_MATCH);
    SellThenBuy(sell, buy);
    hide *;
    AfterSnoc(rs, Place(sell), MAX_TRADES_PER_MATCH);
    AfterSnoc(p, Place(buy), MAX_TRADES_PER_MATCH);
    AllKnownSnoc(Answers(p, MAX_TRADES_PER_MATCH), Step(After(p, MAX_TRADES_PER_MATCH), Place(buy), MAX_TRADES_PER_MATCH).trades);
  }

  lemma SellThenBuy(sell: Order, buy: Order)
    requires sell.side == Sell && buy.side == Buy && sell.price == buy.price == 100 && sell.quantity == buy.quantity == 5
    requires !sell.isMarket && !buy.isMarket && MAX_ORDERS <= sell.id && 0 < buy.id
    ensures var b := Step(EMPTY, Place(sell), MAX_TRADES_PER_MATCH).book;
            !Known(Step(b, Place(buy), MAX_TRADES_PER_MATCH).trades)
  {
    var b := Book([], [Rest(sell.id, 100, 5)]);
    assert Submit(EMPTY, sell, MAX_TRADES_PER_MATCH) == Outcome(b, []);
    var t := Trade(sell.id, buy.id, 100, 5);
    MatchStep(buy, 5, b.asks, MAX_TRADES_PER_MATCH, []);
    MatchDone(buy, 0, [], MAX_TRADES_PER_MATCH - 1, [t]);
    ResumeNothing(Match(buy, 5, b.asks, MAX_TRADES_PER_MATCH));
    assert t in Submit(b, buy, MAX_TRADES_PER_MATCH).trades;
  }

  lemma DrawnCancel(index: nat, d: Draw, r: Request)
    requires Drawn(index, d, r) && d.roll == 100
    ensures r.Withdraw?
  {
  }

  lemma DrawnPair(index: nat, x: Request, y: Request)
    requires Drawn(index, Draw(1, 100, 5, 5, 0), x) && Drawn(index + 1, Draw(2, 100, 5, 5, 0), y)
    ensures x == Place(Order(index + 1, 100, 5, Sell, false)) && y == Place(Order(index + 2, 100, 5, Buy, false))
  {
  }

  lemma SplitLastTwo<T>(s: seq<T>)
    requires |s| >= 2
    ensures s == s[..|s| - 2] + [s[|s| - 2]] + [s[|s| - 1]]
  {
  }

  lemma TooLong(draws: seq<Draw>, rs: seq<Request>)
    requires |rs| == |draws| == MAX_ORDERS + 1 && forall i | 0 <= i < |rs| :: Drawn(i, draws[i], rs[i])
    requires forall i | 0 <= i < MAX_ORDERS - 1 :: draws[i].roll == 100
    requires draws[MAX_ORDERS - 1] == Draw(1, 100, 5, 5, 0) && draws[MAX_ORDERS] == Draw(2, 100, 5, 5, 0)
    ensures !AllKnown(Answers(rs, MAX_TRADES_PER_MATCH))
  {
    hide Drawn, AllKnown, Answers;
    var n := |rs| - 2;
    forall i | 0 <= i < n ensures rs[i].Withdraw? { DrawnCancel(i, draws[i], rs[i]); }
    DrawnPair(n, rs[n], rs[n + 1]);
    SplitLastTwo(rs);
    LateSellMeets(rs[..n], rs[n].order, rs[n + 1].order);
  }

  /** One order more than 131072 is too many: a stream of cancels, one sell, which is the 131072nd order, and a buy
      that meets it.  All verdicts but the last succeed. */
  method ScoreTooLong() returns (verdicts: seq<bool>)
    ensures |verdicts| == 131073
    ensures forall i | 0 <= i < 131073 :: verdicts[i] <==> i < 131072
  {
    hide Drawn, AllKnown, Answers;
    var cancel, sell, buy := Draw(100, 100, 5, 5, 0), Draw(1, 100, 5, 5, 0), Draw(2, 100, 5, 5, 0);
    var draws := seq(MAX_ORDERS - 1, _ => cancel) + [sell, buy];
    ghost var rs;
    verdicts, rs := ScoreReferenceEngine(draws);
    TooLong(draws, rs);
  }
}
