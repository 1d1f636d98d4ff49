/** The two engines against the reference book and against each other, over whole request sequences. */
module Agreement {
  import opened Lob
  import opened Options
  import opened BookLaws
  import opened BookRuns
  import opened BookPrices
  import opened Shadow
  import opened ShadowBook
  import opened Flat
  import opened FlatEngine

  // ---------------------------------------------------------------- one request

  lemma ReportSame(ts: seq<Trade>)
    requires forall t | t in ts :: t.quantity < TWO_32
    ensures |ts| <= MAX_TRADES_PER_ORDER ==> Report(ts) == ts
  {
    if |ts| <= MAX_TRADES_PER_ORDER {
      forall i | 0 <= i < |ts| ensures Report(ts)[i] == ts[i] { assert ts[i] in ts; }
    }
  }

  /** What the flat engine leaves in the book, when the id fits its table. */
  lemma HandledBook(b: Book, maxId: nat, o: Order)
    requires Sane(b) && WellFormed(o) && maxId < o.id && o.quantity < TWO_32
    ensures var all := MatchAll(o, b.Against(o.side));
            && (|all.trades| <= MAX_TRADES_PER_ORDER ==>
                  Report(all.trades) == all.trades
                  && Match(o, o.quantity, b.Against(o.side), MAX_TRADES_PER_MATCH) == all)
            && (|all.trades| > MAX_TRADES_PER_ORDER ==>
                  |Match(o, o.quantity, b.Against(o.side), MAX_TRADES_PER_MATCH).trades| > MAX_TRADES_PER_ORDER)
  {
    hide Match;
    var against := b.Against(o.side);
    SanePositive(Opposite(o.side), against);
    var all := MatchAll(o, against);
    TradeUnits(o, o.quantity, against, |against|);
    ReportSame(all.trades);
    var big := |against| + MAX_TRADES_PER_MATCH;
    CapIdle(o, o.quantity, against, big);
    CapCut(o, o.quantity, against, MAX_TRADES_PER_MATCH, big);
  }

  lemma SettleApart(b: Book, o: Order, f: Fill)
    requires !o.isMarket && f.left > 0
    ensures Settle(b, o, f) != Settle(b, o.(isMarket := true), f)
  {
    InsertMembers(o.side, b.Own(o.side), Rest(o.id, o.price, f.left));
  }

  /** The report has room: at most 128 orders wait opposite, or the 129th does not cross, or the 128 before it
      offer enough. */
  predicate ReportFits(o: Order, against: seq<Rest>) {
    || |against| <= 128
    || !Crosses(o, against[128].price)
    || Supply(against[..128]) >= o.quantity
  }

  /** The table has room: the id is an index of it, or nothing will be left to rest. */
  predicate TableFits(o: Order, against: seq<Rest>) {
    o.id < 131072 || o.isMarket || CrossingSupply(o, against) >= o.quantity
  }

  lemma FitsMeans(o: Order, against: seq<Rest>)
    requires SideSane(Opposite(o.side), against)
    ensures var all := MatchAll(o, against);
            && (ReportFits(o, against) <==> |all.trades| <= MAX_TRADES_PER_ORDER)
            && (TableFits(o, against) <==> o.id < MAX_ORDERS || o.isMarket || all.left == 0)
  {
    hide Match;
    MatchCount(o, o.quantity, against, |against|);
    LeftUncapped(o, o.quantity, against, |against|);
    if |against| > MAX_TRADES_PER_ORDER {
      TradesReach(o, o.quantity, against, |against|, MAX_TRADES_PER_ORDER + 1);
    }
  }

  /** What an order meets has to be small enough for the flat engine; an id that comes late is dropped by its gate,
      which shows unless nothing was to be done. */
  predicate Fits(o: Order, maxId: nat, against: seq<Rest>) {
    if o.id <= maxId then o.isMarket && against == [] else ReportFits(o, against) && TableFits(o, against)
  }

  /** Exactly when the flat engine answers a well-formed order as the capped reference book does, seen on the book
      before the call. */
  lemma FlatAgreesIff(b: Book, maxId: nat, o: Order)
    requires Sane(b) && WellFormed(o) && o.quantity < TWO_32
    ensures Handled(b, maxId, Place(o)) == Step(b, Place(o), MAX_TRADES_PER_MATCH)
            <==> Fits(o, maxId, b.Against(o.side))
  {
    hide Match, SideSane, ReportFits, TableFits;
    if o.id <= maxId {
      if o.isMarket {
        MarketShows(b, o, MAX_TRADES_PER_MATCH);
      } else {
        AcceptShows(b, o, MAX_TRADES_PER_MATCH);
      }
    } else {
      RisingAgreesIff(b, maxId, o);
    }
  }

  lemma RisingAgreesIff(b: Book, maxId: nat, o: Order)
    requires Sane(b) && WellFormed(o) && maxId < o.id && o.quantity < TWO_32
    ensures var against := b.Against(o.side);
            Handled(b, maxId, Place(o)) == Step(b, Place(o), MAX_TRADES_PER_MATCH)
            <==> ReportFits(o, against) && TableFits(o, against)
  {
    hide Match, SideSane, ReportFits, TableFits;
    HandledBook(b, maxId, o);
    FitsMeans(o, b.Against(o.side));
    var all := MatchAll(o, b.Against(o.side));
    if |all.trades| <= MAX_TRADES_PER_ORDER {
      if o.id >= MAX_ORDERS && !o.isMarket && all.left > 0 {
        SettleApart(b, o, all);
      }
    } else {
      assert |Report(all.trades)| == MAX_TRADES_PER_ORDER;
    }
  }

  /** An id beyond the table: the shadow engine rests the order, the flat engine drops it. */
  method TableTooSmall() returns (resting: nat, ghost flatBook: Book)
    ensures resting == 1 && flatBook == EMPTY
  {
    hide ListOk, Records, Arrange, LadderOk, SideOk, Queued, LiveOf, NoEmptyLevel;
    var o := Order(131072, 100, 5, Sell, false);
    var book := new OrderBook();
    var engine := new Engine();
    var _ := book.SubmitOrder(o);
    resting := book.TotalRestingOrders();
    var _ := engine.Handle(Place(o));
    flatBook := engine.Abstract();
  }

  /** The last id that fits: both engines rest the order. */
  method TableLast() returns (resting: nat, ghost flatBook: Book)
    ensures resting == 1 && flatBook == Book([], [Rest(131071, 100, 5)])
  {
    hide ListOk, Records, Arrange, LadderOk, SideOk, Queued, LiveOf, NoEmptyLevel;
    var o := Order(131071, 100, 5, Sell, false);
    var book := new OrderBook();
    var engine := new Engine();
    var _ := book.SubmitOrder(o);
    resting := book.TotalRestingOrders();
    var _ := engine.Handle(Place(o));
    flatBook := engine.Abstract();
  }

  /** A trade of 4294967301 units is reported as one of 5. */
  lemma NarrowWraps()
    ensures var ask := Book([], [Rest(1, 100, 4294967301)]);
            var buy := Order(2, 100, 4294967301, Buy, false);
            && Handled(ask, 1, Place(buy)).trades == [Trade(1, 2, 100, 5)]
            && Step(ask, Place(buy), MAX_TRADES_PER_MATCH).trades == [Trade(1, 2, 100, 4294967301)]
  {
    var s := [Rest(1, 100, 4294967301)];
    var o := Order(2, 100, 4294967301, Buy, false);
    var t := Trade(1, 2, 100, 4294967301);
    forall cap | cap > 0 ensures Match(o, 4294967301, s, cap) == Fill([t], [], 0) {
      MatchStep(o, 4294967301, s, cap, []);
      MatchDone(o, 0, [], cap - 1, [t]);
      ResumeNothing(Match(o, 4294967301, s, cap));
    }
    assert Narrow(t) == Trade(1, 2, 100, 5);
    assert Report([t]) == [Narrow(t)];
  }

  /** 129 asks of one unit and a buy of 129: the flat engine reports one trade less. */
  lemma ReportTooSmall()
    ensures var b := Book([], UnitAsks(129));
            var o := Order(200, 100, 129, Buy, false);
            && Sane(b) && |Handled(b, 199, Place(o)).trades| == 128
            && |Step(b, Place(o), MAX_TRADES_PER_MATCH).trades| == 129
  {
    var s := UnitAsks(129);
    var o := Order(200, 100, 129, Buy, false);
    UnitSupply(128);
    UnitAsksSane(129);
    assert Sane(Book([], s));
    assert s[..128] == UnitAsks(128);
    assert Handled(Book([], s), 199, Place(o)).trades == Report(MatchAll(o, s).trades);
    hide UnitAsks, Match, SideSane, Settle, Handled, Sane;
    SanePositive(Sell, s);
    TradesReach(o, 129, s, 129, 129);
    TradesReach(o, 129, s, MAX_TRADES_PER_MATCH, 129);
    MatchCount(o, 129, s, 129);
    MatchCount(o, 129, s, MAX_TRADES_PER_MATCH);
    SubmitTrades(Book([], s), o, MAX_TRADES_PER_MATCH);
  }

  /** The requests on which the engines promise to agree. */
  predicate Comparable(r: Request, maxId: nat) {
    r.Place? ==> WellFormed(r.order) && maxId < r.order.id < 131072 && r.order.quantity <= 128
  }

  lemma ComparableAgrees(b: Book, maxId: nat, r: Request)
    requires Sane(b) && Comparable(r, maxId)
    ensures Handled(b, maxId, r) == Step(b, r, MAX_TRADES_PER_MATCH)
  {
    if r.Place? {
      var o := r.order;
      SanePositive(Opposite(o.side), b.Against(o.side));
      MatchCount(o, o.quantity, b.Against(o.side), |b.Against(o.side)|);
      FitsMeans(o, b.Against(o.side));
      FlatAgreesIff(b, maxId, o);
    }
  }

  // ---------------------------------------------------------------- whole runs

  /** Whether each cancel of a run finds a live order. */
  ghost function CancelDone(rs: seq<Request>, i: nat): bool
    requires i < |rs|
  {
    rs[i].Withdraw? && rs[i].id in LiveIds(After(rs[..i], MAX_TRADES_PER_MATCH))
  }

  lemma FreshSubmit(rs: seq<Request>, i: nat, known: set<nat>)
    requires FreshIds(rs) && i < |rs| && known <= Placed(rs[..i])
    ensures rs[i].Place? ==> rs[i].order.id !in known
    ensures rs[..i + 1] == rs[..i] + [rs[i]]
    ensures rs[..i + 1][..i] == rs[..i]
    ensures FreshIds(rs[..i]) && Placed(rs[..i + 1]) == Placed(rs[..i]) + (if rs[i].Place? then {rs[i].order.id} else {})
  {
    assert rs[..i + 1] == rs[..i] + [rs[i]];
    assert rs[..i + 1][..i] == rs[..i];
    FreshTake(rs, i + 1);
    FreshPrefix(rs[..i + 1]);
    AfterSnoc(rs[..i], rs[i], 0);
  }

  /** Lazy cancel refines eager cancel: over any run that submits no id twice, every answer of the shadow
      engine and its final count are those of the reference book, which removes a cancelled order at once. */
  method ReplayShadow(rs: seq<Request>)
    returns (answers: seq<seq<Trade>>, done: seq<bool>, resting: nat, ghost live: Book)
    requires FreshIds(rs)
    ensures live == After(rs, MAX_TRADES_PER_MATCH)
    ensures answers == Answers(rs, MAX_TRADES_PER_MATCH)
    ensures |done| == |rs| && forall i | 0 <= i < |rs| :: done[i] == CancelDone(rs, i)
    ensures var b := After(rs, MAX_TRADES_PER_MATCH); resting == |b.bids| + |b.asks|
  {
    hide FreshIds, Placed, Submit, After, Answers, LadderOk, SideOk, Queued, LiveOf, NoEmptyLevel;
    var book := new OrderBook();
    answers, done := [], [];
    assert rs[..0] == [];
    EmptyRun(MAX_TRADES_PER_MATCH);
    for i := 0 to |rs|
      invariant fresh(book) && book.Valid()
      invariant book.Live() == After(rs[..i], MAX_TRADES_PER_MATCH)
      invariant book.orderIndex.Keys <= Placed(rs[..i])
      invariant answers == Answers(rs[..i], MAX_TRADES_PER_MATCH)
      invariant |done| == i && forall j | 0 <= j < i :: done[j] == CancelDone(rs, j)
    {
      FreshSubmit(rs, i, book.orderIndex.Keys);
      AfterSnoc(rs[..i], rs[i], MAX_TRADES_PER_MATCH);
      var trades, ok := [], false;
      match rs[i] {
        case Place(o) =>
          MalformedSubmit(book.Live(), o, MAX_TRADES_PER_MATCH);
          trades := book.SubmitOrder(o);
        case Withdraw(id) =>
          ok := book.CancelOrder(id);
      }
      answers, done := answers + [trades], done + [ok];
    }
    assert rs[..|rs|] == rs;
    resting, live := book.TotalRestingOrders(), book.Live();
  }

  lemma EmptyRun(cap: nat)
    ensures Placed([]) == {} && After([], cap) == EMPTY && Answers([], cap) == []
  {
  }

  lemma MalformedSubmit(b: Book, o: Order, cap: nat)
    ensures !WellFormed(o) ==> Submit(b, o, cap) == Outcome(b, [])
  {
  }

  /** The highest id submitted so far. */
  ghost function MaxId(rs: seq<Request>): nat {
    if rs == [] then 0
    else
      var m := MaxId(rs[..|rs| - 1]);
      var r := rs[|rs| - 1];
      if r.Place? && r.order.id > m then r.order.id else m
  }

  /** The flat engine's book after the requests `rs`, and its answers. */
  ghost function FlatAfter(rs: seq<Request>): Book {
    if rs == [] then EMPTY
    else Handled(FlatAfter(rs[..|rs| - 1]), MaxId(rs[..|rs| - 1]), rs[|rs| - 1]).book
  }

  ghost function FlatAnswers(rs: seq<Request>): (ts: seq<seq<Trade>>)
    ensures |ts| == |rs|
  {
    if rs == [] then []
    else FlatAnswers(rs[..|rs| - 1]) + [Handled(FlatAfter(rs[..|rs| - 1]), MaxId(rs[..|rs| - 1]), rs[|rs| - 1]).trades]
  }

  lemma FlatSnoc(rs: seq<Request>, r: Request)
    ensures FlatAfter(rs + [r]) == Handled(FlatAfter(rs), MaxId(rs), r).book
    ensures FlatAnswers(rs + [r]) == FlatAnswers(rs) + [Handled(FlatAfter(rs), MaxId(rs), r).trades]
    ensures MaxId(rs + [r]) == if r.Place? && r.order.id > MaxId(rs) then r.order.id else MaxId(rs)
  {
    assert (rs + [r])[..|rs|] == rs;
  }

  /** The flat engine over any run at all: late, reused and malformed orders included. */
  method ReplayFlat(rs: seq<Request>) returns (answers: seq<seq<Trade>>, ghost book: Book)
    ensures answers == FlatAnswers(rs) && book == FlatAfter(rs)
  {
    hide Handled, ListOk, Records, Arrange, FlatAfter, FlatAnswers, MaxId;
    var engine := new Engine();
    answers := [];
    NothingYet();
    assert rs[..0] == [];
    for i := 0 to |rs|
      invariant engine.Valid() && fresh(engine)
      invariant fresh(engine.orderIndex) && fresh(engine.activeBids) && fresh(engine.activeAsks)
      invariant engine.Abstract() == FlatAfter(rs[..i]) && engine.maxOrderId == MaxId(rs[..i])
      invariant answers == FlatAnswers(rs[..i])
    {
      assert rs[..i + 1] == rs[..i] + [rs[i]];
      FlatSnoc(rs[..i], rs[i]);
      var trades := engine.Handle(rs[i]);
      answers := answers + [trades];
    }
    assert rs[..|rs|] == rs;
    book := engine.Abstract();
  }

  lemma NothingYet()
    ensures FlatAfter([]) == EMPTY && FlatAnswers([]) == [] && MaxId([]) == 0
  {
  }

  /** The engines have the same book and the same answers. */
  ghost predicate Alike(rs: seq<Request>) {
    FlatAfter(rs) == After(rs, MAX_TRADES_PER_MATCH) && FlatAnswers(rs) == Answers(rs, MAX_TRADES_PER_MATCH)
  }

  ghost predicate AlikeThroughout(rs: seq<Request>) {
    forall i | 0 <= i <= |rs| :: Alike(rs[..i])
  }

  /** The `i`-th request, if it is an order, fits the flat engine when it meets the reference book. */
  ghost predicate FitsAt(rs: seq<Request>, i: nat)
    requires i < |rs|
  {
    match rs[i]
    case Withdraw(_) => true
    case Place(o) => Fits(o, MaxId(rs[..i]), After(rs[..i], MAX_TRADES_PER_MATCH).Against(o.side))
  }

  ghost predicate WellFormed32(rs: seq<Request>) {
    forall r | r in rs && r.Place? :: WellFormed(r.order) && r.order.quantity < 4294967296
  }

  lemma StepAlike(rs: seq<Request>, r: Request)
    requires FreshIds(rs + [r]) && WellFormed32(rs + [r]) && Alike(rs)
    ensures Alike(rs + [r])
            <==> (r.Place? ==> Fits(r.order, MaxId(rs), After(rs, MAX_TRADES_PER_MATCH).Against(r.order.side)))
  {
    var b := After(rs, MAX_TRADES_PER_MATCH);
    StepSane(rs, r, MAX_TRADES_PER_MATCH);
    AfterSnoc(rs, r, MAX_TRADES_PER_MATCH);
    FlatSnoc(rs, r);
    assert r in rs + [r];
    assert r.Withdraw? ==> Handled(b, MaxId(rs), r) == Step(b, r, MAX_TRADES_PER_MATCH);
    hide Handled, Step, Fits, FlatAfter, FlatAnswers, MaxId, After, Answers, FreshIds, Sane, LiveIds, Placed;
    if r.Place? {
      FlatAgreesIff(b, MaxId(rs), r.order);
    }
    var ours, theirs := Step(b, r, MAX_TRADES_PER_MATCH), Handled(b, MaxId(rs), r);
    LastEqual(FlatAnswers(rs), theirs.trades, ours.trades);
  }

  lemma LastEqual<T>(a: seq<T>, x: T, y: T)
    ensures a + [x] == a + [y] <==> x == y
  {
    assert (a + [x])[|a|] == x && (a + [y])[|a|] == y;
  }

  lemma AlikeSnoc(rs: seq<Request>, r: Request)
    ensures AlikeThroughout(rs + [r]) <==> AlikeThroughout(rs) && Alike(rs + [r])
  {
    hide Alike;
    var n, all := |rs|, rs + [r];
    forall i | 0 <= i <= n ensures all[..i] == rs[..i] {}
    assert all[..n + 1] == all;
  }

  lemma FitsSnoc(rs: seq<Request>, r: Request)
    ensures (forall i | 0 <= i < |rs| + 1 :: FitsAt(rs + [r], i))
            <==> (forall i | 0 <= i < |rs| :: FitsAt(rs, i)) && FitsAt(rs + [r], |rs|)
  {
    forall i | 0 <= i < |rs| ensures FitsAt(rs, i) == FitsAt(rs + [r], i) {
      assert (rs + [r])[..i] == rs[..i];
    }
    hide FitsAt;
  }

  /** Engine equivalence over whole runs, exactly: whatever well-formed 32-bit orders come, each id once but in any
      order, and whatever is cancelled, the engines have the same book and the same answers after every request if
      and only if each order fits when it meets the reference book. */
  lemma {:induction false} EnginesAgreeIff(rs: seq<Request>)
    requires FreshIds(rs) && WellFormed32(rs)
    ensures AlikeThroughout(rs) <==> forall i | 0 <= i < |rs| :: FitsAt(rs, i)
  {
    if rs == [] {
      NothingYet();
      assert forall i | 0 <= i <= |rs| :: rs[..i] == [];
    } else {
      var n := |rs| - 1;
      var p, r := rs[..n], rs[n];
      assert rs == p + [r] && rs[..n] == p;
      assert WellFormed32(p);
      FreshTake(rs, n);
      assert FitsAt(rs, n) <==> (r.Place? ==> Fits(r.order, MaxId(p), After(p, MAX_TRADES_PER_MATCH).Against(r.order.side)));
      assert AlikeThroughout(p) ==> Alike(p) by { assert p[..n] == p; }
      hide *;
      EnginesAgreeIff(p);
      AlikeSnoc(p, r);
      FitsSnoc(p, r);
      if Alike(p) {
        StepAlike(p, r);
      }
    }
  }

  /** Submitted ids rise and fit the table, orders are well formed and small; cancels are arbitrary. */
  ghost predicate ComparableRun(rs: seq<Request>) {
    forall i | 0 <= i < |rs| :: Comparable(rs[i], MaxId(rs[..i]))
  }

  lemma {:induction false} PlacedBelowMax(rs: seq<Request>)
    ensures forall r | r in rs && r.Place? :: r.order.id <= MaxId(rs)
  {
    if rs != [] {
      var n := |rs| - 1;
      PlacedBelowMax(rs[..n]);
      assert rs == rs[..n] + [rs[n]];
    }
  }

  /** Submitted ids rise, whatever their size; orders are well formed and small; cancels are arbitrary. */
  ghost predicate RisingRun(rs: seq<Request>) {
    forall i | 0 <= i < |rs| && rs[i].Place? ::
      MaxId(rs[..i]) < rs[i].order.id && WellFormed(rs[i].order) && rs[i].order.quantity <= MAX_TRADES_PER_ORDER
  }

  lemma RisingFresh(rs: seq<Request>)
    requires RisingRun(rs)
    ensures FreshIds(rs) && WellFormed32(rs)
  {
    forall i, j | 0 <= i < j < |rs| && rs[i].Place? && rs[j].Place?
      ensures rs[i].order.id != rs[j].order.id
    {
      PlacedBelowMax(rs[..j]);
      assert rs[..j][i] == rs[i];
    }
  }

  /** The gate's number is the highest id placed so far; cancels do not count. */
  lemma {:induction false} MaxIdIs(rs: seq<Request>)
    ensures forall r | r in rs && r.Place? :: r.order.id <= MaxId(rs)
    ensures MaxId(rs) == 0 || exists r :: r in rs && r.Place? && r.order.id == MaxId(rs)
  {
    PlacedBelowMax(rs);
    if rs != [] {
      var n := |rs| - 1;
      MaxIdIs(rs[..n]);
      assert rs == rs[..n] + [rs[n]];
      if MaxId(rs) != 0 && MaxId(rs) == MaxId(rs[..n]) {
        var r :| r in rs[..n] && r.Place? && r.order.id == MaxId(rs[..n]);
        assert r in rs;
      }
    }
  }

  lemma ComparableRises(rs: seq<Request>)
    requires ComparableRun(rs)
    ensures RisingRun(rs)
  {
    assert forall i | 0 <= i < |rs| :: Comparable(rs[i], MaxId(rs[..i]));
  }

  /** Rising small orders whose ids fit the table always fit. */
  lemma ComparableFits(rs: seq<Request>)
    requires ComparableRun(rs)
    ensures FreshIds(rs) && WellFormed32(rs) && forall i | 0 <= i < |rs| :: FitsAt(rs, i)
  {
    ComparableRises(rs);
    RisingFresh(rs);
    forall i | 0 <= i < |rs| ensures FitsAt(rs, i) {
      hide Fits, Handled, Step, Sane, FreshIds, WellFormed32, RisingRun, After, MaxId;
      FreshTake(rs, i);
      RunSane(rs[..i], MAX_TRADES_PER_MATCH);
      assert Comparable(rs[i], MaxId(rs[..i]));
      var b := After(rs[..i], MAX_TRADES_PER_MATCH);
      if rs[i].Place? {
        ComparableAgrees(b, MaxId(rs[..i]), rs[i]);
        FlatAgreesIff(b, MaxId(rs[..i]), rs[i].order);
      }
    }
  }

  /** Both engines over one run of well-formed 32-bit orders.  The shadow engine gives the reference answers and book,
      and so does the flat engine while every order fits it, in particular on comparable runs. */
  method CompareEngines(rs: seq<Request>)
    returns (shadow: seq<seq<Trade>>, flat: seq<seq<Trade>>, ghost shadowBook: Book, ghost flatBook: Book)
    requires FreshIds(rs) && WellFormed32(rs)
    ensures shadow == Answers(rs, MAX_TRADES_PER_MATCH) && shadowBook == After(rs, MAX_TRADES_PER_MATCH)
    ensures flat == FlatAnswers(rs) && flatBook == FlatAfter(rs)
    ensures (forall i | 0 <= i < |rs| :: FitsAt(rs, i)) ==> shadow == flat && shadowBook == flatBook
    ensures ComparableRun(rs) ==> shadow == flat && shadowBook == flatBook
  {
    var answers, _, _, live := ReplayShadow(rs);
    shadow, shadowBook := answers, live;
    flat, flatBook := ReplayFlat(rs);
    hide FreshIds, WellFormed32, FitsAt, ComparableRun, FlatAfter, FlatAnswers, After, Answers;
    if ComparableRun(rs) { ComparableFits(rs); }
    EnginesAgreeIff(rs);
    assert rs[..|rs|] == rs;
    assert AlikeThroughout(rs) ==> Alike(rs[..|rs|]);
  }

  /** The shadow engine's state: raw levels, dead orders included, and the index. */
  datatype Raw = Raw(bids: seq<Level>, asks: seq<Level>, index: map<nat, Entry>)

  ghost function LiveRaw(r: Raw): Book {
    Book(LiveOf(Queued(r.bids), r.index), LiveOf(Queued(r.asks), r.index))
  }

  /** No level is empty, the raw levels do not cross, and the spread is their exact difference. */
  ghost predicate SpreadExact(spread: Option<nat>, r: Raw) {
    && NoEmptyLevel(r.bids) && NoEmptyLevel(r.asks)
    && (spread.None? <==> r.bids == [] || r.asks == [])
    && (spread.Some? ==> r.bids[0].price < r.asks[0].price && spread.value == r.asks[0].price - r.bids[0].price)
  }

  ghost predicate SpreadBelow(spread: Option<nat>, b: Book) {
    forall x, y | x in b.bids && y in b.asks :: spread.Some? && 0 < spread.value <= y.price - x.price
  }

  /** While quantities stay below the cap: after every request, and also where levels hold only cancelled orders,
      the raw book is not crossed, no level is empty, and the spread is the exact difference of the best raw
      prices, which never exceeds that of two live orders. */
  method ReplaySpreads(rs: seq<Request>) returns (spreads: seq<Option<nat>>, raw: seq<Raw>)
    requires FreshIds(rs) && Small(rs, MAX_TRADES_PER_MATCH)
    ensures |spreads| == |raw| == |rs|
    ensures forall i | 0 <= i < |rs| ::
              && LiveRaw(raw[i]) == After(rs[..i + 1], MAX_TRADES_PER_MATCH)
              && SpreadExact(spreads[i], raw[i])
              && SpreadBelow(spreads[i], After(rs[..i + 1], MAX_TRADES_PER_MATCH))
  {
    hide FreshIds, Placed, Submit, After, Answers, LadderOk, SideOk, Queued, LiveOf, NoEmptyLevel;
    var book := new OrderBook();
    spreads, raw := [], [];
    assert rs[..0] == [];
    EmptyRun(MAX_TRADES_PER_MATCH);
    for i := 0 to |rs|
      invariant fresh(book) && book.Valid() && book.RawUncrossed()
      invariant book.Live() == After(rs[..i], MAX_TRADES_PER_MATCH)
      invariant book.orderIndex.Keys <= Placed(rs[..i])
      invariant |spreads| == |raw| == i
      invariant forall j | 0 <= j < i ::
                  && LiveRaw(raw[j]) == After(rs[..j + 1], MAX_TRADES_PER_MATCH)
                  && SpreadExact(spreads[j], raw[j])
                  && SpreadBelow(spreads[j], After(rs[..j + 1], MAX_TRADES_PER_MATCH))
    {
      FreshSubmit(rs, i, book.orderIndex.Keys);
      AfterSnoc(rs[..i], rs[i], MAX_TRADES_PER_MATCH);
      assert rs[i] in rs;
      match rs[i] {
        case Place(o) =>
          MalformedSubmit(book.Live(), o, MAX_TRADES_PER_MATCH);
          var _ := book.SubmitOrder(o);
        case Withdraw(id) =>
          var _ := book.CancelOrder(id);
      }
      spreads, raw := spreads + [book.Spread()], raw + [Raw(book.bids, book.asks, book.orderIndex)];
    }
  }

  /** The `i`-th request leaves a limit order to rest across 1024 orders it traded with. */
  ghost predicate Crossing(rs: seq<Request>, i: nat)
    requires i < |rs|
  {
    rs[i].Place? && WellFormed(rs[i].order)
    && RestsAcross(rs[i].order, After(rs[..i], MAX_TRADES_PER_MATCH).Against(rs[i].order.side))
  }

  /** The best raw levels do not cross. */
  predicate Apart(r: Raw) {
    r.bids != [] && r.asks != [] ==> r.bids[0].price < r.asks[0].price
  }

  ghost predicate ApartUntil(raw: seq<Raw>, n: nat)
    requires n <= |raw|
  {
    forall i | 0 <= i < n :: Apart(raw[i])
  }

  ghost predicate CalmUntil(rs: seq<Request>, n: nat)
    requires n <= |rs|
  {
    forall i | 0 <= i < n :: !Crossing(rs, i)
  }

  lemma ApartSnoc(raw: seq<Raw>, r: Raw)
    ensures forall n | 0 <= n <= |raw| :: ApartUntil(raw + [r], n) <==> ApartUntil(raw, n)
    ensures ApartUntil(raw + [r], |raw| + 1) <==> ApartUntil(raw, |raw|) && Apart(r)
  {
    hide Apart;
    assert forall i | 0 <= i < |raw| :: (raw + [r])[i] == raw[i];
    assert (raw + [r])[|raw|] == r;
  }

  lemma CalmNext(rs: seq<Request>, n: nat)
    requires n < |rs|
    ensures CalmUntil(rs, n + 1) <==> CalmUntil(rs, n) && !Crossing(rs, n)
  {
    hide Crossing;
  }

  /** Over every fresh-id run, the raw levels are uncrossed after each request exactly when no limit order of it
      meets 1024 crossing orders that do not offer enough, whatever empty levels full stops leave behind. */
  method ReplayCrossings(rs: seq<Request>) returns (raw: seq<Raw>)
    requires FreshIds(rs)
    ensures |raw| == |rs|
    ensures forall i | 0 <= i < |rs| :: LiveRaw(raw[i]) == After(rs[..i + 1], MAX_TRADES_PER_MATCH)
    ensures forall n | 0 <= n <= |rs| :: ApartUntil(raw, n) <==> CalmUntil(rs, n)
  {
    hide FreshIds, Placed, Submit, After, Answers, LadderOk, SideOk, Queued, LiveOf, NoEmptyLevel, RestsAcross,
         ApartUntil, CalmUntil;
    var book := new OrderBook();
    raw := [];
    assert rs[..0] == [];
    EmptyRun(MAX_TRADES_PER_MATCH);
    NothingCrossed(rs);
    for i := 0 to |rs|
      invariant fresh(book) && book.Valid()
      invariant book.Live() == After(rs[..i], MAX_TRADES_PER_MATCH)
      invariant book.orderIndex.Keys <= Placed(rs[..i])
      invariant |raw| == i
      invariant forall j | 0 <= j < i :: LiveRaw(raw[j]) == After(rs[..j + 1], MAX_TRADES_PER_MATCH)
      invariant ApartUntil(raw, i) ==> book.PricesUncrossed()
      invariant forall n | 0 <= n <= i :: ApartUntil(raw, n) <==> CalmUntil(rs, n)
    {
      FreshSubmit(rs, i, book.orderIndex.Keys);
      AfterSnoc(rs[..i], rs[i], MAX_TRADES_PER_MATCH);
      match rs[i] {
        case Place(o) =>
          MalformedSubmit(book.Live(), o, MAX_TRADES_PER_MATCH);
          var _ := book.SubmitOrder(o);
        case Withdraw(id) =>
          var _ := book.CancelOrder(id);
      }
      var next := Raw(book.bids, book.asks, book.orderIndex);
      ApartSnoc(raw, next);
      CalmNext(rs, i);
      raw := raw + [next];
    }
  }

  lemma NothingCrossed(rs: seq<Request>)
    ensures ApartUntil([], 0) && CalmUntil(rs, 0)
  {
  }

  // ---------------------------------------------------------------- where the cap leaves a crossed book

  /** `n` asks of one unit at price 100. */
  ghost function UnitAsks(n: nat): seq<Rest> { seq(n, i requires 0 <= i => Rest(i + 1, 100, 1)) }

  lemma {:induction false} UnitSupply(n: nat)
    ensures Supply(UnitAsks(n)) == n
  {
    if n > 0 {
      UnitSupply(n - 1);
      var s := UnitAsks(n - 1);
      assert UnitAsks(n) == s + [Rest(n, 100, 1)];
      SupplyConcat(s, [Rest(n, 100, 1)]);
    }
  }

  lemma {:induction false} SupplyConcat(a: seq<Rest>, b: seq<Rest>)
    ensures Supply(a + b) == Supply(a) + Supply(b)
  {
    if a == [] {
      assert a + b == b;
    } else {
      assert (a + b)[1..] == a[1..] + b;
      SupplyConcat(a[1..], b);
    }
  }

  /** The stop, to the trade: against n one-unit asks a buy of n makes n trades up to 1024 and never more. */
  lemma CapExact(n: nat)
    requires n > 0
    ensures var out := Step(Book([], UnitAsks(n)), Place(Order(n + 1, 100, n, Buy, false)), MAX_TRADES_PER_MATCH);
            |out.trades| == if n <= 1024 then n else 1024
  {
    var s, o := UnitAsks(n), Order(n + 1, 100, n, Buy, false);
    var k := Min(n, 1024);
    UnitSupply(k - 1);
    UnitAsksSane(n);
    assert s[..k - 1] == UnitAsks(k - 1);
    TradesReach(o, n, s, MAX_TRADES_PER_MATCH, k);
    MatchCount(o, n, s, MAX_TRADES_PER_MATCH);
    SubmitTrades(Book([], s), o, MAX_TRADES_PER_MATCH);
  }

  lemma UnitAsksSane(n: nat)
    ensures SideSane(Sell, UnitAsks(n))
  {
  }

  lemma OneMoreAsk(n: nat)
    ensures var o := Order(n + 1, 100, 1, Sell, false);
            Submit(Book([], UnitAsks(n)), o, MAX_TRADES_PER_MATCH) == Outcome(Book([], UnitAsks(n + 1)), [])
  {
    InsertSkip(Sell, UnitAsks(n), [], Rest(n + 1, 100, 1));
    assert UnitAsks(n) + [] == UnitAsks(n);
    assert UnitAsks(n) + [Rest(n + 1, 100, 1)] == UnitAsks(n + 1);
  }

  /** 1024 asks of one unit, and a buy of 1025 above their price: the stop after 1024 trades leaves the last
      level in the book, empty, the buy rests above it, and the unsigned spread wraps around. */
  method CapCrosses() returns (spread: Option<nat>)
    ensures spread == Some(18446744073709551615)
  {
    hide LadderOk, SideOk, Queued, LiveOf, NoEmptyLevel, Submit;
    var book := new OrderBook();
    assert UnitAsks(0) == [];
    for i := 0 to MAX_TRADES_PER_MATCH
      invariant fresh(book) && book.Valid() && book.RawUncrossed()
      invariant book.Live() == Book([], UnitAsks(i))
      invariant forall id | id in book.orderIndex :: id <= i
    {
      OneMoreAsk(i);
      var _ := book.SubmitOrder(Order(i + 1, 100, 1, Sell, false));
    }
    var buy := Order(2000, 101, 1025, Buy, false);
    CapRestsAcross(buy);
    hide UnitAsks, RestsAcross;
    var trades := book.SubmitOrder(buy);
    spread := book.Spread();
  }

  lemma CapRestsAcross(buy: Order)
    requires buy == Order(2000, 101, 1025, Buy, false)
    ensures var asks := UnitAsks(MAX_TRADES_PER_MATCH);
            var ts := Submit(Book([], asks), buy, MAX_TRADES_PER_MATCH).trades;
            RestsAcross(buy, asks) && (ts != [] ==> ts[|ts| - 1].price == 100)
  {
    UnitSupply(MAX_TRADES_PER_MATCH);
    var asks := UnitAsks(MAX_TRADES_PER_MATCH);
    assert asks[..MAX_TRADES_PER_MATCH] == asks;
    LastTradeAt(buy, asks, MAX_TRADES_PER_MATCH, 100);
    SubmitTrades(Book([], asks), buy, MAX_TRADES_PER_MATCH);
  }

  lemma SubmitTrades(b: Book, o: Order, cap: nat)
    requires WellFormed(o)
    ensures Submit(b, o, cap).trades == Match(o, o.quantity, b.Against(o.side), cap).trades
  {
  }

  lemma {:induction false} TradesAt(o: Order, left: nat, s: seq<Rest>, cap: nat, price: nat)
    requires forall x | x in s :: x.price == price
    ensures forall t | t in Match(o, left, s, cap).trades :: t.price == price
    decreases |s|, left
  {
    if left != 0 && s != [] && cap != 0 && Crosses(o, s[0].price) {
      var q := Min(left, s[0].quantity);
      assert s[0] in s;
      forall x | x in TakeBest(s, q) ensures x.price == price {}
      if q == 0 { TakeBestLength(s, q); }
      TradesAt(o, left - q, TakeBest(s, q), cap - 1, price);
    }
  }

  lemma LastTradeAt(o: Order, s: seq<Rest>, cap: nat, price: nat)
    requires forall i | 0 <= i < |s| :: s[i].price == price
    ensures var ts := Match(o, o.quantity, s, cap).trades; ts != [] ==> ts[|ts| - 1].price == price
  {
    TradesAt(o, o.quantity, s, cap, price);
    var ts := Match(o, o.quantity, s, cap).trades;
    if ts != [] { assert ts[|ts| - 1] in ts; }
  }

  // ---------------------------------------------------------------- where lazy and eager cancels differ

  /** A reused id: the order is cancelled, but while its entry is still queued the shadow engine refuses a new
      order under the same id, which the reference book accepts. */
  method ReuseAfterCancel() returns (resting: nat)
    ensures resting == 0
    ensures var bid := Place(Order(1, 100, 5, Buy, false));
            var b := After([bid, Withdraw(1), bid], MAX_TRADES_PER_MATCH);
            |b.bids| + |b.asks| == 1
  {
    var o := Order(1, 100, 5, Buy, false);
    var book := new OrderBook();
    var _ := book.SubmitOrder(o);
    var b1 := Book([Rest(1, 100, 5)], []);
    assert book.Live() == b1;
    SideOkKnows(book, 1);
    var _ := book.CancelOrder(1);
    assert book.Live() == EMPTY;
    var _ := book.SubmitOrder(o);
    assert book.Live() == EMPTY;
    resting := book.TotalRestingOrders();
    var rs := [Place(o), Withdraw(1), Place(o)];
    assert rs[..2] == [Place(o), Withdraw(1)] && rs[..2][..1] == [Place(o)] && rs[..1][..0] == [];
    assert After([Place(o)], MAX_TRADES_PER_MATCH) == b1 by { assert [Place(o)][..0] == []; }
    assert After(rs[..2], MAX_TRADES_PER_MATCH) == EMPTY;
    assert After(rs, MAX_TRADES_PER_MATCH) == b1;
  }

  lemma SideOkKnows(book: OrderBook, id: nat)
    requires book.Valid() && id in LiveIds(book.Live())
    ensures id in book.orderIndex
  {
    LiveEntries(Buy, Queued(book.bids), book.orderIndex);
    LiveEntries(Sell, Queued(book.asks), book.orderIndex);
  }
}
