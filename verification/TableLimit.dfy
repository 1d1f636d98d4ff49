/** What the flat engine forgets: orders whose ids do not fit its table.  Its book is the reference book without
    them, until one of them is asked for. */
module TableLimit {
  import opened Lob
  import opened BookLaws
  import opened BookRuns
  import BookPrices
  import opened Shadow
  import opened Flat
  import opened FlatEngine
  import opened Agreement

  // ---------------------------------------------------------------- a side without the ids beyond the table

  /** The orders whose ids are indices of the table. */
  function Keep(s: seq<Rest>): seq<Rest> {
    if s == [] then []
    else if s[0].id < MAX_ORDERS then [s[0]] + Keep(s[1..])
    else Keep(s[1..])
  }

  function KeepBook(b: Book): Book { Book(Keep(b.bids), Keep(b.asks)) }

  /** No trade is made with an order beyond the table. */
  ghost predicate Known(ts: seq<Trade>) {
    forall t | t in ts :: t.maker < 131072
  }

  lemma {:induction false} KeepMembers(s: seq<Rest>)
    ensures forall x :: x in Keep(s) <==> x in s && x.id < MAX_ORDERS
    ensures Positive(s) ==> Positive(Keep(s))
  {
    if s != [] {
      KeepMembers(s[1..]);
      assert s == [s[0]] + s[1..];
      var t := Keep(s);
      if Positive(s) {
        forall i | 0 <= i < |t| ensures t[i].quantity > 0 {
          assert t[i] in s;
        }
      }
    }
  }

  lemma {:induction false} KeepRemove(s: seq<Rest>, id: nat)
    ensures Keep(Remove(s, id)) == Remove(Keep(s), id)
  {
    if s != [] {
      KeepRemove(s[1..], id);
      var t := Remove(s[1..], id);
      assert ([s[0]] + t)[1..] == t;
      var u := Keep(s[1..]);
      assert ([s[0]] + u)[1..] == u;
    }
  }

  lemma {:induction false} KeepInsert(side: Side, s: seq<Rest>, r: Rest)
    requires Sorted(side, s)
    ensures Keep(Insert(side, s, r)) == if r.id < MAX_ORDERS then Insert(side, Keep(s), r) else Keep(s)
  {
    if s == [] || Better(side, r.price, s[0].price) {
      assert ([r] + s)[1..] == s;
      KeepMembers(s);
      var t := Keep(s);
      if t != [] {
        assert t[0] in s;
        assert Better(side, r.price, t[0].price);
      }
    } else {
      KeepInsert(side, s[1..], r);
      var t := Insert(side, s[1..], r);
      assert ([s[0]] + t)[1..] == t;
      var u := Keep(s[1..]);
      assert ([s[0]] + u)[1..] == u;
    }
  }

  lemma KeepCons(x: Rest, t: seq<Rest>)
    requires x.id < MAX_ORDERS
    ensures Keep([x] + t) == [x] + Keep(t)
  {
    assert ([x] + t)[1..] == t;
  }

  lemma TakeBestCons(x: Rest, t: seq<Rest>, q: nat)
    requires q <= x.quantity
    ensures TakeBest([x] + t, q) == if q == x.quantity then t else [x.(quantity := x.quantity - q)] + t
  {
    assert ([x] + t)[1..] == t;
  }

  lemma KeepTakeBest(s: seq<Rest>, q: nat)
    requires s != [] && q <= s[0].quantity && s[0].id < MAX_ORDERS
    ensures Keep(s) != [] && Keep(s)[0] == s[0] && Keep(TakeBest(s, q)) == TakeBest(Keep(s), q)
  {
    var x, t := s[0], s[1..];
    assert s == [x] + t;
    hide *;
    KeepCons(x, t);
    KeepCons(x.(quantity := x.quantity - q), t);
    TakeBestCons(x, t, q);
    TakeBestCons(x, Keep(t), q);
  }

  // ---------------------------------------------------------------- matching

  lemma {:induction false} KnownMakers(o: Order, left: nat, s: seq<Rest>, cap: nat)
    requires forall x | x in s :: x.id < MAX_ORDERS
    ensures Known(Match(o, left, s, cap).trades)
    decreases |s|, left
  {
    if left != 0 && s != [] && cap != 0 && Crosses(o, s[0].price) {
      var q := Min(left, s[0].quantity);
      assert s[0] in s;
      forall x | x in TakeBest(s, q) ensures x.id < MAX_ORDERS {}
      if q == 0 { TakeBestLength(s, q); }
      KnownMakers(o, left - q, TakeBest(s, q), cap - 1);
    }
  }

  /** A side that starts with an order that does not cross has none that does. */
  lemma KeepStops(o: Order, left: nat, s: seq<Rest>, cap: nat)
    requires Sorted(Opposite(o.side), s) && (left == 0 || s == [] || cap == 0 || !Crosses(o, s[0].price))
    ensures Match(o, left, Keep(s), cap) == Fill([], Keep(s), left)
  {
    KeepMembers(s);
    var t := Keep(s);
    if t != [] {
      assert t[0] in s;
      var i :| 0 <= i < |s| && s[i] == t[0];
    }
  }

  /** Matching does not miss what is beyond the table. */
  ghost predicate Unmissed(o: Order, left: nat, s: seq<Rest>, cap: nat) {
    var f := Match(o, left, s, cap);
    Match(o, left, Keep(s), cap) == Fill(f.trades, Keep(f.against), f.left)
  }

  lemma KnownStep(o: Order, left: nat, s: seq<Rest>, cap: nat)
    requires left > 0 && s != [] && cap > 0 && Crosses(o, s[0].price) && Known(Match(o, left, s, cap).trades)
    ensures s[0].id < MAX_ORDERS
    ensures var q := Min(left, s[0].quantity); Known(Match(o, left - q, TakeBest(s, q), cap - 1).trades)
  {
    var q := Min(left, s[0].quantity);
    var t := Trade(s[0].id, o.id, s[0].price, q);
    var g := Match(o, left - q, TakeBest(s, q), cap - 1);
    var f := Match(o, left, s, cap);
    assert f.trades == [t] + g.trades;
    hide *;
    assert t in f.trades;
    assert forall x | x in g.trades :: x in f.trades;
  }

  lemma UnmissedStep(o: Order, left: nat, s: seq<Rest>, cap: nat)
    requires left > 0 && s != [] && cap > 0 && Crosses(o, s[0].price) && s[0].id < MAX_ORDERS
    requires var q := Min(left, s[0].quantity); Unmissed(o, left - q, TakeBest(s, q), cap - 1)
    ensures Unmissed(o, left, s, cap)
  {
    var q := Min(left, s[0].quantity);
    KeepTakeBest(s, q);
    hide Keep;
    MatchStep(o, left, s, cap, []);
    MatchStep(o, left, Keep(s), cap, []);
    hide Match, TakeBest;
    ResumeNothing(Match(o, left, s, cap));
    ResumeNothing(Match(o, left, Keep(s), cap));
  }

  /** As long as nothing beyond the table is traded with, matching does not miss it. */
  lemma {:induction false} KeepMatch(o: Order, left: nat, s: seq<Rest>, cap: nat)
    requires SideSane(Opposite(o.side), s) && Known(Match(o, left, s, cap).trades)
    ensures Unmissed(o, left, s, cap)
    decreases |s|, left
  {
    if left != 0 && s != [] && cap != 0 && Crosses(o, s[0].price) {
      var q := Min(left, s[0].quantity);
      assert q > 0;
      hide SideSane, Known, Match, Unmissed, Keep, Crosses;
      TakeBestSane(Opposite(o.side), s, q);
      KnownStep(o, left, s, cap);
      KeepMatch(o, left - q, TakeBest(s, q), cap - 1);
      UnmissedStep(o, left, s, cap);
    } else {
      KeepStops(o, left, s, cap);
    }
  }

  // ---------------------------------------------------------------- one request

  /** The flat engine's answer to a small rising order: every trade is written down as it is. */
  lemma SmallHandled(b: Book, maxId: nat, o: Order)
    requires Positive(b.Against(o.side)) && maxId < o.id && o.quantity <= MAX_TRADES_PER_ORDER
    ensures var f := Match(o, o.quantity, b.Against(o.side), MAX_TRADES_PER_MATCH);
            Handled(b, maxId, Place(o)) == Outcome(Settle(b, Restable(o), f), f.trades)
  {
    var s := b.Against(o.side);
    hide Match, Settle;
    CapIdle(o, o.quantity, s, MAX_TRADES_PER_MATCH);
    MatchCount(o, o.quantity, s, MAX_TRADES_PER_MATCH);
    BookPrices.TradeUnits(o, o.quantity, s, MAX_TRADES_PER_MATCH);
    ReportSame(Match(o, o.quantity, s, MAX_TRADES_PER_MATCH).trades);
  }

  lemma KeepSettle(b: Book, o: Order, f: Fill)
    requires Sorted(o.side, b.Own(o.side))
    ensures Settle(KeepBook(b), Restable(o), Fill(f.trades, Keep(f.against), f.left)) == KeepBook(Settle(b, o, f))
  {
    hide Keep, Insert;
    KeepInsert(o.side, b.Own(o.side), Rest(o.id, o.price, f.left));
  }

  /** On the book without the forgotten orders, a small rising order is answered as on the whole book exactly when
      none of them is traded with, and then only what has to be forgotten is. */
  lemma OrderForgets(b: Book, maxId: nat, o: Order)
    requires Sane(b) && WellFormed(o) && maxId < o.id && o.quantity <= MAX_TRADES_PER_ORDER
    ensures var whole := Step(b, Place(o), MAX_TRADES_PER_MATCH);
            var part := Handled(KeepBook(b), maxId, Place(o));
            && (Known(whole.trades) ==> part == Outcome(KeepBook(whole.book), whole.trades))
            && (!Known(whole.trades) ==> part.trades != whole.trades)
  {
    var s := b.Against(o.side);
    var f := Match(o, o.quantity, s, MAX_TRADES_PER_MATCH);
    assert Step(b, Place(o), MAX_TRADES_PER_MATCH) == Outcome(Settle(b, o, f), f.trades);
    assert KeepBook(b).Against(o.side) == Keep(s);
    hide Match, Settle, Handled, Restable, Keep, Step;
    KeepMembers(s);
    SmallHandled(KeepBook(b), maxId, o);
    KnownMakers(o, o.quantity, Keep(s), MAX_TRADES_PER_MATCH);
    if Known(f.trades) {
      KeepMatch(o, o.quantity, s, MAX_TRADES_PER_MATCH);
      KeepSettle(b, o, f);
    }
  }

  // ---------------------------------------------------------------- whole runs

  ghost predicate AllKnown(answers: seq<seq<Trade>>) {
    forall ts | ts in answers :: Known(ts)
  }

  lemma AllKnownSnoc(answers: seq<seq<Trade>>, ts: seq<Trade>)
    ensures AllKnown(answers + [ts]) <==> AllKnown(answers) && Known(ts)
  {
    hide Known;
    assert ts in answers + [ts];
    assert forall x | x in answers :: x in answers + [ts];
  }

  lemma SnocEqual<T>(a: seq<T>, x: T, b: seq<T>, y: T)
    requires |a| == |b|
    ensures a + [x] == b + [y] <==> a == b && x == y
  {
    if a + [x] == b + [y] {
      assert (a + [x])[..|a|] == a && (b + [y])[..|b|] == b;
      assert (a + [x])[|a|] == x && (b + [y])[|b|] == y;
    }
  }

  lemma StepForgets(rs: seq<Request>, r: Request)
    requires RisingRun(rs + [r])
    ensures var b := After(rs, MAX_TRADES_PER_MATCH);
            var whole, part := Step(b, r, MAX_TRADES_PER_MATCH), Handled(KeepBook(b), MaxId(rs), r);
            && (Known(whole.trades) ==> part == Outcome(KeepBook(whole.book), whole.trades))
            && (!Known(whole.trades) ==> part.trades != whole.trades)
  {
    var b := After(rs, MAX_TRADES_PER_MATCH);
    RisingFresh(rs + [r]);
    StepSane(rs, r, MAX_TRADES_PER_MATCH);
    match r {
      case Place(o) =>
        assert (rs + [r])[..|rs|] == rs && (rs + [r])[|rs|] == r;
        hide Sane;
        OrderForgets(b, MaxId(rs), o);
      case Withdraw(id) =>
        KeepRemove(b.bids, id);
        KeepRemove(b.asks, id);
    }
  }

  /** Ids of any size: over every run of rising small orders the flat engine gives the reference answers exactly as
      long as the reference book trades with no order beyond the table, and until then its book is the reference
      book without those orders. */
  lemma {:induction false} FlatForgets(rs: seq<Request>)
    requires RisingRun(rs)
    ensures var known := AllKnown(Answers(rs, MAX_TRADES_PER_MATCH));
            && (FlatAnswers(rs) == Answers(rs, MAX_TRADES_PER_MATCH) <==> known)
            && (known ==> FlatAfter(rs) == KeepBook(After(rs, MAX_TRADES_PER_MATCH)))
  {
    if rs != [] {
      var n := |rs| - 1;
      var p, r := rs[..n], rs[n];
      assert rs == p + [r];
      assert forall i | 0 <= i < n :: p[..i] == rs[..i];
      assert RisingRun(p);
      hide *;
      FlatForgets(p);
      var b := After(p, MAX_TRADES_PER_MATCH);
      var ours := Answers(p, MAX_TRADES_PER_MATCH);
      StepForgets(p, r);
      AfterSnoc(p, r, MAX_TRADES_PER_MATCH);
      FlatSnoc(p, r);
      var x, y := Step(b, r, MAX_TRADES_PER_MATCH).trades, Handled(FlatAfter(p), MaxId(p), r).trades;
      AllKnownSnoc(ours, x);
      SnocEqual(FlatAnswers(p), y, ours, x);
    }
  }

  lemma AnswersPrefix(rs: seq<Request>, r: Request, cap: nat)
    ensures Answers(rs + [r], cap)[..|rs|] == Answers(rs, cap)
    ensures FlatAnswers(rs + [r])[..|rs|] == FlatAnswers(rs)
  {
    hide *;
    AfterSnoc(rs, r, cap);
    FlatSnoc(rs, r);
  }

  lemma TakeTake<T>(s: seq<T>, t: seq<T>, n: nat)
    requires n <= |t| <= |s| && s[..|t|] == t
    ensures s[..n] == t[..n]
  {
  }

  lemma {:induction false} AnswersTake(rs: seq<Request>, n: nat, cap: nat)
    requires n <= |rs|
    ensures Answers(rs, cap)[..n] == Answers(rs[..n], cap) && FlatAnswers(rs)[..n] == FlatAnswers(rs[..n])
  {
    hide *;
    if n < |rs| {
      var k := |rs| - 1;
      var p := rs[..k];
      assert rs == p + [rs[k]];
      AnswersTake(p, n, cap);
      AnswersPrefix(p, rs[k], cap);
      TakeTake(rs, p, n);
      TakeTake(Answers(rs, cap), Answers(p, cap), n);
      TakeTake(FlatAnswers(rs), FlatAnswers(p), n);
    } else {
      assert rs[..n] == rs && Answers(rs, cap)[..n] == Answers(rs, cap) && FlatAnswers(rs)[..n] == FlatAnswers(rs);
    }
  }

  /** Ids count the requests. */
  ghost predicate Counted(rs: seq<Request>) {
    forall i | 0 <= i < |rs| && rs[i].Place? :: rs[i].order.id == i + 1
  }

  lemma CountedPlaced(rs: seq<Request>)
    requires Counted(rs)
    ensures forall id | id in Placed(rs) :: id <= |rs|
  {
    forall id | id in Placed(rs) ensures id <= |rs| {
      var r :| r in rs && r.Place? && r.order.id == id;
      var i :| 0 <= i < |rs| && rs[i] == r;
    }
  }

  lemma CountedStep(rs: seq<Request>, r: Request)
    requires RisingRun(rs + [r]) && Counted(rs) && |rs| < MAX_ORDERS
    ensures Known(Step(After(rs, MAX_TRADES_PER_MATCH), r, MAX_TRADES_PER_MATCH).trades)
  {
    var ts := Step(After(rs, MAX_TRADES_PER_MATCH), r, MAX_TRADES_PER_MATCH).trades;
    assert (forall t | t in ts :: t.maker < MAX_ORDERS) ==> Known(ts);
    hide *;
    RisingFresh(rs + [r]);
    StepSane(rs, r, MAX_TRADES_PER_MATCH);
    CountedPlaced(rs);
  }

  lemma RunTake(rs: seq<Request>, n: nat)
    requires RisingRun(rs) && Counted(rs) && n <= |rs|
    ensures RisingRun(rs[..n]) && Counted(rs[..n])
  {
    assert forall i | 0 <= i < n :: rs[..n][..i] == rs[..i];
  }

  /** An order meets only ids submitted before it, so a run whose ids count its requests stays within the table for
      131072 requests, the last of which may itself be beyond it. */
  lemma {:induction false} CountedKnown(rs: seq<Request>)
    requires RisingRun(rs) && Counted(rs) && |rs| <= MAX_ORDERS
    ensures AllKnown(Answers(rs, MAX_TRADES_PER_MATCH))
  {
    if rs != [] {
      hide *;
      var n := |rs| - 1;
      var p, r := rs[..n], rs[n];
      assert rs == p + [r];
      RunTake(rs, n);
      CountedKnown(p);
      CountedStep(p, r);
      AfterSnoc(p, r, MAX_TRADES_PER_MATCH);
      AllKnownSnoc(Answers(p, MAX_TRADES_PER_MATCH), Step(After(p, MAX_TRADES_PER_MATCH), r, MAX_TRADES_PER_MATCH).trades);
    }
  }
}
