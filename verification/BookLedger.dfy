/** Where every unit of every order goes, and who is first in the queue, over whole runs. */
module BookLedger {
  import opened Lob
  import opened BookLaws
  import opened BookRuns

  // ---------------------------------------------------------------- conservation

  function RestUnits(s: seq<Rest>, id: nat): nat {
    if s == [] then 0 else (if s[0].id == id then s[0].quantity else 0) + RestUnits(s[1..], id)
  }

  function MakerUnits(ts: seq<Trade>, id: nat): nat {
    if ts == [] then 0 else (if ts[0].maker == id then ts[0].quantity else 0) + MakerUnits(ts[1..], id)
  }

  function TakerUnits(ts: seq<Trade>, id: nat): nat {
    if ts == [] then 0 else (if ts[0].taker == id then ts[0].quantity else 0) + TakerUnits(ts[1..], id)
  }

  /** The live quantity of an id. */
  function LiveUnits(b: Book, id: nat): nat { RestUnits(b.bids, id) + RestUnits(b.asks, id) }

  /** What became of the units submitted under one id. */
  datatype Account = Account(submitted: nat, taken: nat, made: nat, cancelled: nat, dropped: nat)

  /** The effect of one request, answered from book `b`, on the account of `id`. */
  function Charge(a: Account, b: Book, r: Request, cap: nat, id: nat): Account {
    match r
    case Withdraw(x) => if x == id then a.(cancelled := a.cancelled + LiveUnits(b, id)) else a
    case Place(o) =>
      if !WellFormed(o) then a
      else
        var ts := Step(b, r, cap).trades;
        var left := Match(o, o.quantity, b.Against(o.side), cap).left;
        Account(a.submitted + (if o.id == id then o.quantity else 0),
                a.taken + TakerUnits(ts, id),
                a.made + MakerUnits(ts, id),
                a.cancelled,
                a.dropped + (if o.id == id && o.isMarket then left else 0))
  }

  function Ledger(rs: seq<Request>, cap: nat, id: nat): Account {
    if rs == [] then Account(0, 0, 0, 0, 0)
    else
      var n := |rs| - 1;
      Charge(Ledger(rs[..n], cap, id), After(rs[..n], cap), rs[n], cap, id)
  }

  /** Trades move units from makers and the incoming order, and lose none. */
  lemma {:induction false} MatchConserves(o: Order, left: nat, against: seq<Rest>, cap: nat, id: nat)
    ensures var f := Match(o, left, against, cap);
            && MakerUnits(f.trades, id) + RestUnits(f.against, id) == RestUnits(against, id)
            && TakerUnits(f.trades, o.id) + f.left == left
            && (id != o.id ==> TakerUnits(f.trades, id) == 0)
    decreases |against|, left
  {
    if left != 0 && against != [] && cap != 0 && Crosses(o, against[0].price) {
      var q := Min(left, against[0].quantity);
      TakeBestUnits(against, q, id);
      var t := Trade(against[0].id, o.id, against[0].price, q);
      var ts := Match(o, left - q, TakeBest(against, q), cap - 1).trades;
      assert ([t] + ts)[1..] == ts;
      MatchConserves(o, left - q, TakeBest(against, q), cap - 1, id);
    }
  }

  lemma TakeBestUnits(s: seq<Rest>, q: nat, id: nat)
    requires s != [] && q <= s[0].quantity
    ensures RestUnits(s, id) == RestUnits(TakeBest(s, q), id) + (if s[0].id == id then q else 0)
  {
    if q < s[0].quantity { assert TakeBest(s, q)[1..] == s[1..]; }
  }

  lemma {:induction false} InsertUnits(side: Side, s: seq<Rest>, r: Rest, id: nat)
    ensures RestUnits(Insert(side, s, r), id) == RestUnits(s, id) + (if r.id == id then r.quantity else 0)
  {
    if s == [] || Better(side, r.price, s[0].price) {
      assert ([r] + s)[1..] == s;
    } else {
      InsertUnits(side, s[1..], r, id);
      assert Insert(side, s, r)[1..] == Insert(side, s[1..], r);
    }
  }

  lemma {:induction false} RemoveUnits(s: seq<Rest>, x: nat, id: nat)
    ensures RestUnits(Remove(s, x), id) == if id == x then 0 else RestUnits(s, id)
  {
    if s != [] {
      RemoveUnits(s[1..], x, id);
      if s[0].id != x { assert Remove(s, x)[1..] == Remove(s[1..], x); }
    }
  }

  ghost predicate Balanced(a: Account, b: Book, id: nat) {
    a.submitted == a.taken + a.made + a.cancelled + a.dropped + LiveUnits(b, id)
  }

  lemma StepBalanced(a: Account, b: Book, r: Request, cap: nat, id: nat)
    requires Balanced(a, b, id)
    ensures Balanced(Charge(a, b, r, cap, id), Step(b, r, cap).book, id)
  {
    hide Match, Insert, Remove, RestUnits, TakerUnits, MakerUnits;
    match r {
      case Withdraw(x) =>
        RemoveUnits(b.bids, x, id);
        RemoveUnits(b.asks, x, id);
      case Place(o) =>
        var f := Match(o, o.quantity, b.Against(o.side), cap);
        MatchConserves(o, o.quantity, b.Against(o.side), cap, id);
        InsertUnits(o.side, b.Own(o.side), Rest(o.id, o.price, f.left), id);
    }
  }

  /** In every run, and for every id, the quantity submitted is the fills as taker, plus the fills as maker,
      plus what was live when cancelled, plus what market orders dropped, plus what is still live. */
  lemma {:induction false} Conservation(rs: seq<Request>, cap: nat, id: nat)
    ensures var a := Ledger(rs, cap, id);
            a.submitted == a.taken + a.made + a.cancelled + a.dropped + LiveUnits(After(rs, cap), id)
  {
    if rs != [] {
      var n := |rs| - 1;
      Conservation(rs[..n], cap, id);
      StepBalanced(Ledger(rs[..n], cap, id), After(rs[..n], cap), rs[n], cap, id);
    }
  }

  // ---------------------------------------------------------------- first come, first served

  predicate PlacesId(r: Request, id: nat) { r.Place? && r.order.id == id }

  /** `x` was submitted earlier in the run than `y`. */
  ghost predicate ArrivedBefore(rs: seq<Request>, x: nat, y: nat) {
    exists p, q :: 0 <= p < q < |rs| && PlacesId(rs[p], x) && PlacesId(rs[q], y)
  }

  /** Of two orders of a side, the one in front has the better price, or the same price and came first. */
  ghost predicate TimeOrdered(side: Side, s: seq<Rest>, rs: seq<Request>) {
    forall i, j | 0 <= i < j < |s| ::
      Better(side, s[i].price, s[j].price) || (s[i].price == s[j].price && ArrivedBefore(rs, s[i].id, s[j].id))
  }

  lemma LaterRun(rs: seq<Request>, r: Request, side: Side, s: seq<Rest>)
    requires TimeOrdered(side, s, rs)
    ensures TimeOrdered(side, s, rs + [r])
  {
    var t := rs + [r];
    forall x, y | ArrivedBefore(rs, x, y) ensures ArrivedBefore(t, x, y) {
      var p, q :| 0 <= p < q < |rs| && PlacesId(rs[p], x) && PlacesId(rs[q], y);
      assert PlacesId(t[p], x) && PlacesId(t[q], y);
    }
  }

  lemma NewcomerLast(rs: seq<Request>, o: Order, x: nat)
    requires x in Placed(rs)
    ensures ArrivedBefore(rs + [Place(o)], x, o.id)
  {
    var t := rs + [Place(o)];
    var r :| r in rs && r.Place? && r.order.id == x;
    var p :| 0 <= p < |rs| && rs[p] == r;
    assert PlacesId(t[p], x) && PlacesId(t[|rs|], o.id);
  }

  lemma TakeBestTimeOrdered(side: Side, s: seq<Rest>, q: nat, rs: seq<Request>)
    requires TimeOrdered(side, s, rs) && s != [] && q <= s[0].quantity
    ensures TimeOrdered(side, TakeBest(s, q), rs)
  {
    hide ArrivedBefore;
    var t := TakeBest(s, q);
    assert forall i | 0 <= i < |t| :: var k := i + |s| - |t|; t[i].id == s[k].id && t[i].price == s[k].price;
  }

  lemma {:induction false} MatchTimeOrdered(o: Order, left: nat, s: seq<Rest>, cap: nat, side: Side, rs: seq<Request>)
    requires TimeOrdered(side, s, rs)
    ensures TimeOrdered(side, Match(o, left, s, cap).against, rs)
    decreases |s|, left
  {
    hide TimeOrdered;
    if left != 0 && s != [] && cap != 0 && Crosses(o, s[0].price) {
      var q := Min(left, s[0].quantity);
      TakeBestTimeOrdered(side, s, q, rs);
      MatchTimeOrdered(o, left - q, TakeBest(s, q), cap - 1, side, rs);
    }
  }

  lemma InsertTimeOrdered(side: Side, s: seq<Rest>, r: Rest, rs: seq<Request>)
    requires TimeOrdered(side, s, rs)
    requires forall x | x in s :: ArrivedBefore(rs, x.id, r.id)
    ensures TimeOrdered(side, Insert(side, s, r), rs)
  {
    hide ArrivedBefore;
    var i := InsertAt(side, s, r);
    var t := Insert(side, s, r);
    hide Insert;
    forall j, k | 0 <= j < k < |t|
      ensures Better(side, t[j].price, t[k].price) || (t[j].price == t[k].price && ArrivedBefore(rs, t[j].id, t[k].id))
    {
      assert t[j] == if j < i then s[j] else if j == i then r else s[j - 1];
      assert t[k] == if k < i then s[k] else if k == i then r else s[k - 1];
      if k == i { assert s[j] in s; }
      if j == i && k > i + 1 { assert Better(side, s[i].price, s[k - 1].price) || s[i].price == s[k - 1].price; }
    }
  }

  lemma {:induction false} RemoveTimeOrdered(side: Side, s: seq<Rest>, id: nat, rs: seq<Request>)
    requires TimeOrdered(side, s, rs)
    ensures TimeOrdered(side, Remove(s, id), rs)
  {
    hide ArrivedBefore;
    if s != [] {
      assert forall i | 0 <= i < |s[1..]| :: s[1..][i] == s[i + 1];
      RemoveTimeOrdered(side, s[1..], id, rs);
      RemoveMembers(s[1..], id);
      var t := Remove(s[1..], id);
      forall j | 0 <= j < |t|
        ensures Better(side, s[0].price, t[j].price) || (s[0].price == t[j].price && ArrivedBefore(rs, s[0].id, t[j].id))
      {
        assert t[j] in s[1..];
      }
    }
  }

  lemma SubmitTimeOrdered(rs: seq<Request>, b: Book, o: Order, cap: nat)
    requires TimeOrdered(Buy, b.bids, rs) && TimeOrdered(Sell, b.asks, rs) && LiveIds(b) <= Placed(rs)
    ensures var c := Submit(b, o, cap).book;
            TimeOrdered(Buy, c.bids, rs + [Place(o)]) && TimeOrdered(Sell, c.asks, rs + [Place(o)])
  {
    hide TimeOrdered, Placed, ArrivedBefore;
    var rs' := rs + [Place(o)];
    LaterRun(rs, Place(o), Buy, b.bids);
    LaterRun(rs, Place(o), Sell, b.asks);
    MatchTimeOrdered(o, o.quantity, b.Against(o.side), cap, Opposite(o.side), rs');
    var f := Match(o, o.quantity, b.Against(o.side), cap);
    forall x | x in b.Own(o.side) ensures ArrivedBefore(rs', x.id, o.id) {
      InIds(b.Own(o.side), x);
      NewcomerLast(rs, o, x.id);
    }
    InsertTimeOrdered(o.side, b.Own(o.side), Rest(o.id, o.price, f.left), rs');
  }

  /** In a run that submits no id twice, both sides are always in price-time order of arrival. */
  lemma {:induction false} RunTimeOrdered(rs: seq<Request>, cap: nat)
    requires FreshIds(rs)
    ensures TimeOrdered(Buy, After(rs, cap).bids, rs) && TimeOrdered(Sell, After(rs, cap).asks, rs)
  {
    if rs != [] {
      hide TimeOrdered, Placed, FreshIds, Submit, Remove;
      var n := |rs| - 1;
      var b := After(rs[..n], cap);
      FreshPrefix(rs);
      RunSane(rs[..n], cap);
      RunTimeOrdered(rs[..n], cap);
      assert rs == rs[..n] + [rs[n]];
      match rs[n] {
        case Place(o) => SubmitTimeOrdered(rs[..n], b, o, cap);
        case Withdraw(id) =>
          LaterRun(rs[..n], rs[n], Buy, b.bids);
          LaterRun(rs[..n], rs[n], Sell, b.asks);
          RemoveTimeOrdered(Buy, b.bids, id, rs);
          RemoveTimeOrdered(Sell, b.asks, id, rs);
      }
    }
  }

  /** Price-time priority over whole runs: the side an order meets is in price-time order of arrival, its trades
      are the greedy fill of that side, and no other list of trades is one. */
  lemma EveryOrderOptimal(rs: seq<Request>, o: Order, cap: nat, f: Fill)
    requires FreshIds(rs + [Place(o)]) && WellFormed(o)
    ensures var against := After(rs, cap).Against(o.side);
            && TimeOrdered(Opposite(o.side), against, rs) && Positive(against)
            && (IsGreedyFill(o, o.quantity, against, cap, f) ==>
                  Answers(rs + [Place(o)], cap)[|rs|] == f.trades
                  && After(rs + [Place(o)], cap).Against(o.side) == f.against)
            && IsGreedyFill(o, o.quantity, against, cap, Match(o, o.quantity, against, cap))
  {
    hide TimeOrdered, IsGreedyFill, FreshIds, Placed, Match;
    FreshPrefix(rs + [Place(o)]);
    assert (rs + [Place(o)])[..|rs|] == rs;
    RunSane(rs, cap);
    RunTimeOrdered(rs, cap);
    var against := After(rs, cap).Against(o.side);
    SanePositive(Opposite(o.side), against);
    AfterSnoc(rs, Place(o), cap);
    MatchIsGreedy(o, o.quantity, against, cap);
    PriceTimeOptimal(o, o.quantity, against, cap, f);
  }
}
