/** What every run of the reference book keeps, from the empty book on. */
module BookRuns {
  import opened Lob
  import opened BookLaws

  // ---------------------------------------------------------------- one side

  ghost predicate Distinct(s: seq<Rest>) {
    forall i, j | 0 <= i < j < |s| :: s[i].id != s[j].id
  }

  ghost predicate SideSane(side: Side, s: seq<Rest>) {
    Sorted(side, s) && Positive(s) && Distinct(s)
  }

  lemma InIds(s: seq<Rest>, r: Rest)
    requires r in s
    ensures r.id in Ids(s)
  {
  }

  lemma TakeBestSane(side: Side, s: seq<Rest>, q: nat)
    requires SideSane(side, s) && s != [] && q <= s[0].quantity
    ensures SideSane(side, TakeBest(s, q)) && Ids(TakeBest(s, q)) <= Ids(s)
    ensures TakeBest(s, q) != [] ==> !Better(side, TakeBest(s, q)[0].price, s[0].price)
  {
    var t := TakeBest(s, q);
    if q == s[0].quantity {
      assert forall i | 0 <= i < |t| :: t[i] == s[i + 1];
    } else {
      assert forall i | 0 <= i < |t| :: t[i].id == s[i].id && t[i].price == s[i].price && t[i].quantity > 0;
    }
    forall r | r in t ensures r.id in Ids(s) {
      if r !in s { assert s[0] in s; }
    }
  }

  /** Matching keeps the side it trades against in order; makers are live orders of that side. */
  lemma {:induction false} MatchSane(o: Order, left: nat, s: seq<Rest>, cap: nat)
    requires SideSane(Opposite(o.side), s)
    ensures var f := Match(o, left, s, cap);
            && SideSane(Opposite(o.side), f.against) && Ids(f.against) <= Ids(s)
            && (f.against != [] ==> s != [] && !Better(Opposite(o.side), f.against[0].price, s[0].price))
            && (forall t | t in f.trades :: t.maker in Ids(s) && t.taker == o.id)
            && (|f.trades| < cap ==> f.left == 0 || f.against == [] || !Crosses(o, f.against[0].price))
    decreases |s|, left
  {
    hide SideSane;
    if left != 0 && s != [] && cap != 0 && Crosses(o, s[0].price) {
      var q := Min(left, s[0].quantity);
      TakeBestSane(Opposite(o.side), s, q);
      InIds(s, s[0]);
      if q == 0 { SanePositive(Opposite(o.side), s); }
      MatchSane(o, left - q, TakeBest(s, q), cap - 1);
    }
  }

  lemma SanePositive(side: Side, s: seq<Rest>)
    requires SideSane(side, s)
    ensures Positive(s)
  {
  }

  lemma DistinctBetween(a: seq<Rest>, r: Rest, b: seq<Rest>)
    requires Distinct(a + b) && r.id !in Ids(a + b)
    ensures Distinct(a + [r] + b)
  {
    var s, t := a + b, a + [r] + b;
    forall j | 0 <= j < |s| ensures s[j].id != r.id { InIds(s, s[j]); }
    hide Ids;
    forall i, j | 0 <= i < j < |t| ensures t[i].id != t[j].id {
      assert t[i] == if i < |a| then s[i] else if i == |a| then r else s[i - 1];
      assert t[j] == if j < |a| then s[j] else if j == |a| then r else s[j - 1];
    }
  }

  lemma PositiveBetween(a: seq<Rest>, r: Rest, b: seq<Rest>)
    requires Positive(a + b) && r.quantity > 0
    ensures Positive(a + [r] + b)
  {
    var s, t := a + b, a + [r] + b;
    forall j | 0 <= j < |t| ensures t[j].quantity > 0 {
      assert t[j] == if j < |a| then s[j] else if j == |a| then r else s[j - 1];
    }
  }

  lemma InsertSane(side: Side, s: seq<Rest>, r: Rest)
    requires SideSane(side, s) && r.id !in Ids(s) && r.quantity > 0
    ensures SideSane(side, Insert(side, s, r)) && Ids(Insert(side, s, r)) == Ids(s) + {r.id}
  {
    hide Insert, Sorted, Positive, Distinct, Ids;
    InsertKeeps(side, s, r);
    var i := InsertAt(side, s, r);
    assert s == s[..i] + s[i..];
    DistinctBetween(s[..i], r, s[i..]);
    PositiveBetween(s[..i], r, s[i..]);
  }

  lemma {:induction false} RemoveSane(side: Side, s: seq<Rest>, id: nat)
    requires SideSane(side, s)
    ensures SideSane(side, Remove(s, id)) && Ids(Remove(s, id)) == Ids(s) - {id}
    ensures Remove(s, id) != [] ==> s != [] && !Better(side, Remove(s, id)[0].price, s[0].price)
  {
    RemoveMembers(s, id);
    var t := Remove(s, id);
    RemoveDistinct(s, id);
    forall r | r in t ensures r in s && r.quantity > 0 {}
    assert forall i | 0 <= i < |t| :: t[i] in t;
    if t != [] { assert t[0] in s; }
  }

  lemma {:induction false} RemoveDistinct(s: seq<Rest>, id: nat)
    requires Distinct(s)
    ensures Distinct(Remove(s, id))
  {
    if s != [] {
      RemoveDistinct(s[1..], id);
      RemoveMembers(s[1..], id);
      var t := Remove(s[1..], id);
      forall j | 0 <= j < |t| ensures t[j].id != s[0].id { assert t[j] in s[1..]; }
    }
  }

  // ---------------------------------------------------------------- the whole book

  ghost function LiveIds(b: Book): set<nat> { Ids(b.bids) + Ids(b.asks) }

  ghost predicate Sane(b: Book) {
    SideSane(Buy, b.bids) && SideSane(Sell, b.asks) && Ids(b.bids) !! Ids(b.asks)
  }

  /** The best bid is below the best ask. */
  predicate Uncrossed(b: Book) {
    b.bids != [] && b.asks != [] ==> b.bids[0].price < b.asks[0].price
  }

  lemma SubmitSane(b: Book, o: Order, cap: nat)
    requires Sane(b) && o.id !in LiveIds(b)
    ensures var out := Submit(b, o, cap);
            && Sane(out.book) && LiveIds(out.book) <= LiveIds(b) + {o.id}
            && (forall t | t in out.trades :: t.maker in LiveIds(b) && t.taker == o.id)
            && (Uncrossed(b) && |out.trades| < cap ==> Uncrossed(out.book))
  {
    hide SideSane;
    if WellFormed(o) {
      MatchSane(o, o.quantity, b.Against(o.side), cap);
      var f := Match(o, o.quantity, b.Against(o.side), cap);
      var r := Rest(o.id, o.price, f.left);
      if !o.isMarket && f.left > 0 {
        InsertSane(o.side, b.Own(o.side), r);
      }
    }
  }

  lemma CancelSane(b: Book, id: nat)
    requires Sane(b)
    ensures Sane(Cancel(b, id)) && LiveIds(Cancel(b, id)) == LiveIds(b) - {id}
    ensures Uncrossed(b) ==> Uncrossed(Cancel(b, id))
  {
    hide SideSane;
    RemoveSane(Buy, b.bids, id);
    RemoveSane(Sell, b.asks, id);
  }

  // ---------------------------------------------------------------- runs

  ghost predicate Small(rs: seq<Request>, cap: nat) {
    forall r | r in rs && r.Place? :: r.order.quantity < cap
  }

  lemma FreshPrefix(rs: seq<Request>)
    requires rs != [] && FreshIds(rs)
    ensures var n := |rs| - 1;
            && FreshIds(rs[..n]) && Placed(rs[..n]) <= Placed(rs)
            && (rs[n].Place? ==> rs[n].order.id !in Placed(rs[..n]) && rs[n].order.id in Placed(rs))
            && (forall cap :: Small(rs, cap) ==> Small(rs[..n], cap))
  {
    var n := |rs| - 1;
    assert rs == rs[..n] + [rs[n]];
    forall id | id in Placed(rs[..n]) ensures id in Placed(rs) {
      var r :| r in rs[..n] && r.Place? && r.order.id == id;
      assert r in rs;
    }
    if rs[n].Place? {
      assert rs[n] in rs;
      forall r | r in rs[..n] && r.Place? ensures r.order.id != rs[n].order.id {
        var k :| 0 <= k < n && rs[k] == r;
      }
    }
  }

  /** In a run that submits no id twice, both sides stay sorted with distinct live ids, only submitted ids
      are live, and while quantities stay below the cap the live book is never crossed. */
  lemma {:induction false} RunSane(rs: seq<Request>, cap: nat)
    requires FreshIds(rs)
    ensures Sane(After(rs, cap)) && LiveIds(After(rs, cap)) <= Placed(rs)
    ensures Small(rs, cap) ==> Uncrossed(After(rs, cap))
  {
    if rs != [] {
      hide Sane, Uncrossed, FreshIds, Placed;
      var n := |rs| - 1;
      var b, r := After(rs[..n], cap), rs[n];
      assert r in rs;
      FreshPrefix(rs);
      RunSane(rs[..n], cap);
      match r {
        case Place(o) =>
          SubmitSane(b, o, cap);
          SubmitCount(b, o, cap);
        case Withdraw(id) => CancelSane(b, id);
      }
    }
  }

  lemma SubmitCount(b: Book, o: Order, cap: nat)
    requires Sane(b)
    ensures |Submit(b, o, cap).trades| <= Min(o.quantity, cap)
  {
    if WellFormed(o) {
      MatchCount(o, o.quantity, b.Against(o.side), cap);
    }
  }

  // ---------------------------------------------------------------- gone for good

  lemma AfterSnoc(rs: seq<Request>, r: Request, cap: nat)
    ensures After(rs + [r], cap) == Step(After(rs, cap), r, cap).book
    ensures Answers(rs + [r], cap) == Answers(rs, cap) + [Step(After(rs, cap), r, cap).trades]
    ensures Placed(rs + [r]) == Placed(rs) + (if r.Place? then {r.order.id} else {})
  {
    assert (rs + [r])[..|rs|] == rs;
    if r.Place? { assert r in rs + [r]; }
    forall id | id in Placed(rs) ensures id in Placed(rs + [r]) {
      var x :| x in rs && x.Place? && x.order.id == id;
      assert x in rs + [r];
    }
  }

  /** The id was submitted in the first `n` requests and is not live after them. */
  ghost predicate Gone(rs: seq<Request>, cap: nat, n: nat, id: nat)
    requires n <= |rs|
  {
    id in Placed(rs[..n]) && id !in LiveIds(After(rs[..n], cap))
  }

  lemma {:induction false} StaysGone(rs: seq<Request>, cap: nat, k: nat, n: nat, id: nat)
    requires FreshIds(rs) && k <= n <= |rs| && Gone(rs, cap, k, id)
    ensures Gone(rs, cap, n, id)
    decreases n
  {
    hide *;
    if k < n {
      StaysGone(rs, cap, k, n - 1, id);
      GoneNext(rs, n - 1, cap, id);
    }
  }

  lemma GoneNext(rs: seq<Request>, n: nat, cap: nat, id: nat)
    requires FreshIds(rs) && n < |rs| && Gone(rs, cap, n, id)
    ensures Gone(rs, cap, n + 1, id)
  {
    assert id in Placed(rs[..n]) && id !in LiveIds(After(rs[..n], cap));
    assert id in Placed(rs[..n + 1]) && id !in LiveIds(After(rs[..n + 1], cap)) ==> Gone(rs, cap, n + 1, id);
    hide *;
    assert rs[..n + 1] == rs[..n] + [rs[n]];
    FreshTake(rs, n + 1);
    StepGone(rs[..n], rs[n], cap, id);
  }

  lemma StepGone(rs: seq<Request>, r: Request, cap: nat, id: nat)
    requires FreshIds(rs + [r]) && id in Placed(rs) && id !in LiveIds(After(rs, cap))
    ensures id in Placed(rs + [r]) && id !in LiveIds(After(rs + [r], cap))
  {
    hide *;
    StepSane(rs, r, cap);
    AfterSnoc(rs, r, cap);
  }

  /** An id that was submitted and is no longer live - filled, cancelled, or dropped - never becomes live
      again and never makes another trade. */
  lemma GoneForGood(rs: seq<Request>, cap: nat, k: nat, n: nat, id: nat)
    requires FreshIds(rs) && k <= n < |rs| && Gone(rs, cap, k, id)
    ensures id !in LiveIds(After(rs[..n + 1], cap))
    ensures forall t | t in Step(After(rs[..n], cap), rs[n], cap).trades :: t.maker != id
  {
    StaysGone(rs, cap, k, n, id);
    assert id in Placed(rs[..n]) && id !in LiveIds(After(rs[..n], cap));
    GoneNext(rs, n, cap, id);
    assert id !in LiveIds(After(rs[..n + 1], cap));
    hide *;
    FreshTake(rs, n + 1);
    assert rs[..n + 1] == rs[..n] + [rs[n]];
    StepSane(rs[..n], rs[n], cap);
  }

  lemma FreshTake(rs: seq<Request>, n: nat)
    requires FreshIds(rs) && n <= |rs|
    ensures FreshIds(rs[..n])
  {
  }

  lemma StepSane(rs: seq<Request>, r: Request, cap: nat)
    requires FreshIds(rs + [r])
    ensures var b := After(rs, cap);
            var out := Step(b, r, cap);
            && Sane(b) && LiveIds(b) <= Placed(rs)
            && LiveIds(out.book) <= LiveIds(b) + (if r.Place? then {r.order.id} else {})
            && (r.Place? ==> r.order.id !in Placed(rs))
            && (forall t | t in out.trades :: t.maker in LiveIds(b))
  {
    assert (rs + [r])[..|rs|] == rs;
    FreshPrefix(rs + [r]);
    RunSane(rs, cap);
    hide Sane;
    match r {
      case Place(o) => SubmitSane(After(rs, cap), o, cap);
      case Withdraw(id) => CancelSane(After(rs, cap), id);
    }
  }
}
