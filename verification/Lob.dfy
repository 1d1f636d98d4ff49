/** The reference limit order book: what both matching engines are meant to do.

    Each side is the sequence of its live orders, best first: by price, and by
    arrival among equal prices.  Cancels take effect at once.  The number of
    trades one order may produce is a parameter. */
module Lob {

  datatype Side = Buy | Sell

  datatype Order = Order(id: nat, price: nat, quantity: nat, side: Side, isMarket: bool)

  datatype Trade = Trade(maker: nat, taker: nat, price: nat, quantity: nat)

  /** A live order waiting in the book. */
  datatype Rest = Rest(id: nat, price: nat, quantity: nat)

  datatype Book = Book(bids: seq<Rest>, asks: seq<Rest>) {
    /** The side on which orders of side `s` wait. */
    function Own(s: Side): seq<Rest> { if s.Buy? then bids else asks }

    /** The side against which orders of side `s` trade. */
    function Against(s: Side): seq<Rest> { if s.Buy? then asks else bids }
  }

  /** Price `p` has strictly higher priority than `q` among orders waiting on `side`. */
  predicate Better(side: Side, p: nat, q: nat) {
    if side.Buy? then p > q else p < q
  }

  function Opposite(side: Side): Side { if side.Buy? then Sell else Buy }

  /** Incoming order `o` accepts a trade at price `p`. */
  predicate Crosses(o: Order, p: nat) {
    o.isMarket || (if o.side.Buy? then p <= o.price else o.price <= p)
  }

  function Min(a: nat, b: nat): nat { if a <= b then a else b }

  // ---------------------------------------------------------------- matching

  /** What matching leaves behind: the trades, the side traded against, the unfilled quantity. */
  datatype Fill = Fill(trades: seq<Trade>, against: seq<Rest>, left: nat)

  /** The side traded against after its best order has given up `q` units. */
  function TakeBest(against: seq<Rest>, q: nat): seq<Rest>
    requires against != [] && q <= against[0].quantity
  {
    if q == against[0].quantity then against[1..]
    else [against[0].(quantity := against[0].quantity - q)] + against[1..]
  }

  /** Trade the best opposite order, again and again, until the quantity is gone, the side is empty,
      the best price no longer crosses, or `cap` trades have been made. */
  function Match(o: Order, left: nat, against: seq<Rest>, cap: nat): Fill
    decreases |against|, left
  {
    if left == 0 || against == [] || cap == 0 || !Crosses(o, against[0].price) then Fill([], against, left)
    else
      var q := Min(left, against[0].quantity);
      Resume([Trade(against[0].id, o.id, against[0].price, q)],
             Match(o, left - q, TakeBest(against, q), cap - 1))
  }

  /** A matching run that made the trades `made` before continuing as `f`. */
  function Resume(made: seq<Trade>, f: Fill): Fill {
    Fill(made + f.trades, f.against, f.left)
  }

  /** Wait behind every order whose price is at least as good. */
  function Insert(side: Side, s: seq<Rest>, r: Rest): seq<Rest> {
    if s == [] || Better(side, r.price, s[0].price) then [r] + s
    else [s[0]] + Insert(side, s[1..], r)
  }

  /** `s` without the order `id`. */
  function Remove(s: seq<Rest>, id: nat): seq<Rest> {
    if s == [] then []
    else if s[0].id == id then Remove(s[1..], id)
    else [s[0]] + Remove(s[1..], id)
  }

  // ---------------------------------------------------------------- requests and runs

  predicate WellFormed(o: Order) {
    o.id != 0 && (o.isMarket || o.price != 0) && o.quantity != 0
  }

  datatype Outcome = Outcome(book: Book, trades: seq<Trade>)

  /** Put what is left of a limit order into its own side. */
  function Settle(b: Book, o: Order, f: Fill): Book {
    var own := if !o.isMarket && f.left > 0
               then Insert(o.side, b.Own(o.side), Rest(o.id, o.price, f.left))
               else b.Own(o.side);
    if o.side.Buy? then Book(own, f.against) else Book(f.against, own)
  }

  function Submit(b: Book, o: Order, cap: nat): Outcome {
    if !WellFormed(o) then Outcome(b, [])
    else
      var f := Match(o, o.quantity, b.Against(o.side), cap);
      Outcome(Settle(b, o, f), f.trades)
  }

  function Cancel(b: Book, id: nat): Book {
    Book(Remove(b.bids, id), Remove(b.asks, id))
  }

  datatype Request = Place(order: Order) | Withdraw(id: nat)

  const EMPTY := Book([], [])

  function Step(b: Book, r: Request, cap: nat): Outcome {
    match r
    case Place(o) => Submit(b, o, cap)
    case Withdraw(id) => Outcome(Cancel(b, id), [])
  }

  /** The book after the requests `rs`, from an empty book. */
  function After(rs: seq<Request>, cap: nat): Book {
    if rs == [] then EMPTY
    else Step(After(rs[..|rs| - 1], cap), rs[|rs| - 1], cap).book
  }

  /** The trades that answer each request of `rs`. */
  function Answers(rs: seq<Request>, cap: nat): (ts: seq<seq<Trade>>)
    ensures |ts| == |rs|
  {
    if rs == [] then []
    else Answers(rs[..|rs| - 1], cap) + [Step(After(rs[..|rs| - 1], cap), rs[|rs| - 1], cap).trades]
  }

  /** The ids that `rs` submits. */
  function Placed(rs: seq<Request>): set<nat> {
    set r | r in rs && r.Place? :: r.order.id
  }

  /** No id is submitted twice. */
  predicate FreshIds(rs: seq<Request>) {
    forall i, j | 0 <= i < j < |rs| && rs[i].Place? && rs[j].Place? :: rs[i].order.id != rs[j].order.id
  }

  // ---------------------------------------------------------------- basic facts

  function Ids(s: seq<Rest>): set<nat> { set r | r in s :: r.id }

  /** Best price first. */
  predicate Sorted(side: Side, s: seq<Rest>) {
    forall i, j | 0 <= i < j < |s| :: !Better(side, s[j].price, s[i].price)
  }

  predicate Positive(s: seq<Rest>) {
    forall i | 0 <= i < |s| :: s[i].quantity > 0
  }

  lemma ResumeNothing(f: Fill)
    ensures Resume([], f) == f
  {
    assert [] + f.trades == f.trades;
  }

  lemma ResumeTwice(a: seq<Trade>, b: seq<Trade>, f: Fill)
    ensures Resume(a, Resume(b, f)) == Resume(a + b, f)
  {
    assert a + (b + f.trades) == (a + b) + f.trades;
  }

  /** One trade of a run under way. */
  lemma MatchStep(o: Order, left: nat, against: seq<Rest>, cap: nat, made: seq<Trade>)
    requires left > 0 && against != [] && cap > 0 && Crosses(o, against[0].price)
    ensures var q := Min(left, against[0].quantity);
            Resume(made, Match(o, left, against, cap))
            == Resume(made + [Trade(against[0].id, o.id, against[0].price, q)],
                      Match(o, left - q, TakeBest(against, q), cap - 1))
  {
    var q := Min(left, against[0].quantity);
    ResumeTwice(made, [Trade(against[0].id, o.id, against[0].price, q)],
                Match(o, left - q, TakeBest(against, q), cap - 1));
  }

  /** A run that stops here. */
  lemma MatchDone(o: Order, left: nat, against: seq<Rest>, cap: nat, made: seq<Trade>)
    requires left == 0 || against == [] || cap == 0 || !Crosses(o, against[0].price)
    ensures Resume(made, Match(o, left, against, cap)) == Fill(made, against, left)
  {
    assert made + [] == made;
  }

  /** A well-formed limit order never leaves the book as it was without a trade. */
  lemma AcceptShows(b: Book, o: Order, cap: nat)
    requires WellFormed(o) && !o.isMarket
    ensures Submit(b, o, cap) != Outcome(b, [])
  {
    var f := Match(o, o.quantity, b.Against(o.side), cap);
    if f.trades == [] {
      InsertMembers(o.side, b.Own(o.side), Rest(o.id, o.price, o.quantity));
    }
  }

  /** A well-formed market order changes nothing exactly when nothing waits on the other side. */
  lemma MarketShows(b: Book, o: Order, cap: nat)
    requires WellFormed(o) && o.isMarket && cap > 0
    ensures Submit(b, o, cap) == Outcome(b, []) <==> b.Against(o.side) == []
  {
  }

  /** Each trade takes at least one unit and finishes either the order or a maker. */
  lemma {:induction false} MatchCount(o: Order, left: nat, against: seq<Rest>, cap: nat)
    requires Positive(against)
    ensures var n := |Match(o, left, against, cap).trades|; n <= left && n <= cap && n <= |against|
    decreases |against|, left
  {
    if left != 0 && against != [] && cap != 0 && Crosses(o, against[0].price) {
      var q := Min(left, against[0].quantity);
      TakeBestPositive(against, q);
      MatchCount(o, left - q, TakeBest(against, q), cap - 1);
      if q == left { MatchDone(o, 0, TakeBest(against, q), cap - 1, []); }
    }
  }

  lemma TakeBestPositive(against: seq<Rest>, q: nat)
    requires Positive(against) && against != [] && q <= against[0].quantity
    ensures Positive(TakeBest(against, q))
  {
  }

  /** Where an insertion lands: behind `i` orders at least as good, before strictly worse ones. */
  lemma {:induction false} InsertAt(side: Side, s: seq<Rest>, r: Rest) returns (i: nat)
    ensures i <= |s| && Insert(side, s, r) == s[..i] + [r] + s[i..]
    ensures forall j | 0 <= j < i :: !Better(side, r.price, s[j].price)
    ensures i < |s| ==> Better(side, r.price, s[i].price)
  {
    if s == [] || Better(side, r.price, s[0].price) {
      i := 0;
    } else {
      var k := InsertAt(side, s[1..], r);
      i := k + 1;
      assert s[..i] == [s[0]] + s[1..][..k];
      assert s[i..] == s[1..][k..];
    }
  }

  lemma {:induction false} InsertMembers(side: Side, s: seq<Rest>, r: Rest)
    ensures forall x :: x in Insert(side, s, r) <==> x == r || x in s
    ensures |Insert(side, s, r)| == |s| + 1
  {
    if s != [] && !Better(side, r.price, s[0].price) {
      InsertMembers(side, s[1..], r);
      assert s == [s[0]] + s[1..];
    }
  }

  lemma InsertKeeps(side: Side, s: seq<Rest>, r: Rest)
    requires Sorted(side, s)
    ensures Sorted(side, Insert(side, s, r))
    ensures Ids(Insert(side, s, r)) == Ids(s) + {r.id}
  {
    InsertMembers(side, s, r);
    var i := InsertAt(side, s, r);
    var t := Insert(side, s, r);
    forall j, k | 0 <= j < k < |t|
      ensures !Better(side, t[k].price, t[j].price)
    {
      assert j < i ==> t[j] == s[j];
      assert k < i ==> t[k] == s[k];
      assert j > i ==> t[j] == s[j - 1];
      assert k > i ==> t[k] == s[k - 1];
    }
    assert r in t;
  }

  /** Orders at least as good as the newcomer stay in front of it. */
  lemma {:induction false} InsertSkip(side: Side, a: seq<Rest>, b: seq<Rest>, r: Rest)
    requires forall x | x in a :: !Better(side, r.price, x.price)
    ensures Insert(side, a + b, r) == a + Insert(side, b, r)
  {
    if a == [] {
      assert a + b == b;
    } else {
      assert (a + b)[1..] == a[1..] + b;
      InsertSkip(side, a[1..], b, r);
    }
  }

  lemma {:induction false} RemoveMembers(s: seq<Rest>, id: nat)
    ensures forall x :: x in Remove(s, id) <==> x in s && x.id != id
    ensures forall side :: Sorted(side, s) ==> Sorted(side, Remove(s, id))
  {
    if s != [] {
      RemoveMembers(s[1..], id);
      assert s == [s[0]] + s[1..];
      var t := Remove(s[1..], id);
      forall side | Sorted(side, s)
        ensures Sorted(side, Remove(s, id))
      {
        assert Sorted(side, s[1..]);
        if s[0].id != id {
          forall j | 0 <= j < |t|
            ensures !Better(side, t[j].price, s[0].price)
          {
            assert t[j] in s[1..];
          }
        }
      }
    }
  }

  lemma {:induction false} RemoveAbsent(s: seq<Rest>, id: nat)
    requires id !in Ids(s)
    ensures Remove(s, id) == s
  {
    if s != [] {
      assert s[0] in s;
      forall x | x in s[1..] ensures x in s {}
      RemoveAbsent(s[1..], id);
    }
  }

  lemma {:induction false} RemoveConcat(a: seq<Rest>, b: seq<Rest>, id: nat)
    ensures Remove(a + b, id) == Remove(a, id) + Remove(b, id)
  {
    if a == [] {
      assert a + b == b;
    } else {
      assert (a + b)[1..] == a[1..] + b;
      RemoveConcat(a[1..], b, id);
    }
  }

  /** Withdrawing one order and placing another commute. */
  lemma {:induction false} InsertRemove(side: Side, s: seq<Rest>, r: Rest, id: nat)
    requires Sorted(side, s)
    ensures Remove(Insert(side, s, r), id)
            == if r.id == id then Remove(s, id) else Insert(side, Remove(s, id), r)
  {
    if s == [] || Better(side, r.price, s[0].price) {
      assert ([r] + s)[1..] == s;
      RemoveMembers(s, id);
      var t := Remove(s, id);
      if t != [] {
        assert t[0] in s;
        assert Better(side, r.price, t[0].price);
      }
    } else {
      var t := Insert(side, s[1..], r);
      assert ([s[0]] + t)[1..] == t;
      InsertRemove(side, s[1..], r, id);
      var u := Remove(s[1..], id);
      assert ([s[0]] + u)[1..] == u;
    }
  }
}
