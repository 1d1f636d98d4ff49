/** The shadow engine's `OrderBook` object, proved to behave as the reference book. */
module ShadowBook {
  import opened BookLaws
  import BookPrices
  import opened Lob
  import opened Options
  import opened Shadow

  // ---------------------------------------------------------------- resting an order

  lemma JoinAt(a: seq<Order>, b: seq<Order>, o: Order, i: nat)
    requires i <= |a| + |b|
    ensures (a + [o] + b)[i] == if i < |a| then (a + b)[i] else if i == |a| then o else (a + b)[i - 1]
  {
  }

  lemma JoinEntries(side: Side, a: seq<Order>, b: seq<Order>, o: Order, index: map<nat, Entry>)
    requires SideOk(side, a + b, index) && o.id !in index && o.quantity > 0
    ensures var t, index' := a + [o] + b, index[o.id := Entry(o.price, side, false)];
            forall i | 0 <= i < |t| ::
              && t[i].quantity > 0 && t[i].id in index' && index'[t[i].id].side == side && index'[t[i].id].price == t[i].price
              && (i != |a| ==> t[i].id != o.id)
  {
    var q, t, index' := a + b, a + [o] + b, index[o.id := Entry(o.price, side, false)];
    hide SideOk;
    forall i | 0 <= i < |t|
      ensures t[i].quantity > 0 && t[i].id in index' && index'[t[i].id].side == side && index'[t[i].id].price == t[i].price
      ensures i != |a| ==> t[i].id != o.id
    {
      JoinAt(a, b, o, i);
      if i != |a| {
        SideOkMember(side, q, index, q[if i < |a| then i else i - 1]);
      }
    }
  }

  lemma JoinIds(side: Side, a: seq<Order>, b: seq<Order>, o: Order, index: map<nat, Entry>)
    requires SideOk(side, a + b, index) && o.id !in index && o.quantity > 0
    ensures var t := a + [o] + b; forall i, j | 0 <= i < j < |t| :: t[i].id != t[j].id
  {
    var q, t, k := a + b, a + [o] + b, |a|;
    JoinEntries(side, a, b, o, index);
    assert forall i, j | 0 <= i < j < |q| :: q[i].id != q[j].id;
    hide SideOk;
    forall i, j | 0 <= i < j < |t| ensures t[i].id != t[j].id {
      JoinAt(a, b, o, i);
      JoinAt(a, b, o, j);
      if i != k && j != k {
        var i', j' := if i < k then i else i - 1, if j < k then j else j - 1;
        assert q[i'].id != q[j'].id;
      }
    }
  }

  /** The newcomer anywhere in the queue keeps queue and index in bijection. */
  lemma JoinSideOk(side: Side, a: seq<Order>, b: seq<Order>, o: Order, index: map<nat, Entry>)
    requires SideOk(side, a + b, index) && o.id !in index && o.quantity > 0
    ensures SideOk(side, a + [o] + b, index[o.id := Entry(o.price, side, false)])
  {
    var q, t, index' := a + b, a + [o] + b, index[o.id := Entry(o.price, side, false)];
    JoinEntries(side, a, b, o, index);
    JoinIds(side, a, b, o, index);
    forall id | id in index' && index'[id].side == side ensures id in QueuedIds(t) {
      if id == o.id {
        JoinAt(a, b, o, |a|);
        assert o in t;
      } else {
        assert id in QueuedIds(q);
        var x :| x in q && x.id == id;
        assert x in t;
      }
    }
  }

  /** The newcomer is live, the others are as they were. */
  lemma JoinLive(a: seq<Order>, b: seq<Order>, o: Order, index: map<nat, Entry>, e: Entry)
    requires !e.isCanceled
    requires forall x | x in a + b :: x.id != o.id
    ensures LiveOf(a + [o] + b, index[o.id := e]) == LiveOf(a, index) + [Waiting(o)] + LiveOf(b, index)
  {
    var index' := index[o.id := e];
    LiveConcat(a + [o], b, index');
    LiveConcat(a, [o], index');
    forall x | x in a ensures Dead(index, x.id) == Dead(index', x.id) { assert x in a + b; }
    forall x | x in b ensures Dead(index, x.id) == Dead(index', x.id) { assert x in a + b; }
    LiveSame(a, index, index');
    LiveSame(b, index, index');
    assert LiveOf([o], index') == [Waiting(o)];
  }

  /** Live orders keep the price relation of the queue they come from. */
  lemma JoinPlace(side: Side, a: seq<Order>, b: seq<Order>, o: Order, index: map<nat, Entry>)
    requires forall x | x in a :: !Better(side, o.price, x.price)
    requires forall x | x in b :: Better(side, o.price, x.price)
    ensures Insert(side, LiveOf(a + b, index), Waiting(o)) == LiveOf(a, index) + [Waiting(o)] + LiveOf(b, index)
  {
    LiveConcat(a, b, index);
    var la, lb := LiveOf(a, index), LiveOf(b, index);
    LiveMembers(a, index);
    LiveMembers(b, index);
    InsertSkip(side, la, lb, Waiting(o));
    if lb != [] {
      assert lb[0] in lb;
    }
    assert Insert(side, lb, Waiting(o)) == [Waiting(o)] + lb;
    assert la + [Waiting(o)] + lb == la + ([Waiting(o)] + lb);
  }

  /** Joining a queue is the reference insertion, even with dead orders around. */
  lemma PushBackRefines(side: Side, levels: seq<Level>, o: Order, index: map<nat, Entry>)
    requires LadderOk(side, levels) && SideOk(side, Queued(levels), index)
    requires o.id !in index && o.quantity > 0
    ensures var t, index' := Queued(PushBack(side, levels, o)), index[o.id := Entry(o.price, side, false)];
            && SideOk(side, t, index')
            && LiveOf(t, index') == Insert(side, LiveOf(Queued(levels), index), Waiting(o))
  {
    var a, b := PushBackAt(side, levels, o);
    JoinSideOk(side, a, b, o, index);
    JoinPlace(side, a, b, o, index);
    forall x: Order | x in a + b ensures x.id != o.id { SideOkMember(side, a + b, index, x); }
    JoinLive(a, b, o, index, Entry(o.price, side, false));
  }

  lemma SideOkMember(side: Side, q: seq<Order>, index: map<nat, Entry>, x: Order)
    requires SideOk(side, q, index) && x in q
    ensures x.id in index && x.quantity > 0 && index[x.id].side == side && index[x.id].price == x.price
  {
  }

  /** Flagging an entry removes the order from the live book. */
  lemma {:induction false} FlagLive(q: seq<Order>, index: map<nat, Entry>, id: nat)
    requires id in index
    ensures LiveOf(q, index[id := index[id].(isCanceled := true)]) == Remove(LiveOf(q, index), id)
  {
    if q != [] {
      FlagLive(q[1..], index, id);
      var t := LiveOf(q[1..], index);
      assert ([Waiting(q[0])] + t)[1..] == t;
    }
  }

  // ---------------------------------------------------------------- one price level

  /** Evict cancelled orders from the front of a queue; `tail` is what is queued behind this level. */
  method SweepFront(side: Side, queue0: seq<Order>, ghost tail: seq<Order>, index0: map<nat, Entry>)
    returns (queue: seq<Order>, index: map<nat, Entry>)
    requires SideOk(side, queue0 + tail, index0)
    ensures SideOk(side, queue + tail, index) && Shrunk(side, index, index0)
    ensures LiveOf(queue + tail, index) == LiveOf(queue0 + tail, index0)
    ensures |queue| <= |queue0| && queue == queue0[|queue0| - |queue|..]
    ensures queue != [] ==> !Dead(index, queue[0].id)
  {
    hide SideOk, LiveOf, Shrunk;
    queue, index := queue0, index0;
    ShrunkNot(side, index);
    while queue != [] && Dead(index, queue[0].id)
      invariant SideOk(side, queue + tail, index) && Shrunk(side, index, index0)
      invariant LiveOf(queue + tail, index) == LiveOf(queue0 + tail, index0)
      invariant |queue| <= |queue0| && queue == queue0[|queue0| - |queue|..]
      decreases |queue|
    {
      PopFront(side, queue + tail, index);
      ShrunkTwice(side, index0, index, index - {queue[0].id});
      assert (queue + tail)[1..] == queue[1..] + tail;
      index := index - {queue[0].id};
      queue := queue[1..];
    }
  }

  /** Trade against one queue until the quantity is gone, the queue is empty or the cap is reached.
      The reference run from the old state and the one from the new state are the same run. */
  method FillLevel(side: Side, o: Order, price: nat, left0: nat, queue0: seq<Order>, ghost tail: seq<Order>,
                   index0: map<nat, Entry>, trades0: seq<Trade>)
    returns (left: nat, queue: seq<Order>, index: map<nat, Entry>, trades: seq<Trade>, full: bool)
    requires SideOk(side, queue0 + tail, index0)
    requires AllAt(price, queue0)
    requires Crosses(o, price) && |trades0| < MAX_TRADES_PER_MATCH
    ensures SideOk(side, queue + tail, index) && Shrunk(side, index, index0)
    ensures AllAt(price, queue)
    ensures |trades| <= MAX_TRADES_PER_MATCH && (full <==> |trades| == MAX_TRADES_PER_MATCH)
    ensures !full ==> left == 0 || queue == []
    ensures full ==> trades[|trades| - 1].price == price
    ensures left <= left0
    ensures Resume(trades, Match(o, left, LiveOf(queue + tail, index), MAX_TRADES_PER_MATCH - |trades|))
            == Resume(trades0, Match(o, left0, LiveOf(queue0 + tail, index0), MAX_TRADES_PER_MATCH - |trades0|))
  {
    hide SideOk, LiveOf, Match, TakeBest;
    left, trades, full := left0, trades0, false;
    queue, index := SweepFront(side, queue0, tail, index0);
    while left > 0
      invariant SideOk(side, queue + tail, index) && Shrunk(side, index, index0)
      invariant AllAt(price, queue)
      invariant |trades| < MAX_TRADES_PER_MATCH && !full
      invariant left <= left0
      invariant Resume(trades, Match(o, left, LiveOf(queue + tail, index), MAX_TRADES_PER_MATCH - |trades|))
             == Resume(trades0, Match(o, left0, LiveOf(queue0 + tail, index0), MAX_TRADES_PER_MATCH - |trades0|))
      decreases left
    {
      queue, index := SweepFront(side, queue, tail, index);
      if queue == [] { break; }
      var front := queue[0];
      var matchedQty := Min(left, front.quantity);
      ghost var q := queue + tail;
      SideOkMember(side, q, index, front);
      DrawFront(side, q, index, matchedQty);
      MatchStep(o, left, LiveOf(q, index), MAX_TRADES_PER_MATCH - |trades|, trades);
      ghost var index' := DrawnIndex(q, index, matchedQty);
      trades := trades + [Trade(front.id, o.id, price, matchedQty)];
      left := left - matchedQty;
      if front.quantity == matchedQty {
        index := index - {front.id};
        queue := queue[1..];
        assert q[1..] == queue + tail;
      } else {
        queue := [front.(quantity := front.quantity - matchedQty)] + queue[1..];
        assert queue + tail == [front.(quantity := front.quantity - matchedQty)] + q[1..];
      }
      assert queue + tail == Drawn(q, matchedQty) && index == index';
      if |trades| >= MAX_TRADES_PER_MATCH {
        full := true;
        return;
      }
    }
  }

  /** The queue and the index after the first queued order has given up `m` units. */
  ghost function Drawn(q: seq<Order>, m: nat): seq<Order>
    requires q != [] && m <= q[0].quantity
  {
    if m == q[0].quantity then q[1..] else [q[0].(quantity := q[0].quantity - m)] + q[1..]
  }

  ghost function DrawnIndex(q: seq<Order>, index: map<nat, Entry>, m: nat): map<nat, Entry>
    requires q != []
  {
    if m == q[0].quantity then index - {q[0].id} else index
  }

  /** One trade against the first queued order is one trade against the best live order. */
  lemma DrawFront(side: Side, q: seq<Order>, index: map<nat, Entry>, m: nat)
    requires SideOk(side, q, index) && q != [] && !Dead(index, q[0].id) && m <= q[0].quantity
    ensures var live := LiveOf(q, index);
            && live != [] && live[0] == Waiting(q[0])
            && LiveOf(Drawn(q, m), DrawnIndex(q, index, m)) == TakeBest(live, m)
    ensures SideOk(side, Drawn(q, m), DrawnIndex(q, index, m))
    ensures Shrunk(side, DrawnIndex(q, index, m), index)
  {
    hide SideOk;
    if m == q[0].quantity {
      PopFront(side, q, index);
    } else {
      ReduceFront(side, q, index, q[0].quantity - m);
    }
  }

  // ---------------------------------------------------------------- the ladder while matching

  /** The best level of `after` is no better than that of `before`. */
  ghost predicate NoBetter(side: Side, after: seq<Level>, before: seq<Level>) {
    after != [] ==> before != [] && !Better(side, after[0].price, before[0].price)
  }

  /** What one matching run does to the raw levels it trades against. */
  ghost predicate Consumed(o: Order, left: nat, trades: seq<Trade>, before: seq<Level>, after: seq<Level>) {
    && NoBetter(Opposite(o.side), after, before)
    && (|trades| < MAX_TRADES_PER_MATCH ==>
          && (NoEmptyLevel(before) ==> NoEmptyLevel(after))
          && (left > 0 ==> after == [] || !Crosses(o, after[0].price)))
    && (|trades| >= MAX_TRADES_PER_MATCH ==>
          after != [] && Crosses(o, after[0].price) && after[0].price == trades[|trades| - 1].price)
  }

  /** The order meets 1024 crossing orders that do not offer enough, so the stop after 1024 trades leaves a limit
      order to rest beside levels it still crosses. */
  predicate RestsAcross(o: Order, against: seq<Rest>) {
    && !o.isMarket && |against| >= 1024
    && Crosses(o, against[1023].price)
    && Supply(against[..1024]) < o.quantity
  }

  lemma RestsAcrossIff(o: Order, against: seq<Rest>)
    requires Sorted(Opposite(o.side), against) && Positive(against)
    ensures var f := Match(o, o.quantity, against, MAX_TRADES_PER_MATCH);
            RestsAcross(o, against) <==> !o.isMarket && |f.trades| >= MAX_TRADES_PER_MATCH && f.left > 0
  {
    hide Match;
    var f := Match(o, o.quantity, against, MAX_TRADES_PER_MATCH);
    MatchCount(o, o.quantity, against, MAX_TRADES_PER_MATCH);
    TradesReach(o, o.quantity, against, MAX_TRADES_PER_MATCH, MAX_TRADES_PER_MATCH);
    if |f.trades| == MAX_TRADES_PER_MATCH {
      LeftAtCap(o, o.quantity, against, MAX_TRADES_PER_MATCH);
    } else if |against| >= MAX_TRADES_PER_MATCH {
      SupplyGrows(against, MAX_TRADES_PER_MATCH - 1);
    }
  }

  lemma SupplyGrows(s: seq<Rest>, n: nat)
    requires n < |s|
    ensures Supply(s[..n]) <= Supply(s[..n + 1])
  {
    SupplyTake(s, n + 1);
    if n > 0 {
      SupplyTake(s, n);
      SupplyGrows(s[1..], n - 1);
    }
  }

  /** The live orders of a ladder are sorted by price. */
  lemma {:induction false} LiveSorted(side: Side, levels: seq<Level>, index: map<nat, Entry>)
    requires LadderOk(side, levels)
    ensures Sorted(side, LiveOf(Queued(levels), index))
  {
    if levels != [] {
      HeadLevelBest(side, levels);
      LiveSorted(side, levels[1..], index);
      var q, rest := levels[0].queue, Queued(levels[1..]);
      LiveConcat(q, rest, index);
      LiveMembers(q, index);
      LiveMembers(rest, index);
      var a, b := LiveOf(q, index), LiveOf(rest, index);
      forall x | x in a ensures x.price == levels[0].price {
        var y :| y in q && x == Waiting(y);
      }
      forall x | x in b ensures Better(side, levels[0].price, x.price) {
        var y :| y in rest && x == Waiting(y);
      }
      assert forall i | 0 <= i < |a| :: a[i] in a;
      assert forall i | 0 <= i < |b| :: b[i] in b;
    }
  }

  lemma ShrunkNot(side: Side, index: map<nat, Entry>)
    ensures Shrunk(side, index, index)
  {
  }

  lemma ShrunkTwice(side: Side, a: map<nat, Entry>, b: map<nat, Entry>, c: map<nat, Entry>)
    requires Shrunk(side, b, a) && Shrunk(side, c, b)
    ensures Shrunk(side, c, a)
  {
  }

  lemma NoLevels(index: map<nat, Entry>)
    ensures LiveOf(Queued([]), index) == []
  {
  }

  lemma LadderHead(side: Side, levels: seq<Level>)
    requires LadderOk(side, levels) && levels != []
    ensures AllAt(levels[0].price, levels[0].queue) && LadderOk(side, levels[1..])
    ensures NoBetter(side, levels[1..], levels)
    ensures Queued(levels) == levels[0].queue + Queued(levels[1..])
  {
  }

  lemma LadderSetHead(side: Side, levels: seq<Level>, queue: seq<Order>)
    requires LadderOk(side, levels) && levels != []
    requires AllAt(levels[0].price, queue)
    ensures LadderOk(side, [Level(levels[0].price, queue)] + levels[1..])
    ensures NoEmptyLevel(levels) ==> NoEmptyLevel(levels[1..])
    ensures NoEmptyLevel(levels) && queue != [] ==> NoEmptyLevel([Level(levels[0].price, queue)] + levels[1..])
  {
    var t := [Level(levels[0].price, queue)] + levels[1..];
    assert t[1..] == levels[1..];
  }

  /** A new entry on one side leaves the other side as it was. */
  lemma Unaffected(side: Side, q: seq<Order>, before: map<nat, Entry>, after: map<nat, Entry>, id: nat)
    requires SideOk(side, q, before)
    requires id !in before && id in after && after[id].side != side && after == before[id := after[id]]
    ensures SideOk(side, q, after) && LiveOf(q, after) == LiveOf(q, before)
  {
    LiveSame(q, before, after);
  }

  lemma FlagSideOk(side: Side, q: seq<Order>, index: map<nat, Entry>, id: nat)
    requires SideOk(side, q, index) && id in index
    ensures SideOk(side, q, index[id := index[id].(isCanceled := true)])
  {
  }

  /** The live orders of a side are those its index entries say are live. */
  lemma LiveEntries(side: Side, q: seq<Order>, index: map<nat, Entry>)
    requires SideOk(side, q, index)
    ensures Ids(LiveOf(q, index)) == set id | id in index && index[id].side == side && !index[id].isCanceled
    ensures Positive(LiveOf(q, index))
  {
    var live := LiveOf(q, index);
    LiveMembers(q, index);
    forall id | id in index && index[id].side == side && !index[id].isCanceled ensures id in Ids(live) {
      assert id in QueuedIds(q);
      var o :| o in q && o.id == id;
      assert Waiting(o) in live;
    }
    forall x | x in live ensures x.quantity > 0 && x.id in index && index[x.id].side == side && !index[x.id].isCanceled {
      var o :| o in q && x == Waiting(o) && !Dead(index, o.id);
    }
    assert forall i | 0 <= i < |live| :: live[i] in live;
  }

  lemma SideOkDistinct(side: Side, q: seq<Order>, index: map<nat, Entry>)
    requires SideOk(side, q, index)
    ensures forall j, k | 0 <= j < k < |q| :: q[j].id != q[k].id
  {
  }

  lemma {:induction false} LiveCount(q: seq<Order>, index: map<nat, Entry>)
    requires forall j, k | 0 <= j < k < |q| :: q[j].id != q[k].id
    ensures |LiveOf(q, index)| == |Ids(LiveOf(q, index))|
  {
    if q != [] {
      LiveCount(q[1..], index);
      var rest := LiveOf(q[1..], index);
      if !Dead(index, q[0].id) {
        LiveMembers(q[1..], index);
        assert q[0].id !in Ids(rest);
        assert Ids([Waiting(q[0])] + rest) == {q[0].id} + Ids(rest) by {
          assert Waiting(q[0]) in [Waiting(q[0])] + rest;
          assert forall x | x in rest :: x in [Waiting(q[0])] + rest;
        }
      }
    }
  }

  // ---------------------------------------------------------------- the book

  const TWO_64: nat := 0x1_0000_0000_0000_0000

  class OrderBook {
    var bids: seq<Level>
    var asks: seq<Level>
    var orderIndex: map<nat, Entry>

    ghost predicate Valid()
      reads this
    {
      && LadderOk(Buy, bids) && LadderOk(Sell, asks)
      && SideOk(Buy, Queued(bids), orderIndex) && SideOk(Sell, Queued(asks), orderIndex)
    }

    /** The book as its users see it. */
    ghost function Live(): Book
      reads this
    {
      Book(LiveOf(Queued(bids), orderIndex), LiveOf(Queued(asks), orderIndex))
    }

    /** The best raw levels, dead orders included, do not cross. */
    ghost predicate PricesUncrossed()
      reads this
    {
      bids != [] && asks != [] ==> bids[0].price < asks[0].price
    }

    /** The raw levels do not cross, and no level is empty. */
    ghost predicate RawUncrossed()
      reads this
    {
      NoEmptyLevel(bids) && NoEmptyLevel(asks) && PricesUncrossed()
    }

    constructor ()
      ensures Valid() && Live() == EMPTY && orderIndex == map[] && RawUncrossed()
    {
      bids, asks, orderIndex := [], [], map[];
    }

    method Reset()
      modifies this
      ensures Valid() && Live() == EMPTY && orderIndex == map[] && RawUncrossed()
    {
      bids, asks, orderIndex := [], [], map[];
    }

    method MatchBuy(o: Order) returns (left: nat, trades: seq<Trade>)
      requires Valid() && o.side == Buy
      modifies this`asks, this`orderIndex
      ensures Valid() && Shrunk(Sell, orderIndex, old(orderIndex))
      ensures Live().bids == old(Live().bids)
      ensures Fill(trades, Live().asks, left) == Match(o, o.quantity, old(Live().asks), MAX_TRADES_PER_MATCH)
      ensures BookPrices.WithinLimit(o, trades)
      ensures Consumed(o, left, trades, old(asks), asks)
    {
      hide SideOk, LadderOk, Match, LiveOf, Queued, NoEmptyLevel, Shrunk, AllAt, BookPrices.WithinLimit;
      ShrunkNot(Sell, orderIndex);
      left, trades := o.quantity, [];
      ghost var opposite := Live().asks;
      ResumeNothing(Match(o, left, opposite, MAX_TRADES_PER_MATCH));
      ghost var run := Match(o, left, opposite, MAX_TRADES_PER_MATCH);
      while left > 0
        invariant LadderOk(Sell, asks) && SideOk(Sell, Queued(asks), orderIndex)
        invariant Shrunk(Sell, orderIndex, old(orderIndex))
        invariant |trades| < MAX_TRADES_PER_MATCH && left <= o.quantity
        invariant Resume(trades, Match(o, left, Live().asks, MAX_TRADES_PER_MATCH - |trades|)) == run
        invariant NoBetter(Sell, asks, old(asks)) && (NoEmptyLevel(old(asks)) ==> NoEmptyLevel(asks))
        decreases |asks|, left
      {
        if asks == [] {
          NoLevels(orderIndex);
          break;
        }
        LadderHead(Sell, asks);
        var bestAskPrice := asks[0].price;
        if !o.isMarket && o.price < bestAskPrice {
          NoCross(Sell, asks, orderIndex, o);
          break;
        }
        ghost var before, index := asks, orderIndex;
        var queue, full;
        left, queue, orderIndex, trades, full :=
          FillLevel(Sell, o, bestAskPrice, left, asks[0].queue, Queued(asks[1..]), orderIndex, trades);
        ShrunkTwice(Sell, old(orderIndex), index, orderIndex);
        LadderSetHead(Sell, asks, queue);
        QueuedSetHead(asks, Level(bestAskPrice, queue));
        asks := [Level(bestAskPrice, queue)] + asks[1..];
        assert asks[1..] == before[1..];
        if full {
          break;
        }
        if queue == [] {
          QueuedHead(asks);
          asks := asks[1..];
        }
      }
      MatchDone(o, left, Live().asks, MAX_TRADES_PER_MATCH - |trades|, trades);
      BookPrices.TradesWithinLimit(o, o.quantity, opposite, MAX_TRADES_PER_MATCH);
      OtherSide(Buy, Queued(bids), old(orderIndex), orderIndex);
    }

    method MatchSell(o: Order) returns (left: nat, trades: seq<Trade>)
      requires Valid() && o.side == Sell
      modifies this`bids, this`orderIndex
      ensures Valid() && Shrunk(Buy, orderIndex, old(orderIndex))
      ensures Live().asks == old(Live().asks)
      ensures Fill(trades, Live().bids, left) == Match(o, o.quantity, old(Live().bids), MAX_TRADES_PER_MATCH)
      ensures BookPrices.WithinLimit(o, trades)
      ensures Consumed(o, left, trades, old(bids), bids)
    {
      hide SideOk, LadderOk, Match, LiveOf, Queued, NoEmptyLevel, Shrunk, AllAt, BookPrices.WithinLimit;
      ShrunkNot(Buy, orderIndex);
      left, trades := o.quantity, [];
      ghost var opposite := Live().bids;
      ResumeNothing(Match(o, left, opposite, MAX_TRADES_PER_MATCH));
      ghost var run := Match(o, left, opposite, MAX_TRADES_PER_MATCH);
      while left > 0
        invariant LadderOk(Buy, bids) && SideOk(Buy, Queued(bids), orderIndex)
        invariant Shrunk(Buy, orderIndex, old(orderIndex))
        invariant |trades| < MAX_TRADES_PER_MATCH && left <= o.quantity
        invariant Resume(trades, Match(o, left, Live().bids, MAX_TRADES_PER_MATCH - |trades|)) == run
        invariant NoBetter(Buy, bids, old(bids)) && (NoEmptyLevel(old(bids)) ==> NoEmptyLevel(bids))
        decreases |bids|, left
      {
        if bids == [] {
          NoLevels(orderIndex);
          break;
        }
        LadderHead(Buy, bids);
        var bestBidPrice := bids[0].price;
        if !o.isMarket && o.price > bestBidPrice {
          NoCross(Buy, bids, orderIndex, o);
          break;
        }
        ghost var before, index := bids, orderIndex;
        var queue, full;
        left, queue, orderIndex, trades, full :=
          FillLevel(Buy, o, bestBidPrice, left, bids[0].queue, Queued(bids[1..]), orderIndex, trades);
        ShrunkTwice(Buy, old(orderIndex), index, orderIndex);
        LadderSetHead(Buy, bids, queue);
        QueuedSetHead(bids, Level(bestBidPrice, queue));
        bids := [Level(bestBidPrice, queue)] + bids[1..];
        assert bids[1..] == before[1..];
        if full {
          break;
        }
        if queue == [] {
          QueuedHead(bids);
          bids := bids[1..];
        }
      }
      MatchDone(o, left, Live().bids, MAX_TRADES_PER_MATCH - |trades|, trades);
      BookPrices.TradesWithinLimit(o, o.quantity, opposite, MAX_TRADES_PER_MATCH);
      OtherSide(Sell, Queued(asks), old(orderIndex), orderIndex);
    }

    method RestBid(o: Order)
      requires Valid() && o.id !in orderIndex && o.quantity > 0
      modifies this`bids, this`orderIndex
      ensures Valid() && orderIndex.Keys == old(orderIndex.Keys) + {o.id}
      ensures Live() == Book(Insert(Buy, old(Live().bids), Waiting(o)), old(Live().asks))
      ensures old(RawUncrossed()) && (asks != [] ==> o.price < asks[0].price) ==> RawUncrossed()
      ensures bids != []
      ensures bids[0].price == if old(bids) == [] || o.price > old(bids)[0].price then o.price else old(bids)[0].price
    {
      hide SideOk, LadderOk, LiveOf, Queued, NoEmptyLevel;
      PushBackRefines(Buy, bids, o, orderIndex);
      PushBackLadder(Buy, bids, o);
      orderIndex := orderIndex[o.id := Entry(o.price, Buy, false)];
      bids := PushBack(Buy, bids, o);
      Unaffected(Sell, Queued(asks), old(orderIndex), orderIndex, o.id);
    }

    method RestAsk(o: Order)
      requires Valid() && o.id !in orderIndex && o.quantity > 0
      modifies this`asks, this`orderIndex
      ensures Valid() && orderIndex.Keys == old(orderIndex.Keys) + {o.id}
      ensures Live() == Book(old(Live().bids), Insert(Sell, old(Live().asks), Waiting(o)))
      ensures old(RawUncrossed()) && (bids != [] ==> bids[0].price < o.price) ==> RawUncrossed()
      ensures asks != []
      ensures asks[0].price == if old(asks) == [] || o.price < old(asks)[0].price then o.price else old(asks)[0].price
    {
      hide SideOk, LadderOk, LiveOf, Queued, NoEmptyLevel;
      PushBackRefines(Sell, asks, o, orderIndex);
      PushBackLadder(Sell, asks, o);
      orderIndex := orderIndex[o.id := Entry(o.price, Sell, false)];
      asks := PushBack(Sell, asks, o);
      Unaffected(Buy, Queued(bids), old(orderIndex), orderIndex, o.id);
    }

    /** Match an order and rest what is left.  An id the index still knows is refused, even when the
        order it belongs to is cancelled. */
    method SubmitOrder(o: Order) returns (trades: seq<Trade>)
      requires Valid()
      modifies this
      ensures Valid()
      ensures !WellFormed(o) || o.id in old(orderIndex) ==>
                trades == [] && bids == old(bids) && asks == old(asks) && orderIndex == old(orderIndex)
      ensures WellFormed(o) && o.id !in old(orderIndex) ==>
                Outcome(Live(), trades) == Submit(old(Live()), o, MAX_TRADES_PER_MATCH)
      ensures WellFormed(o) && !o.isMarket ==>
                (o.id !in old(orderIndex) <==> Outcome(Live(), trades) == Submit(old(Live()), o, MAX_TRADES_PER_MATCH))
      ensures WellFormed(o) && o.isMarket ==>
                (o.id !in old(orderIndex) || old(Live()).Against(o.side) == []
                 <==> Outcome(Live(), trades) == Submit(old(Live()), o, MAX_TRADES_PER_MATCH))
      ensures BookPrices.WithinLimit(o, trades)
      ensures BookPrices.OnlyRestOf(o, old(Live()).Own(o.side), Live().Own(o.side))
      ensures orderIndex.Keys <= old(orderIndex.Keys) + {o.id}
      ensures old(RawUncrossed()) && |trades| < MAX_TRADES_PER_MATCH ==> RawUncrossed()
      ensures old(PricesUncrossed()) && WellFormed(o) && o.id !in old(orderIndex) ==>
                (PricesUncrossed() <==> !RestsAcross(o, old(Live()).Against(o.side)))
      ensures old(PricesUncrossed()) && WellFormed(o) && o.id !in old(orderIndex) && !PricesUncrossed() ==>
                var own, against := if o.side.Buy? then bids else asks, if o.side.Buy? then asks else bids;
                trades != [] && own[0].price == o.price && against[0].price == trades[|trades| - 1].price
      ensures o.quantity < MAX_TRADES_PER_MATCH ==> |trades| < MAX_TRADES_PER_MATCH
    {
      hide SideOk, LadderOk, LiveOf, Queued, NoEmptyLevel, Match, Insert, BookPrices.WithinLimit, BookPrices.OnlyRestOf;
      BookPrices.NothingDone(o, Live().Own(o.side));
      if o.id == 0 || (!o.isMarket && o.price == 0) || o.quantity == 0 {
        return [];
      }
      if o.id in orderIndex {
        if !o.isMarket {
          AcceptShows(Live(), o, MAX_TRADES_PER_MATCH);
        } else {
          MarketShows(Live(), o, MAX_TRADES_PER_MATCH);
        }
        return [];
      }
      LiveEntries(Buy, Queued(bids), orderIndex);
      LiveEntries(Sell, Queued(asks), orderIndex);
      MatchCount(o, o.quantity, Live().Against(o.side), MAX_TRADES_PER_MATCH);
      LiveSorted(Buy, bids, orderIndex);
      LiveSorted(Sell, asks, orderIndex);
      RestsAcrossIff(o, Live().Against(o.side));
      BookPrices.RestOfOrder(Live(), o, MAX_TRADES_PER_MATCH);
      var left;
      match o.side {
        case Buy =>
          left, trades := MatchBuy(o);
          if !o.isMarket && left > 0 {
            RestBid(o.(quantity := left));
          }
        case Sell =>
          left, trades := MatchSell(o);
          if !o.isMarket && left > 0 {
            RestAsk(o.(quantity := left));
          }
      }
    }

    /** Set the cancel flag; the answer says whether the order was live. */
    method CancelOrder(id: nat) returns (done: bool)
      requires Valid()
      modifies this`orderIndex
      ensures Valid() && orderIndex.Keys == old(orderIndex.Keys)
      ensures done <==> id in Ids(old(Live()).bids) + Ids(old(Live()).asks)
      ensures Live() == Cancel(old(Live()), id)
    {
      LiveEntries(Buy, Queued(bids), orderIndex);
      LiveEntries(Sell, Queued(asks), orderIndex);
      if id in orderIndex && !orderIndex[id].isCanceled {
        FlagSideOk(Buy, Queued(bids), orderIndex, id);
        FlagSideOk(Sell, Queued(asks), orderIndex, id);
        FlagLive(Queued(bids), orderIndex, id);
        FlagLive(Queued(asks), orderIndex, id);
        orderIndex := orderIndex[id := orderIndex[id].(isCanceled := true)];
        return true;
      } else {
        RemoveAbsent(Live().bids, id);
        RemoveAbsent(Live().asks, id);
        return false;
      }
    }

    function BestBid(): Option<nat>
      reads this
    {
      if bids == [] then None else Some(bids[0].price)
    }

    function BestAsk(): Option<nat>
      reads this
    {
      if asks == [] then None else Some(asks[0].price)
    }

    /** An unsigned subtraction: it wraps around when the raw levels cross.  While they do not, it is exact,
        and no two live orders are closer than the answer. */
    function Spread(): (r: Option<nat>)
      requires Valid()
      reads this
      ensures r.None? <==> bids == [] || asks == []
      ensures r.Some? && bids[0].price <= asks[0].price ==> bids[0].price + r.value == asks[0].price
      ensures r.Some? && asks[0].price < bids[0].price < 18446744073709551616 ==>
                r.value == asks[0].price + 18446744073709551616 - bids[0].price
      ensures RawUncrossed() ==>
                forall b, a | b in Live().bids && a in Live().asks :: r.Some? && 0 < r.value <= a.price - b.price
    {
      SpreadBound();
      if BestAsk().None? || BestBid().None? then None
      else
        var ask, bid := BestAsk().value, BestBid().value;
        Some(if bid <= ask then ask - bid else (ask - bid) % TWO_64)
    }

    lemma SpreadBound()
      requires Valid()
      ensures forall b, a | b in Live().bids && a in Live().asks ::
                bids != [] && asks != [] && b.price <= bids[0].price && asks[0].price <= a.price
    {
      forall b, a | b in Live().bids && a in Live().asks
        ensures bids != [] && asks != [] && b.price <= bids[0].price && asks[0].price <= a.price
      {
        LiveMembers(Queued(bids), orderIndex);
        LiveMembers(Queued(asks), orderIndex);
        HeadLevelBest(Buy, bids);
        HeadLevelBest(Sell, asks);
      }
    }

    /** The count over the index is the number of live orders in the book. */
    function TotalRestingOrders(): (n: nat)
      requires Valid()
      reads this
      ensures n == |Live().bids| + |Live().asks|
    {
      CountLive();
      |set id | id in orderIndex && !orderIndex[id].isCanceled|
    }

    lemma CountLive()
      requires Valid()
      ensures |set id | id in orderIndex && !orderIndex[id].isCanceled| == |Live().bids| + |Live().asks|
    {
      hide LiveOf, Queued, LadderOk;
      LiveEntries(Buy, Queued(bids), orderIndex);
      LiveEntries(Sell, Queued(asks), orderIndex);
      SideOkDistinct(Buy, Queued(bids), orderIndex);
      SideOkDistinct(Sell, Queued(asks), orderIndex);
      hide SideOk;
      LiveCount(Queued(bids), orderIndex);
      LiveCount(Queued(asks), orderIndex);
      var b, a := Ids(Live().bids), Ids(Live().asks);
      assert (set id | id in orderIndex && !orderIndex[id].isCanceled) == b + a;
      assert b !! a;
    }
  }
}
