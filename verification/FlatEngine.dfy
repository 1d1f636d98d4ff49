/** The flat-array matching engine: an order table indexed by id, two compacting arrays of active ids,
    a linear scan for the best order, eager cancels, and a gate that rejects ids that do not rise. */
module FlatEngine {
  import opened Lob
  import opened Flat
  import BookPrices

  const MAX_TRADES_PER_ORDER: nat := 128
  const TWO_32: nat := 0x1_0000_0000

  // ---------------------------------------------------------------- what is reported

  /** A quantity as it is stored in a 32-bit field. */
  function Narrow(t: Trade): Trade { t.(quantity := t.quantity % TWO_32) }

  /** Every trade is made, the first 128 are written down. */
  function Report(ts: seq<Trade>): (r: seq<Trade>)
    ensures |r| == Min(|ts|, MAX_TRADES_PER_ORDER)
    ensures forall i | 0 <= i < |r| :: r[i] == Narrow(ts[i])
  {
    seq(Min(|ts|, MAX_TRADES_PER_ORDER), i requires 0 <= i < |ts| => Narrow(ts[i]))
  }

  lemma ReportAppend(ts: seq<Trade>, t: Trade)
    ensures Report(ts + [t]) == if |Report(ts)| < MAX_TRADES_PER_ORDER then Report(ts) + [Narrow(t)] else Report(ts)
  {
  }

  /** One limit or market order, or one cancel, as the engine answers it: `maxId` is the highest id so far. */
  ghost function Handled(b: Book, maxId: nat, r: Request): Outcome {
    match r
    case Withdraw(id) => Outcome(Cancel(b, id), [])
    case Place(o) =>
      if o.id <= maxId then Outcome(b, [])
      else
        var f := MatchAll(o, b.Against(o.side));
        Outcome(Settle(b, Restable(o), f), Report(f.trades))
  }

  /** Matching that no cap can stop: every trade but the last uses up a maker. */
  ghost function MatchAll(o: Order, against: seq<Rest>): Fill {
    Match(o, o.quantity, against, |against|)
  }

  /** An order whose id does not fit the table is matched, but what is left of it is dropped. */
  function Restable(o: Order): Order {
    if o.id < MAX_ORDERS then o else o.(isMarket := true)
  }

  /** What the answer to an order keeps of its limit, and what waits afterwards. */
  lemma LimitKept(b: Book, o: Order)
    ensures var f := MatchAll(o, b.Against(o.side));
            && BookPrices.WithinLimit(o, Report(f.trades))
            && BookPrices.OnlyRestOf(o, b.Own(o.side), Settle(b, Restable(o), f).Own(o.side))
  {
    var against := b.Against(o.side);
    var f := MatchAll(o, against);
    BookPrices.TradesWithinLimit(o, o.quantity, against, |against|);
    BookPrices.RestOfOrder(b, o, |against|);
    hide Match;
    forall t | t in Report(f.trades) ensures exists u :: u in f.trades && t == Narrow(u) {
      var i :| 0 <= i < |Report(f.trades)| && Report(f.trades)[i] == t;
      assert f.trades[i] in f.trades;
    }
  }

  // ---------------------------------------------------------------- array helpers

  /** Shift everything behind the first `id` one place down; nothing happens when `id` is absent. */
  method RemoveFrom(a: array<Slot>, n: nat, id: nat) returns (n': nat)
    requires n <= a.Length
    requires Ascending(a[..n])
    modifies a
    ensures n' <= a.Length
    ensures id !in old(a[..n]) ==> n' == n && a[..] == old(a[..])
    ensures forall k | 0 <= k < n && old(a[k]) == id :: n' == n - 1 && a[..n'] == Without(old(a[..n]), k)
  {
    var idx := -1;
    var i := 0;
    while i < n
      invariant 0 <= i <= n && idx == -1
      invariant forall j | 0 <= j < i :: a[j] != id
    {
      if a[i] == id {
        idx := i;
        break;
      }
      i := i + 1;
    }
    n' := n;
    if idx != -1 {
      i := idx;
      while i < n - 1
        invariant idx <= i <= n - 1
        invariant forall j | 0 <= j < idx :: a[j] == old(a[j])
        invariant forall j | idx <= j < i :: a[j] == old(a[j + 1])
        invariant forall j | i <= j < n :: a[j] == old(a[j])
      {
        a[i] := a[i + 1];
        i := i + 1;
      }
      n' := n - 1;
      forall k | 0 <= k < n && old(a[k]) == id ensures a[..n'] == Without(old(a[..n]), k) {
        OnlyAt(old(a[..n]), idx, k);
        assert forall j | 0 <= j < n' :: a[..n'][j] == Without(old(a[..n]), k)[j];
      }
    }
  }

  lemma OnlyAt(ids: seq<Slot>, j: nat, k: nat)
    requires Ascending(ids) && j < |ids| && k < |ids| && ids[j] == ids[k]
    ensures j == k
  {
  }

  /** One order further, the scan is still on the best one: the tie-break by id never applies. */
  lemma ScanStep(side: Side, table: seq<BookOrder>, ids: seq<Slot>, maxId: nat, i: nat, k: nat)
    requires |table| == MAX_ORDERS && ListOk(side, table, ids, maxId) && i < |ids|
    requires i > 0 ==> k == BestPos(side, Records(table, ids)[..i])
    ensures table[ids[i]].active
    ensures var flat, e := Records(table, ids), table[ids[i]];
            BestPos(side, flat[..i + 1])
            == if i == 0 || Better(side, e.price, table[ids[k]].price)
                 || (e.price == table[ids[k]].price && e.id < table[ids[k]].id) then i else k
  {
    var flat := Records(table, ids);
    assert flat[..i + 1][..i] == flat[..i];
    assert i > 0 ==> ids[k] < ids[i];
    assert flat[..i + 1][i].price == table[ids[i]].price;
  }

  /** The scan for the best active order of one side. */
  method ScanBest(side: Side, table: array<BookOrder>, a: array<Slot>, n: nat, ghost maxId: nat)
    returns (best: int, ghost k: nat)
    requires table.Length == MAX_ORDERS && n <= a.Length
    requires ListOk(side, table[..], a[..n], maxId)
    ensures best == -1 <==> n == 0
    ensures n > 0 ==> k == BestPos(side, Records(table[..], a[..n])) && best == a[k]
  {
    hide ListOk, BestPos, Better, Records, Ascending;
    best, k := -1, 0;
    ghost var flat := Records(table[..], a[..n]);
    for i := 0 to n
      invariant best == -1 <==> i == 0
      invariant i > 0 ==> k == BestPos(side, flat[..i]) && best == a[k]
    {
      var id := a[i];
      ScanStep(side, table[..], a[..n], maxId, i, k);
      if table[id].active {
        if best == -1 || Better(side, table[id].price, table[best].price)
          || (table[id].price == table[best].price && table[id].id < table[best].id) {
          best, k := id, i;
        }
      }
    }
    assert flat[..n] == flat;
  }

  /** Take `m` units from an active order; one used up becomes inactive. */
  method Reduce(table: array<BookOrder>, id: Slot, m: nat) returns (gone: bool)
    requires table.Length == MAX_ORDERS && m <= table[id].qty && table[id].active
    modifies table
    ensures table[..] == DrawnTable(old(table[..]), id, m)
    ensures gone == (m == old(table[id]).qty)
  {
    table[id] := table[id].(qty := table[id].qty - m);
    gone := table[id].qty == 0;
    if gone {
      table[id] := table[id].(active := false);
    }
  }

  /** Put `id` behind the first `n` entries. */
  method Append(a: array<Slot>, n: nat, id: Slot)
    requires n < a.Length
    modifies a
    ensures a[..n + 1] == old(a[..n]) + [id]
  {
    a[n] := id;
  }

  // ---------------------------------------------------------------- facts about lists

  lemma Listed(side: Side, table: seq<BookOrder>, ids: seq<Slot>, maxId: nat, k: nat)
    requires |table| == MAX_ORDERS && ListOk(side, table, ids, maxId)
    ensures Ascending(ids)
    ensures k < |ids| ==> var e := table[ids[k]]; e.id == ids[k] && e.side == side && e.active && e.qty > 0 && 0 < ids[k] <= maxId
  {
  }

  /** A slot above every listed id is inactive on this side, and there is room for one more. */
  lemma Unlisted(side: Side, table: seq<BookOrder>, ids: seq<Slot>, bound: nat, id: Slot)
    requires |table| == MAX_ORDERS && ListOk(side, table, ids, bound) && bound < id
    ensures |ids| < MAX_ORDERS && !(table[id].active && table[id].side == side)
  {
    AscendingBound(ids, id);
  }

  /** One trade against the best order of one side leaves the other as it was. */
  lemma DrawFromSide(side: Side, table: seq<BookOrder>, ids: seq<Slot>, other: seq<Slot>, bound: nat, k: nat, m: nat)
    requires |table| == MAX_ORDERS && ids != [] && k == BestPos(side, Records(table, ids)) && m <= table[ids[k]].qty
    requires ListOk(side, table, ids, bound) && ListOk(Opposite(side), table, other, bound)
    requires Arrange(side, Records(table, ids)) != [] && m <= Arrange(side, Records(table, ids))[0].quantity
    ensures var t := DrawnTable(table, ids[k], m);
            var u := DrawnIds(table, ids, k, m);
            && Ascending(ids)
            && t == table[ids[k] := table[ids[k]].(qty := table[ids[k]].qty - m, active := m < table[ids[k]].qty)]
            && table[ids[k]].active
            && ListOk(side, t, u, bound) && ListOk(Opposite(side), t, other, bound)
            && Arrange(side, Records(t, u)) == TakeBest(Arrange(side, Records(table, ids)), m)
            && Arrange(Opposite(side), Records(t, other)) == Arrange(Opposite(side), Records(table, other))
  {
    hide ListOk, Records, Arrange, BestPos, TakeBest, Without, Ascending;
    DrawBest(side, table, ids, bound, m);
    Listed(side, table, ids, bound, k);
    OtherList(Opposite(side), table, DrawnTable(table, ids[k], m), other, bound, ids[k]);
  }

  /** Appending the newest order to one side leaves the other as it was. */
  lemma AppendToSide(side: Side, table: seq<BookOrder>, ids: seq<Slot>, other: seq<Slot>, bound: nat, entry: BookOrder)
    requires |table| == MAX_ORDERS && bound < entry.id < MAX_ORDERS
    requires ListOk(side, table, ids, bound) && ListOk(Opposite(side), table, other, bound)
    requires entry.side == side && entry.active && entry.qty > 0
    ensures var t := table[entry.id := entry];
            && ListOk(side, t, ids + [entry.id], entry.id) && ListOk(Opposite(side), t, other, entry.id)
            && Arrange(side, Records(t, ids + [entry.id]))
               == Insert(side, Arrange(side, Records(table, ids)), Rest(entry.id, entry.price, entry.qty))
            && Arrange(Opposite(side), Records(t, other)) == Arrange(Opposite(side), Records(table, other))
  {
    hide ListOk, Records, Arrange, Insert;
    var t := table[entry.id := entry];
    AppendNewest(side, table, ids, bound, entry);
    Unlisted(Opposite(side), table, other, bound, entry.id);
    OtherList(Opposite(side), table, t, other, bound, entry.id);
    RaiseMax(Opposite(side), t, other, bound, entry.id);
  }

  /** Where a cancelled id is in the list of its side; absent otherwise. */
  lemma WhereListed(side: Side, table: seq<BookOrder>, ids: seq<Slot>, maxId: nat, id: nat) returns (k: nat)
    requires |table| == MAX_ORDERS && ListOk(side, table, ids, maxId)
    ensures if id < MAX_ORDERS && table[id].active && table[id].side == side then k < |ids| && ids[k] == id
            else Remove(Arrange(side, Records(table, ids)), id) == Arrange(side, Records(table, ids))
  {
    k := 0;
    if id < MAX_ORDERS && table[id].active && table[id].side == side {
      assert id in ids;
      k :| k < |ids| && ids[k] == id;
    } else {
      ArrangeIds(side, table, ids, maxId, id);
    }
  }

  /** The price of a market order plays no part. */
  lemma {:induction false} PricelessMarket(o: Order, left: nat, against: seq<Rest>, cap: nat)
    requires o.isMarket
    ensures Match(o, left, against, cap) == Match(o.(price := 0), left, against, cap)
    decreases |against|, left
  {
    if left != 0 && against != [] && cap != 0 {
      var q := Min(left, against[0].quantity);
      if q == 0 { TakeBestLength(against, q); }
      PricelessMarket(o, left - q, TakeBest(against, q), cap - 1);
    }
  }

  lemma NoRecords(side: Side, table: seq<BookOrder>)
    requires |table| == MAX_ORDERS
    ensures Arrange(side, Records(table, [])) == []
  {
  }

  /** What the scan found is the head of the reference side. */
  lemma BestListed(side: Side, table: seq<BookOrder>, ids: seq<Slot>, maxId: nat)
    requires |table| == MAX_ORDERS && ListOk(side, table, ids, maxId) && ids != []
    ensures var e := table[ids[BestPos(side, Records(table, ids))]];
            var s := Arrange(side, Records(table, ids));
            s != [] && s[0] == Rest(e.id, e.price, e.qty) && e.qty > 0
  {
    Listed(side, table, ids, maxId, BestPos(side, Records(table, ids)));
    ScanFindsBest(side, Records(table, ids));
  }

  lemma TakeBestLength(s: seq<Rest>, m: nat)
    requires s != [] && m <= s[0].quantity
    ensures |TakeBest(s, m)| == if m == s[0].quantity then |s| - 1 else |s|
  {
  }

  // ---------------------------------------------------------------- the engine

  class Engine {
    const orderIndex: array<BookOrder>
    const activeBids: array<Slot>
    const activeAsks: array<Slot>
    var numBids: nat
    var numAsks: nat
    var maxOrderId: nat

    ghost predicate Shape()
      reads this
    {
      && orderIndex.Length == activeBids.Length == activeAsks.Length == MAX_ORDERS
      && activeBids != activeAsks
      && numBids <= MAX_ORDERS && numAsks <= MAX_ORDERS
    }

    /** Both lists are exact, and no listed id exceeds `bound`. */
    ghost predicate ListsOk(bound: nat)
      reads this, orderIndex, activeBids, activeAsks
    {
      && Shape()
      && ListOk(Buy, orderIndex[..], activeBids[..numBids], bound)
      && ListOk(Sell, orderIndex[..], activeAsks[..numAsks], bound)
    }

    ghost predicate Valid()
      reads this, orderIndex, activeBids, activeAsks
    {
      ListsOk(maxOrderId)
    }

    /** The reference book this state stands for. */
    ghost function Abstract(): Book
      requires Shape()
      reads this, orderIndex, activeBids, activeAsks
    {
      Book(Arrange(Buy, Records(orderIndex[..], activeBids[..numBids])),
           Arrange(Sell, Records(orderIndex[..], activeAsks[..numAsks])))
    }

    constructor ()
      ensures Valid() && Abstract() == EMPTY && maxOrderId == 0
      ensures fresh(orderIndex) && fresh(activeBids) && fresh(activeAsks)
    {
      orderIndex := new BookOrder[MAX_ORDERS](_ => BookOrder(0, 0, 0, Buy, false));
      activeBids := new Slot[MAX_ORDERS](_ => 0);
      activeAsks := new Slot[MAX_ORDERS](_ => 0);
      numBids, numAsks, maxOrderId := 0, 0, 0;
    }

    method RemoveBid(id: nat, ghost k: nat)
      requires Shape() && Ascending(activeBids[..numBids])
      requires k < numBids && activeBids[k] == id
      modifies this`numBids, activeBids
      ensures Shape() && numBids == old(numBids) - 1
      ensures activeBids[..numBids] == Without(old(activeBids[..numBids]), k)
    {
      numBids := RemoveFrom(activeBids, numBids, id);
    }

    method RemoveAsk(id: nat, ghost k: nat)
      requires Shape() && Ascending(activeAsks[..numAsks])
      requires k < numAsks && activeAsks[k] == id
      modifies this`numAsks, activeAsks
      ensures Shape() && numAsks == old(numAsks) - 1
      ensures activeAsks[..numAsks] == Without(old(activeAsks[..numAsks]), k)
    {
      numAsks := RemoveFrom(activeAsks, numAsks, id);
    }

    /** Take `m` units from the best ask; an ask used up becomes inactive and leaves its array. */
    method DrawAsk(best: Slot, ghost k: nat, m: nat, ghost bound: nat)
      requires ListsOk(bound) && k < numAsks && best == activeAsks[k]
      requires k == BestPos(Sell, Records(orderIndex[..], activeAsks[..numAsks])) && m <= orderIndex[best].qty
      requires Abstract().asks != [] && m <= Abstract().asks[0].quantity
      modifies this`numAsks, orderIndex, activeAsks
      ensures ListsOk(bound)
      ensures Abstract() == Book(old(Abstract()).bids, TakeBest(old(Abstract()).asks, m))
    {
      hide ListOk, Records, Arrange, BestPos, TakeBest, Without, Ascending, DrawnTable;
      ghost var table, ids, bids := orderIndex[..], activeAsks[..numAsks], activeBids[..numBids];
      DrawFromSide(Sell, table, ids, bids, bound, k, m);
      var gone := Reduce(orderIndex, best, m);
      if gone {
        RemoveAsk(best, k);
      }
      assert activeAsks[..numAsks] == if m == table[best].qty then Without(ids, k) else ids;
      assert activeBids[..numBids] == bids;
    }

    method EnterBid(entry: BookOrder)
      requires Shape() && numBids < MAX_ORDERS && entry.id < MAX_ORDERS
      modifies this`numBids, orderIndex, activeBids
      ensures numBids <= MAX_ORDERS && orderIndex[..] == old(orderIndex[..])[entry.id := entry]
      ensures activeBids[..numBids] == old(activeBids[..numBids]) + [entry.id]
    {
      orderIndex[entry.id] := entry;
      Append(activeBids, numBids, entry.id);
      numBids := numBids + 1;
    }

    /** Enter the rest of a buy order in its table slot and at the end of the bid array. */
    method AppendBid(id: nat, price: nat, qty: nat, ghost bound: nat)
      requires ListsOk(bound) && bound < id < MAX_ORDERS && qty > 0
      modifies this`numBids, orderIndex, activeBids
      ensures ListsOk(id)
      ensures Abstract() == Book(Insert(Buy, old(Abstract()).bids, Rest(id, price, qty)), old(Abstract()).asks)
    {
      ghost var table, ids := orderIndex[..], activeBids[..numBids];
      ghost var asks := activeAsks[..numAsks];
      hide ListOk, Records, Arrange, Insert, Ascending;
      Unlisted(Buy, table, ids, bound, id);
      var entry := BookOrder(id, price, qty, Buy, true);
      AppendToSide(Buy, table, ids, asks, bound, entry);
      EnterBid(entry);
      assert activeAsks[..numAsks] == asks;
      assert activeBids[..numBids] == ids + [id];
      assert orderIndex[..] == table[id := entry];
    }

    method MatchBuyOrder(id: nat, price: nat, qty: nat, isMarket: bool, ghost bound: nat) returns (trades: seq<Trade>)
      requires ListsOk(bound) && bound < id
      modifies this`numBids, this`numAsks, orderIndex, activeBids, activeAsks
      ensures ListsOk(id)
      ensures var o := Order(id, price, qty, Buy, isMarket);
              var f := MatchAll(o, old(Abstract()).asks);
              && trades == Report(f.trades) && Abstract() == Settle(old(Abstract()), Restable(o), f)
              && BookPrices.WithinLimit(o, trades) && BookPrices.OnlyRestOf(o, old(Abstract()).bids, Abstract().bids)
    {
      hide ListOk, Records, Arrange, BestPos, TakeBest, Match, Insert, BookPrices.WithinLimit, BookPrices.OnlyRestOf;
      var remainingQty: nat := qty;
      trades := [];
      ghost var o := Order(id, price, qty, Buy, isMarket);
      LimitKept(Abstract(), o);
      ghost var made: seq<Trade> := [];
      ghost var cap := |Abstract().asks|;
      ResumeNothing(Match(o, qty, Abstract().asks, cap));
      while remainingQty > 0
        invariant ListsOk(bound) && numBids == old(numBids)
        invariant Abstract().bids == old(Abstract()).bids
        invariant |made| <= cap && (remainingQty > 0 ==> |made| + |Abstract().asks| <= cap)
        invariant trades == Report(made)
        invariant Resume(made, Match(o, remainingQty, Abstract().asks, cap - |made|)) == MatchAll(o, old(Abstract()).asks)
        decreases remainingQty
      {
        var best, k := ScanBest(Sell, orderIndex, activeAsks, numAsks, bound);
        if best == -1 {
          NoRecords(Sell, orderIndex[..]);
          assert activeAsks[..numAsks] == [];
          break;
        }
        BestListed(Sell, orderIndex[..], activeAsks[..numAsks], bound);
        assert activeAsks[..numAsks][k] == activeAsks[k];
        if !isMarket && price < orderIndex[best].price { break; }
        var matchQty := if remainingQty < orderIndex[best].qty then remainingQty else orderIndex[best].qty;
        var trade := Trade(orderIndex[best].id, id, orderIndex[best].price, matchQty);
        if |trades| < MAX_TRADES_PER_ORDER {
          trades := trades + [Narrow(trade)];
        }
        ReportAppend(made, trade);
        MatchStep(o, remainingQty, Abstract().asks, cap - |made|, made);
        TakeBestLength(Abstract().asks, matchQty);
        made := made + [trade];
        remainingQty := remainingQty - matchQty;
        DrawAsk(best, k, matchQty, bound);
      }
      MatchDone(o, remainingQty, Abstract().asks, cap - |made|, made);
      if !isMarket && remainingQty > 0 && id < MAX_ORDERS {
        AppendBid(id, price, remainingQty, bound);
      } else {
        RaiseMax(Buy, orderIndex[..], activeBids[..numBids], bound, id);
        RaiseMax(Sell, orderIndex[..], activeAsks[..numAsks], bound, id);
      }
    }

    /** Take `m` units from the best bid; a bid used up becomes inactive and leaves its array. */
    method DrawBid(best: Slot, ghost k: nat, m: nat, ghost bound: nat)
      requires ListsOk(bound) && k < numBids && best == activeBids[k]
      requires k == BestPos(Buy, Records(orderIndex[..], activeBids[..numBids])) && m <= orderIndex[best].qty
      requires Abstract().bids != [] && m <= Abstract().bids[0].quantity
      modifies this`numBids, orderIndex, activeBids
      ensures ListsOk(bound)
      ensures Abstract() == Book(TakeBest(old(Abstract()).bids, m), old(Abstract()).asks)
    {
      hide ListOk, Records, Arrange, BestPos, TakeBest, Without, Ascending, DrawnTable;
      ghost var table, ids, asks := orderIndex[..], activeBids[..numBids], activeAsks[..numAsks];
      DrawFromSide(Buy, table, ids, asks, bound, k, m);
      var gone := Reduce(orderIndex, best, m);
      if gone {
        RemoveBid(best, k);
      }
      assert activeBids[..numBids] == if m == table[best].qty then Without(ids, k) else ids;
      assert activeAsks[..numAsks] == asks;
    }

    method EnterAsk(entry: BookOrder)
      requires Shape() && numAsks < MAX_ORDERS && entry.id < MAX_ORDERS
      modifies this`numAsks, orderIndex, activeAsks
      ensures numAsks <= MAX_ORDERS && orderIndex[..] == old(orderIndex[..])[entry.id := entry]
      ensures activeAsks[..numAsks] == old(activeAsks[..numAsks]) + [entry.id]
    {
      orderIndex[entry.id] := entry;
      Append(activeAsks, numAsks, entry.id);
      numAsks := numAsks + 1;
    }

    /** Enter the rest of a sell order in its table slot and at the end of the ask array. */
    method AppendAsk(id: nat, price: nat, qty: nat, ghost bound: nat)
      requires ListsOk(bound) && bound < id < MAX_ORDERS && qty > 0
      modifies this`numAsks, orderIndex, activeAsks
      ensures ListsOk(id)
      ensures Abstract() == Book(old(Abstract()).bids, Insert(Sell, old(Abstract()).asks, Rest(id, price, qty)))
    {
      ghost var table, ids := orderIndex[..], activeAsks[..numAsks];
      ghost var bids := activeBids[..numBids];
      hide ListOk, Records, Arrange, Insert, Ascending;
      Unlisted(Sell, table, ids, bound, id);
      var entry := BookOrder(id, price, qty, Sell, true);
      AppendToSide(Sell, table, ids, bids, bound, entry);
      EnterAsk(entry);
      assert activeBids[..numBids] == bids;
      assert activeAsks[..numAsks] == ids + [id];
      assert orderIndex[..] == table[id := entry];
    }

    method MatchSellOrder(id: nat, price: nat, qty: nat, isMarket: bool, ghost bound: nat) returns (trades: seq<Trade>)
      requires ListsOk(bound) && bound < id
      modifies this`numAsks, this`numBids, orderIndex, activeAsks, activeBids
      ensures ListsOk(id)
      ensures var o := Order(id, price, qty, Sell, isMarket);
              var f := MatchAll(o, old(Abstract()).bids);
              && trades == Report(f.trades) && Abstract() == Settle(old(Abstract()), Restable(o), f)
              && BookPrices.WithinLimit(o, trades) && BookPrices.OnlyRestOf(o, old(Abstract()).asks, Abstract().asks)
    {
      hide ListOk, Records, Arrange, BestPos, TakeBest, Match, Insert, BookPrices.WithinLimit, BookPrices.OnlyRestOf;
      var remainingQty: nat := qty;
      trades := [];
      ghost var o := Order(id, price, qty, Sell, isMarket);
      LimitKept(Abstract(), o);
      ghost var made: seq<Trade> := [];
      ghost var cap := |Abstract().bids|;
      ResumeNothing(Match(o, qty, Abstract().bids, cap));
      while remainingQty > 0
        invariant ListsOk(bound) && numAsks == old(numAsks)
        invariant Abstract().asks == old(Abstract()).asks
        invariant |made| <= cap && (remainingQty > 0 ==> |made| + |Abstract().bids| <= cap)
        invariant trades == Report(made)
        invariant Resume(made, Match(o, remainingQty, Abstract().bids, cap - |made|)) == MatchAll(o, old(Abstract()).bids)
        decreases remainingQty
      {
        var best, k := ScanBest(Buy, orderIndex, activeBids, numBids, bound);
        if best == -1 {
          NoRecords(Buy, orderIndex[..]);
          assert activeBids[..numBids] == [];
          break;
        }
        BestListed(Buy, orderIndex[..], activeBids[..numBids], bound);
        assert activeBids[..numBids][k] == activeBids[k];
        if !isMarket && price > orderIndex[best].price { break; }
        var matchQty := if remainingQty < orderIndex[best].qty then remainingQty else orderIndex[best].qty;
        var trade := Trade(orderIndex[best].id, id, orderIndex[best].price, matchQty);
        if |trades| < MAX_TRADES_PER_ORDER {
          trades := trades + [Narrow(trade)];
        }
        ReportAppend(made, trade);
        MatchStep(o, remainingQty, Abstract().bids, cap - |made|, made);
        TakeBestLength(Abstract().bids, matchQty);
        made := made + [trade];
        remainingQty := remainingQty - matchQty;
        DrawBid(best, k, matchQty, bound);
      }
      MatchDone(o, remainingQty, Abstract().bids, cap - |made|, made);
      if !isMarket && remainingQty > 0 && id < MAX_ORDERS {
        AppendAsk(id, price, remainingQty, bound);
      } else {
        RaiseMax(Sell, orderIndex[..], activeAsks[..numAsks], bound, id);
        RaiseMax(Buy, orderIndex[..], activeBids[..numBids], bound, id);
      }
    }

    method CancelOrder(id: nat)
      requires Valid()
      modifies this`numBids, this`numAsks, orderIndex, activeBids, activeAsks
      ensures Valid() && Abstract() == Cancel(old(Abstract()), id)
    {
      hide ListOk, Records, Arrange, Remove;
      ghost var table, bids, asks := orderIndex[..], activeBids[..numBids], activeAsks[..numAsks];
      ghost var kb := WhereListed(Buy, table, bids, maxOrderId, id);
      ghost var ka := WhereListed(Sell, table, asks, maxOrderId, id);
      if id < MAX_ORDERS && orderIndex[id].active {
        orderIndex[id] := orderIndex[id].(active := false);
        assert orderIndex[..] == table[id := table[id].(active := false)];
        if orderIndex[id].side == Buy {
          CancelListed(Buy, table, bids, maxOrderId, kb);
          OtherList(Sell, table, orderIndex[..], asks, maxOrderId, id);
          Listed(Buy, table, bids, maxOrderId, kb);
          RemoveBid(id, kb);
        } else {
          CancelListed(Sell, table, asks, maxOrderId, ka);
          OtherList(Buy, table, orderIndex[..], bids, maxOrderId, id);
          Listed(Sell, table, asks, maxOrderId, ka);
          RemoveAsk(id, ka);
        }
      }
    }

    /** One decoded request.  Ids of limit and market orders must rise; market orders carry no price. */
    method Handle(r: Request) returns (trades: seq<Trade>)
      requires Valid()
      modifies this, orderIndex, activeBids, activeAsks
      ensures Valid()
      ensures Outcome(Abstract(), trades) == Handled(old(Abstract()), old(maxOrderId), r)
      ensures maxOrderId == if r.Place? && r.order.id > old(maxOrderId) then r.order.id else old(maxOrderId)
    {
      hide ListOk, Records, Arrange, Match, Insert, Remove;
      trades := [];
      match r {
        case Place(o) =>
          if o.id > maxOrderId {
            ghost var bound := maxOrderId;
            maxOrderId := o.id;
            var price := if o.isMarket then 0 else o.price;
            if o.isMarket { PricelessMarket(o, o.quantity, Abstract().Against(o.side), |Abstract().Against(o.side)|); }
            if o.side == Sell {
              trades := MatchSellOrder(o.id, price, o.quantity, o.isMarket, bound);
            } else {
              trades := MatchBuyOrder(o.id, price, o.quantity, o.isMarket, bound);
            }
          }
        case Withdraw(id) =>
          CancelOrder(id);
      }
    }
  }
}
