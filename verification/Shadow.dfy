/** The shadow engine's order book: price levels in priority order, each a first-in first-out queue,
    beside an index by order id.  A cancel only flags the index entry; the entry stays queued until
    matching sweeps it away.

    An ordered map is modelled as the sequence of its entries in key order (bids by descending price,
    asks by ascending price), the hash map as a map. */
module Shadow {
  import opened Lob

  const MAX_TRADES_PER_MATCH: nat := 1024

  datatype Entry = Entry(price: nat, side: Side, isCanceled: bool)

  datatype Level = Level(price: nat, queue: seq<Order>)

  // ---------------------------------------------------------------- representation

  /** Every queued order of one side, dead or live, best level first. */
  ghost function Queued(levels: seq<Level>): seq<Order> {
    if levels == [] then [] else levels[0].queue + Queued(levels[1..])
  }

  ghost function QueuedIds(q: seq<Order>): set<nat> { set o | o in q :: o.id }

  predicate Dead(index: map<nat, Entry>, id: nat) {
    id !in index || index[id].isCanceled
  }

  ghost function Waiting(o: Order): Rest { Rest(o.id, o.price, o.quantity) }

  /** The live orders among the queued ones. */
  ghost function LiveOf(q: seq<Order>, index: map<nat, Entry>): seq<Rest> {
    if q == [] then []
    else if Dead(index, q[0].id) then LiveOf(q[1..], index)
    else [Waiting(q[0])] + LiveOf(q[1..], index)
  }

  ghost predicate AllAt(price: nat, queue: seq<Order>) {
    forall o | o in queue :: o.price == price
  }

  /** Levels are in priority order and every order sits at its own price. */
  ghost predicate LadderOk(side: Side, levels: seq<Level>) {
    levels != [] ==>
      && AllAt(levels[0].price, levels[0].queue)
      && (|levels| > 1 ==> Better(side, levels[0].price, levels[1].price))
      && LadderOk(side, levels[1..])
  }

  /** The queued orders of one side and the index entries of that side are in bijection. */
  ghost predicate SideOk(side: Side, q: seq<Order>, index: map<nat, Entry>) {
    && (forall k | 0 <= k < |q| ::
          q[k].quantity > 0 && q[k].id in index
          && index[q[k].id].side == side && index[q[k].id].price == q[k].price)
    && (forall j, k | 0 <= j < k < |q| :: q[j].id != q[k].id)
    && (forall id | id in index && index[id].side == side :: id in QueuedIds(q))
  }

  /** `after` is `before` less some entries of one side. */
  ghost predicate Shrunk(side: Side, after: map<nat, Entry>, before: map<nat, Entry>) {
    && (forall id | id in after :: id in before && after[id] == before[id])
    && (forall id | id in before && id !in after :: before[id].side == side)
  }

  ghost predicate NoEmptyLevel(levels: seq<Level>) {
    levels != [] ==> levels[0].queue != [] && NoEmptyLevel(levels[1..])
  }

  // ---------------------------------------------------------------- lemmas on queues

  lemma {:induction false} LiveConcat(a: seq<Order>, b: seq<Order>, index: map<nat, Entry>)
    ensures LiveOf(a + b, index) == LiveOf(a, index) + LiveOf(b, index)
  {
    if a == [] {
      assert a + b == b;
    } else {
      assert (a + b)[1..] == a[1..] + b;
      LiveConcat(a[1..], b, index);
    }
  }

  lemma {:induction false} LiveSame(q: seq<Order>, index: map<nat, Entry>, index': map<nat, Entry>)
    requires forall o | o in q :: Dead(index, o.id) == Dead(index', o.id)
    ensures LiveOf(q, index) == LiveOf(q, index')
  {
    if q != [] {
      forall o | o in q[1..] ensures o in q {}
      LiveSame(q[1..], index, index');
    }
  }

  lemma {:induction false} LiveMembers(q: seq<Order>, index: map<nat, Entry>)
    ensures forall x | x in LiveOf(q, index) :: exists o :: o in q && x == Waiting(o) && !Dead(index, o.id)
    ensures forall o | o in q && !Dead(index, o.id) :: Waiting(o) in LiveOf(q, index)
  {
    if q != [] {
      assert q == [q[0]] + q[1..];
      LiveMembers(q[1..], index);
      forall x | x in LiveOf(q, index)
        ensures exists o :: o in q && x == Waiting(o) && !Dead(index, o.id)
      {
        if x in LiveOf(q[1..], index) {
          var o :| o in q[1..] && x == Waiting(o) && !Dead(index, o.id);
          assert o in q;
        } else {
          assert q[0] in q;
        }
      }
    }
  }

  lemma QueuedHead(levels: seq<Level>)
    requires levels != []
    ensures Queued(levels) == levels[0].queue + Queued(levels[1..])
    ensures levels[0].queue == [] ==> Queued(levels) == Queued(levels[1..])
  {
  }

  lemma QueuedSetHead(levels: seq<Level>, l: Level)
    requires levels != []
    ensures Queued([l] + levels[1..]) == l.queue + Queued(levels[1..])
  {
    assert ([l] + levels[1..])[1..] == levels[1..];
  }

  /** No queued order is priced better than the first level. */
  lemma {:induction false} HeadLevelBest(side: Side, levels: seq<Level>)
    requires LadderOk(side, levels) && levels != []
    ensures forall o | o in Queued(levels) :: !Better(side, o.price, levels[0].price)
    ensures forall o | o in Queued(levels[1..]) :: Better(side, levels[0].price, o.price)
  {
    if |levels| > 1 {
      HeadLevelBest(side, levels[1..]);
    }
  }

  /** When the first level does not cross, neither does the best live order. */
  lemma NoCross(side: Side, levels: seq<Level>, index: map<nat, Entry>, o: Order)
    requires LadderOk(side, levels) && levels != []
    requires side == Opposite(o.side) && !Crosses(o, levels[0].price)
    ensures var live := LiveOf(Queued(levels), index); live == [] || !Crosses(o, live[0].price)
  {
    var live := LiveOf(Queued(levels), index);
    if live != [] {
      LiveMembers(Queued(levels), index);
      assert live[0] in live;
      HeadLevelBest(side, levels);
    }
  }

  lemma PopFrontSide(side: Side, q: seq<Order>, index: map<nat, Entry>)
    requires SideOk(side, q, index) && q != []
    ensures SideOk(side, q[1..], index - {q[0].id})
  {
    var t, index' := q[1..], index - {q[0].id};
    assert forall k | 0 <= k < |t| :: t[k] == q[k + 1] && t[k].id != q[0].id;
    forall id | id in index' && index'[id].side == side ensures id in QueuedIds(t) {
      assert id in QueuedIds(q);
      var k :| 0 <= k < |q| && q[k].id == id;
      assert q[k] == t[k - 1];
    }
  }

  /** Dropping the first queued order and its entry. */
  lemma PopFront(side: Side, q: seq<Order>, index: map<nat, Entry>)
    requires SideOk(side, q, index) && q != []
    ensures var index' := index - {q[0].id};
            && SideOk(side, q[1..], index') && Shrunk(side, index', index)
            && LiveOf(q, index)
               == (if Dead(index, q[0].id) then [] else [Waiting(q[0])]) + LiveOf(q[1..], index')
  {
    var index' := index - {q[0].id};
    PopFrontSide(side, q, index);
    forall o | o in q[1..] ensures Dead(index, o.id) == Dead(index', o.id) {
      var k :| 0 <= k < |q[1..]| && o == q[1..][k];
      assert q[0].id != q[k + 1].id;
    }
    LiveSame(q[1..], index, index');
  }

  /** Reducing the first queued order, which stays in place. */
  lemma ReduceFront(side: Side, q: seq<Order>, index: map<nat, Entry>, left: nat)
    requires SideOk(side, q, index) && q != [] && !Dead(index, q[0].id) && left > 0
    ensures var q' := [q[0].(quantity := left)] + q[1..];
            SideOk(side, q', index)
            && LiveOf(q', index) == [Rest(q[0].id, q[0].price, left)] + LiveOf(q[1..], index)
  {
    var q' := [q[0].(quantity := left)] + q[1..];
    assert q'[1..] == q[1..];
    assert forall k | 0 <= k < |q| :: q'[k].id == q[k].id && q'[k].price == q[k].price;
    forall id | id in index && index[id].side == side ensures id in QueuedIds(q') {
      assert id in QueuedIds(q);
      var k :| 0 <= k < |q| && q[k].id == id;
      assert q'[k] in q';
    }
  }

  /** Entries removed on one side leave the other side as it was. */
  lemma OtherSide(side: Side, q: seq<Order>, before: map<nat, Entry>, after: map<nat, Entry>)
    requires SideOk(side, q, before) && Shrunk(Opposite(side), after, before)
    ensures SideOk(side, q, after) && LiveOf(q, after) == LiveOf(q, before)
  {
    LiveSame(q, before, after);
  }

  // ---------------------------------------------------------------- joining a queue

  /** Find or make the level of an order and put the order at the end of its queue. */
  function PushBack(side: Side, levels: seq<Level>, o: Order): seq<Level> {
    if levels == [] || Better(side, o.price, levels[0].price) then [Level(o.price, [o])] + levels
    else if levels[0].price == o.price then [Level(o.price, levels[0].queue + [o])] + levels[1..]
    else [levels[0]] + PushBack(side, levels[1..], o)
  }

  /** The queue position of a newcomer: behind everything at least as good, before everything worse. */
  lemma {:induction false} PushBackAt(side: Side, levels: seq<Level>, o: Order) returns (a: seq<Order>, b: seq<Order>)
    requires LadderOk(side, levels)
    ensures Queued(levels) == a + b && Queued(PushBack(side, levels, o)) == a + [o] + b
    ensures forall x | x in a :: !Better(side, o.price, x.price)
    ensures forall x | x in b :: Better(side, o.price, x.price)
  {
    if levels == [] || Better(side, o.price, levels[0].price) {
      a, b := [], Queued(levels);
      assert ([Level(o.price, [o])] + levels)[1..] == levels;
      if levels != [] { HeadLevelBest(side, levels); }
    } else {
      var head := levels[0].queue;
      HeadLevelBest(side, levels);
      if levels[0].price == o.price {
        a, b := head, Queued(levels[1..]);
        QueuedSetHead(levels, Level(o.price, head + [o]));
      } else {
        var a', b' := PushBackAt(side, levels[1..], o);
        a, b := head + a', b';
        assert ([levels[0]] + PushBack(side, levels[1..], o))[1..] == PushBack(side, levels[1..], o);
        assert head + (a' + b') == a + b;
        assert head + (a' + [o] + b') == a + [o] + b;
      }
    }
  }

  lemma {:induction false} PushBackLadder(side: Side, levels: seq<Level>, o: Order)
    requires LadderOk(side, levels)
    ensures LadderOk(side, PushBack(side, levels, o))
    ensures NoEmptyLevel(levels) ==> NoEmptyLevel(PushBack(side, levels, o))
    ensures var t := PushBack(side, levels, o);
            t[0].price == if levels == [] || Better(side, o.price, levels[0].price) then o.price else levels[0].price
  {
    var t := PushBack(side, levels, o);
    if levels == [] || Better(side, o.price, levels[0].price) {
      assert t[1..] == levels;
    } else if levels[0].price == o.price {
      assert t[1..] == levels[1..];
      assert |t| > 1 ==> t[1] == levels[1];
    } else {
      PushBackLadder(side, levels[1..], o);
      assert t[1..] == PushBack(side, levels[1..], o);
      assert t[1] == t[1..][0];
    }
  }
}
