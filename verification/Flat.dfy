/** Flat lists of orders in arrival order, and how they stand for one side of the reference book. */
module Flat {
  import opened Lob

  const MAX_ORDERS: nat := 131072

  /** An index into the order table. */
  type Slot = n: nat | n < MAX_ORDERS

  datatype BookOrder = BookOrder(id: nat, price: nat, qty: nat, side: Side, active: bool)

  // ---------------------------------------------------------------- arrival order against priority order

  /** Stable insertion by price: the priority order of a list kept in arrival order. */
  ghost function Arrange(side: Side, flat: seq<Rest>): seq<Rest> {
    if flat == [] then []
    else Insert(side, Arrange(side, flat[..|flat| - 1]), flat[|flat| - 1])
  }

  /** What a left-to-right scan that moves only to a strictly better price ends on. */
  ghost function BestPos(side: Side, flat: seq<Rest>): (k: nat)
    requires flat != []
    ensures k < |flat|
  {
    var n := |flat| - 1;
    if n == 0 then 0
    else
      var b := BestPos(side, flat[..n]);
      if Better(side, flat[n].price, flat[b].price) then n else b
  }

  function Without<T>(s: seq<T>, k: nat): seq<T>
    requires k < |s|
    ensures |Without(s, k)| == |s| - 1
  {
    s[..k] + s[k + 1..]
  }

  lemma {:induction false} ArrangeSorted(side: Side, flat: seq<Rest>)
    ensures Sorted(side, Arrange(side, flat))
    ensures forall x :: x in Arrange(side, flat) <==> x in flat
    ensures |Arrange(side, flat)| == |flat|
  {
    if flat != [] {
      var n := |flat| - 1;
      ArrangeSorted(side, flat[..n]);
      InsertKeeps(side, Arrange(side, flat[..n]), flat[n]);
      InsertMembers(side, Arrange(side, flat[..n]), flat[n]);
      assert flat == flat[..n] + [flat[n]];
    }
  }

  /** The scan finds the head of the priority order. */
  lemma {:induction false} ScanFindsBest(side: Side, flat: seq<Rest>)
    requires flat != []
    ensures Arrange(side, flat) != [] && Arrange(side, flat)[0] == flat[BestPos(side, flat)]
  {
    var n := |flat| - 1;
    if n > 0 {
      ScanFindsBest(side, flat[..n]);
    }
  }

  /** One unfolding of an insertion. */
  lemma InsertOnce(side: Side, s: seq<Rest>, r: Rest)
    requires s != []
    ensures Better(side, r.price, s[0].price) ==> Insert(side, s, r) == [r] + s && Insert(side, s, r)[1..] == s
    ensures !Better(side, r.price, s[0].price) ==>
              Insert(side, s, r) == [s[0]] + Insert(side, s[1..], r) && Insert(side, s, r)[1..] == Insert(side, s[1..], r)
  {
  }

  /** Giving the best order another quantity. */
  lemma {:induction false} ArrangeSet(side: Side, flat: seq<Rest>, r: Rest)
    requires flat != [] && r.price == flat[BestPos(side, flat)].price
    ensures Arrange(side, flat[BestPos(side, flat) := r]) == [r] + Arrange(side, flat)[1..]
  {
    var n, k := |flat| - 1, BestPos(side, flat);
    var t := flat[k := r];
    if n > 0 {
      ScanFindsBest(side, flat[..n]);
      if k == n {
        assert t[..n] == flat[..n];
      } else {
        ArrangeSet(side, flat[..n], r);
        assert t[..n] == flat[..n][k := r];
      }
    }
  }

  lemma WithoutLast<T>(s: seq<T>, k: nat)
    requires k < |s|
    ensures var n := |s| - 1;
            Without(s, k) == if k == n then s[..n] else Without(s[..n], k) + [s[n]]
  {
    var n := |s| - 1;
    if k < n {
      assert s[k + 1..] == s[..n][k + 1..] + [s[n]];
    }
  }

  /** Taking the best order out. */
  lemma {:induction false} ArrangeDrop(side: Side, flat: seq<Rest>)
    requires flat != []
    ensures Arrange(side, Without(flat, BestPos(side, flat))) == Arrange(side, flat)[1..]
  {
    var n, k := |flat| - 1, BestPos(side, flat);
    var t := Without(flat, k);
    if n == 0 {
      assert t == [];
    } else {
      hide Insert;
      ScanFindsBest(side, flat[..n]);
      InsertOnce(side, Arrange(side, flat[..n]), flat[n]);
      WithoutLast(flat, k);
      hide Without;
      if k < n {
        ArrangeDrop(side, flat[..n]);
        var u := Without(flat[..n], k);
        assert t[..n - 1] == u;
        assert Arrange(side, t) == Insert(side, Arrange(side, u), flat[n]);
      }
    }
  }

  /** Taking any order out, by its id. */
  lemma {:induction false} ArrangeRemove(side: Side, flat: seq<Rest>, id: nat)
    ensures Arrange(side, Remove(flat, id)) == Remove(Arrange(side, flat), id)
  {
    if flat != [] {
      var n := |flat| - 1;
      var front, last := flat[..n], flat[n];
      assert flat == front + [last];
      RemoveConcat(front, [last], id);
      ArrangeRemove(side, front, id);
      ArrangeSorted(side, front);
      InsertRemove(side, Arrange(side, front), last, id);
      var t := Remove(front, id);
      assert Remove([last], id) == if last.id == id then [] else [last];
      assert t + [] == t;
      assert (t + [last])[..|t|] == t;
    }
  }

  lemma {:induction false} RemoveOne(flat: seq<Rest>, k: nat)
    requires k < |flat|
    requires forall j | 0 <= j < |flat| && j != k :: flat[j].id != flat[k].id
    ensures Remove(flat, flat[k].id) == Without(flat, k)
  {
    if k > 0 {
      RemoveOne(flat[1..], k - 1);
    } else {
      forall x | x in flat[1..] ensures x.id != flat[0].id {}
      RemoveAbsent(flat[1..], flat[0].id);
    }
  }

  // ---------------------------------------------------------------- one side, as an id list over the order table

  ghost function Records(table: seq<BookOrder>, ids: seq<Slot>): (flat: seq<Rest>)
    requires |table| == MAX_ORDERS
    ensures |flat| == |ids|
    ensures forall i | 0 <= i < |ids| :: flat[i] == Rest(ids[i], table[ids[i]].price, table[ids[i]].qty)
  {
    seq(|ids|, i requires 0 <= i < |ids| => Rest(ids[i], table[ids[i]].price, table[ids[i]].qty))
  }

  ghost predicate Ascending(ids: seq<Slot>) {
    forall i, j | 0 <= i < j < |ids| :: ids[i] < ids[j]
  }

  /** The list holds exactly the active orders of its side, in ascending id. */
  ghost predicate ListOk(side: Side, table: seq<BookOrder>, ids: seq<Slot>, maxId: nat)
    requires |table| == MAX_ORDERS
  {
    && Ascending(ids)
    && (forall i | 0 <= i < |ids| ::
          0 < ids[i] <= maxId && table[ids[i]].id == ids[i]
          && table[ids[i]].side == side && table[ids[i]].active && table[ids[i]].qty > 0)
    && (forall id: Slot | table[id].active && table[id].side == side :: id in ids)
  }

  /** Distinct ids below a bound: this is why the append index stays inside the array. */
  lemma {:induction false} AscendingBound(ids: seq<Slot>, bound: nat)
    requires Ascending(ids) && forall i | 0 <= i < |ids| :: 0 < ids[i] < bound
    ensures |ids| < bound || (ids == [] && bound == 0)
  {
    if ids != [] {
      var n := |ids| - 1;
      forall i | 0 <= i < n ensures 0 < ids[..n][i] < ids[n] {}
      AscendingBound(ids[..n], ids[n]);
    }
  }

  /** The table after the order `id` has given up `m` units. */
  ghost function DrawnTable(table: seq<BookOrder>, id: nat, m: nat): seq<BookOrder>
    requires id < |table| && m <= table[id].qty
  {
    table[id := table[id].(qty := table[id].qty - m, active := table[id].active && m < table[id].qty)]
  }

  /** The list after its `k`-th order has given up `m` units. */
  ghost function DrawnIds(table: seq<BookOrder>, ids: seq<Slot>, k: nat, m: nat): seq<Slot>
    requires |table| == MAX_ORDERS && k < |ids|
  {
    if m == table[ids[k]].qty then Without(ids, k) else ids
  }

  lemma DrawSet(side: Side, table: seq<BookOrder>, ids: seq<Slot>, maxId: nat, k: nat, m: nat)
    requires |table| == MAX_ORDERS && ListOk(side, table, ids, maxId) && k < |ids| && m < table[ids[k]].qty
    ensures var t := DrawnTable(table, ids[k], m);
            && ListOk(side, t, ids, maxId)
            && Records(t, ids) == Records(table, ids)[k := Rest(ids[k], table[ids[k]].price, table[ids[k]].qty - m)]
  {
    var t := DrawnTable(table, ids[k], m);
    assert forall i | 0 <= i < |ids| && i != k :: t[ids[i]] == table[ids[i]];
  }

  lemma WithoutAt<T>(s: seq<T>, k: nat, i: nat)
    requires k < |s| && i < |s| - 1
    ensures Without(s, k)[i] == s[if i < k then i else i + 1]
  {
  }

  lemma WithoutAscending(ids: seq<Slot>, k: nat)
    requires k < |ids| && Ascending(ids)
    ensures Ascending(Without(ids, k))
    ensures forall x :: x in Without(ids, k) <==> x in ids && x != ids[k]
  {
    var u := Without(ids, k);
    forall i, j | 0 <= i < j < |u| ensures u[i] < u[j] {
      WithoutAt(ids, k, i);
      WithoutAt(ids, k, j);
    }
    forall x ensures x in u <==> x in ids && x != ids[k] {
      if x in ids && x != ids[k] {
        var i :| 0 <= i < |ids| && ids[i] == x;
        WithoutAt(ids, k, if i < k then i else i - 1);
      } else if x in u {
        var i :| 0 <= i < |u| && u[i] == x;
        WithoutAt(ids, k, i);
      }
    }
  }

  lemma DropListOk(side: Side, table: seq<BookOrder>, ids: seq<Slot>, maxId: nat, k: nat, t: seq<BookOrder>)
    requires |table| == |t| == MAX_ORDERS && ListOk(side, table, ids, maxId) && k < |ids|
    requires t == table[ids[k] := t[ids[k]]] && !t[ids[k]].active
    ensures ListOk(side, t, Without(ids, k), maxId)
  {
    var u := Without(ids, k);
    WithoutAscending(ids, k);
    hide Without, Ascending;
    forall i | 0 <= i < |u| ensures u[i] != ids[k] && u[i] == ids[if i < k then i else i + 1] {
      WithoutAt(ids, k, i);
      assert u[i] in u;
    }
  }

  /** Deactivating one order and dropping it from the list. */
  lemma DropOne(side: Side, table: seq<BookOrder>, ids: seq<Slot>, maxId: nat, k: nat, qty: nat)
    requires |table| == MAX_ORDERS && ListOk(side, table, ids, maxId) && k < |ids|
    ensures var t := table[ids[k] := table[ids[k]].(qty := qty, active := false)];
            && ListOk(side, t, Without(ids, k), maxId)
            && Records(t, Without(ids, k)) == Without(Records(table, ids), k)
  {
    assert Ascending(ids);
    hide *;
    var t := table[ids[k] := table[ids[k]].(qty := qty, active := false)];
    DropListOk(side, table, ids, maxId, k, t);
    DropRecords(table, t, ids, k);
  }

  lemma DropRecords(table: seq<BookOrder>, t: seq<BookOrder>, ids: seq<Slot>, k: nat)
    requires |table| == |t| == MAX_ORDERS && Ascending(ids) && k < |ids| && t == table[ids[k] := t[ids[k]]]
    ensures Records(t, Without(ids, k)) == Without(Records(table, ids), k)
  {
    var u := Without(ids, k);
    hide Without;
    forall i | 0 <= i < |u| ensures Records(t, u)[i] == Without(Records(table, ids), k)[i] {
      WithoutAt(ids, k, i);
      WithoutAt(Records(table, ids), k, i);
    }
  }

  /** The best order is used up. */
  lemma DrawAll(side: Side, table: seq<BookOrder>, ids: seq<Slot>, maxId: nat, m: nat)
    requires |table| == MAX_ORDERS && ListOk(side, table, ids, maxId) && ids != []
    requires Arrange(side, Records(table, ids)) != [] && Arrange(side, Records(table, ids))[0].quantity == m
    requires m == table[ids[BestPos(side, Records(table, ids))]].qty
    ensures var k := BestPos(side, Records(table, ids));
            var t, u := DrawnTable(table, ids[k], m), DrawnIds(table, ids, k, m);
            ListOk(side, t, u, maxId) && Arrange(side, Records(t, u)) == TakeBest(Arrange(side, Records(table, ids)), m)
  {
    var flat := Records(table, ids);
    var k := BestPos(side, flat);
    var s := Arrange(side, flat);
    assert TakeBest(s, m) == s[1..];
    assert DrawnIds(table, ids, k, m) == Without(ids, k);
    assert DrawnTable(table, ids[k], m) == table[ids[k] := table[ids[k]].(qty := 0, active := false)];
    hide *;
    DropOne(side, table, ids, maxId, k, 0);
    ArrangeDrop(side, flat);
  }

  /** Something is left of the best order. */
  lemma DrawSome(side: Side, table: seq<BookOrder>, ids: seq<Slot>, maxId: nat, m: nat)
    requires |table| == MAX_ORDERS && ListOk(side, table, ids, maxId) && ids != []
    requires Arrange(side, Records(table, ids)) != []
    requires Arrange(side, Records(table, ids))[0] == Records(table, ids)[BestPos(side, Records(table, ids))]
    requires m < table[ids[BestPos(side, Records(table, ids))]].qty
    ensures var k := BestPos(side, Records(table, ids));
            var t, u := DrawnTable(table, ids[k], m), DrawnIds(table, ids, k, m);
            ListOk(side, t, u, maxId) && Arrange(side, Records(t, u)) == TakeBest(Arrange(side, Records(table, ids)), m)
  {
    var flat := Records(table, ids);
    var k := BestPos(side, flat);
    var s := Arrange(side, flat);
    var rest := Rest(ids[k], table[ids[k]].price, table[ids[k]].qty - m);
    assert TakeBest(s, m) == [rest] + s[1..];
    assert DrawnIds(table, ids, k, m) == ids;
    assert rest.price == flat[k].price;
    hide *;
    DrawSet(side, table, ids, maxId, k, m);
    ArrangeSet(side, flat, rest);
  }

  /** Trading against the best order of a side is trading against the best order of the reference side. */
  lemma DrawBest(side: Side, table: seq<BookOrder>, ids: seq<Slot>, maxId: nat, m: nat)
    requires |table| == MAX_ORDERS && ListOk(side, table, ids, maxId) && ids != []
    requires m <= table[ids[BestPos(side, Records(table, ids))]].qty
    ensures Arrange(side, Records(table, ids)) != []
    ensures Arrange(side, Records(table, ids))[0] == Records(table, ids)[BestPos(side, Records(table, ids))]
    ensures var k := BestPos(side, Records(table, ids));
            var t, u := DrawnTable(table, ids[k], m), DrawnIds(table, ids, k, m);
            ListOk(side, t, u, maxId) && Arrange(side, Records(t, u)) == TakeBest(Arrange(side, Records(table, ids)), m)
  {
    var flat := Records(table, ids);
    assert flat[BestPos(side, flat)].quantity == table[ids[BestPos(side, flat)]].qty;
    hide *;
    ScanFindsBest(side, Records(table, ids));
    if m == table[ids[BestPos(side, Records(table, ids))]].qty {
      DrawAll(side, table, ids, maxId, m);
    } else {
      DrawSome(side, table, ids, maxId, m);
    }
  }

  /** A change to an order of the other side is not seen here. */
  lemma OtherList(side: Side, table: seq<BookOrder>, table': seq<BookOrder>, ids: seq<Slot>, maxId: nat, id: Slot)
    requires |table| == |table'| == MAX_ORDERS && ListOk(side, table, ids, maxId)
    requires table' == table[id := table'[id]]
    requires !(table[id].active && table[id].side == side) && !(table'[id].active && table'[id].side == side)
    ensures ListOk(side, table', ids, maxId) && Records(table', ids) == Records(table, ids)
  {
    forall i | 0 <= i < |ids| ensures ids[i] != id && table'[ids[i]] == table[ids[i]] {}
  }

  lemma RaiseMax(side: Side, table: seq<BookOrder>, ids: seq<Slot>, maxId: nat, maxId': nat)
    requires |table| == MAX_ORDERS && ListOk(side, table, ids, maxId) && maxId <= maxId'
    ensures ListOk(side, table, ids, maxId')
  {
  }

  lemma AppendListOk(side: Side, table: seq<BookOrder>, ids: seq<Slot>, maxId: nat, o: BookOrder)
    requires |table| == MAX_ORDERS && ListOk(side, table, ids, maxId) && maxId < o.id < MAX_ORDERS
    requires o.side == side && o.active && o.qty > 0
    ensures ListOk(side, table[o.id := o], ids + [o.id], o.id)
  {
    var t: seq<BookOrder>, u: seq<Slot> := table[o.id := o], ids + [o.id];
    assert forall x :: x in u <==> x in ids || x == o.id;
    forall i | 0 <= i < |ids| ensures u[i] == ids[i] && t[ids[i]] == table[ids[i]] {}
  }

  /** Appending the newest order is the reference insertion. */
  lemma AppendNewest(side: Side, table: seq<BookOrder>, ids: seq<Slot>, maxId: nat, o: BookOrder)
    requires |table| == MAX_ORDERS && ListOk(side, table, ids, maxId) && maxId < o.id < MAX_ORDERS
    requires o.side == side && o.active && o.qty > 0
    ensures var t := table[o.id := o];
            && ListOk(side, t, ids + [o.id], o.id)
            && Arrange(side, Records(t, ids + [o.id]))
               == Insert(side, Arrange(side, Records(table, ids)), Rest(o.id, o.price, o.qty))
  {
    assert forall i | 0 <= i < |ids| :: ids[i] != o.id;
    var rest := Rest(o.id, o.price, o.qty);
    hide *;
    AppendListOk(side, table, ids, maxId, o);
    AppendRecords(table, ids, o);
    ArrangeSnoc(side, Records(table, ids), rest);
  }

  lemma AppendRecords(table: seq<BookOrder>, ids: seq<Slot>, o: BookOrder)
    requires |table| == MAX_ORDERS && o.id < MAX_ORDERS && forall i | 0 <= i < |ids| :: ids[i] != o.id
    ensures Records(table[o.id := o], ids + [o.id]) == Records(table, ids) + [Rest(o.id, o.price, o.qty)]
  {
  }

  lemma ArrangeSnoc(side: Side, flat: seq<Rest>, r: Rest)
    ensures Arrange(side, flat + [r]) == Insert(side, Arrange(side, flat), r)
  {
    assert (flat + [r])[..|flat|] == flat;
  }

  /** Cancelling is removal from the reference side. */
  lemma CancelListed(side: Side, table: seq<BookOrder>, ids: seq<Slot>, maxId: nat, k: nat)
    requires |table| == MAX_ORDERS && ListOk(side, table, ids, maxId) && k < |ids|
    ensures var t := table[ids[k] := table[ids[k]].(active := false)];
            && ListOk(side, t, Without(ids, k), maxId)
            && Arrange(side, Records(t, Without(ids, k))) == Remove(Arrange(side, Records(table, ids)), ids[k])
  {
    DropOne(side, table, ids, maxId, k, table[ids[k]].qty);
    RemoveOne(Records(table, ids), k);
    ArrangeRemove(side, Records(table, ids), ids[k]);
  }

  lemma ArrangeIds(side: Side, table: seq<BookOrder>, ids: seq<Slot>, maxId: nat, id: nat)
    requires |table| == MAX_ORDERS && ListOk(side, table, ids, maxId) && id !in ids
    ensures Remove(Arrange(side, Records(table, ids)), id) == Arrange(side, Records(table, ids))
  {
    ArrangeSorted(side, Records(table, ids));
    RemoveAbsent(Arrange(side, Records(table, ids)), id);
  }
}
