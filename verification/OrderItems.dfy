/**
 The order_items table against the order's list of items: a positional sync that keeps row ids, and
 the total recomputed from the rows.
 */
module OrderItems {
  import opened Common
  import opened Shop

  // ----- totals -----

  function Price(item: Item): int {
    if item.isGift then 0 else item.quantity * item.price
  }

  function Fee(item: Item): int {
    if item.rutTien && item.cashFee.Some? then item.cashFee.value else 0
  }

  function Subtotal(items: seq<Item>): int {
    if items == [] then 0 else Subtotal(items[..|items| - 1]) + Price(items[|items| - 1])
  }

  function CashFees(items: seq<Item>): int {
    if items == [] then 0 else CashFees(items[..|items| - 1]) + Fee(items[|items| - 1])
  }

  /** What an order costs: the items that are no gifts, the cash fees of all items, and shipping. */
  function OrderTotal(items: seq<Item>, shippingFee: int): int {
    Subtotal(items) + CashFees(items) + shippingFee
  }

  lemma {:induction false} SumsFromFront(item: Item, items: seq<Item>)
    ensures Subtotal([item] + items) == Price(item) + Subtotal(items)
    ensures CashFees([item] + items) == Fee(item) + CashFees(items)
  {
    hide Price, Fee;
    if items == [] {
      assert [item] + items == [item] && [item][..0] == [];
    } else {
      assert ([item] + items)[..|items|] == [item] + items[..|items| - 1];
      SumsFromFront(item, items[..|items| - 1]);
    }
  }

  /** Item by item: quantity times price unless it is a gift, the fee of a cash withdrawal, and shipping once. */
  lemma OrderTotalByItem(item: Item, items: seq<Item>, shippingFee: int)
    ensures OrderTotal([], shippingFee) == shippingFee
    ensures OrderTotal([item] + items, shippingFee)
            == OrderTotal(items, shippingFee)
               + (if item.isGift then 0 else item.quantity * item.price)
               + (if item.rutTien && item.cashFee.Some? then item.cashFee.value else 0)
  {
    hide Subtotal, CashFees;
    SumsFromFront(item, items);
    NothingToPay();
  }

  lemma NothingToPay()
    ensures Subtotal([]) == CashFees([]) == 0
  {
  }

  // ----- the table -----

  function RowsOf(rows: map<nat, ItemRow>, order: nat): set<nat> {
    set id | id in rows && rows[id].order == order
  }

  predicate DistinctPositions(rows: map<nat, ItemRow>, order: nat) {
    forall i, j :: i in RowsOf(rows, order) && j in RowsOf(rows, order) && rows[i].position == rows[j].position ==>
                     i == j
  }

  /** The order's rows are exactly the items, one row per position. */
  ghost predicate ExactlyItems(rows: map<nat, ItemRow>, order: nat, items: seq<Item>) {
    && (forall id :: id in RowsOf(rows, order) ==>
          0 <= rows[id].position < |items| && rows[id].item == items[rows[id].position])
    && (forall p :: 0 <= p < |items| ==> HasPosition(rows, order, p))
    && DistinctPositions(rows, order)
  }

  /** The row a position maps to: of several rows at one position, the one with the largest id. */
  predicate IsLast(rows: map<nat, ItemRow>, order: nat, id: nat) {
    id in RowsOf(rows, order)
    && forall other :: other in RowsOf(rows, order) && rows[other].position == rows[id].position ==> other <= id
  }

  /** Rows the sync deletes: the last row of a position the new list no longer has. */
  predicate Surplus(rows: map<nat, ItemRow>, order: nat, items: seq<Item>, id: nat) {
    IsLast(rows, order, id) && !(0 <= rows[id].position < |items|)
  }

  predicate HasPosition(rows: map<nat, ItemRow>, order: nat, p: int) {
    exists id :: id in RowsOf(rows, order) && rows[id].position == p
  }

  /**
   What the sync leaves. Other orders and shadowed rows (those whose position a later row shares) stay
   as they are; a surviving position keeps its row id and status; a new position gets one fresh row.
   */
  ghost predicate Synced(before: map<nat, ItemRow>, next: nat, after: map<nat, ItemRow>, order: nat, items: seq<Item>) {
    && (forall id :: id in before && !IsLast(before, order, id) ==> id in after && after[id] == before[id])
    && (forall id :: IsLast(before, order, id) ==>
          if 0 <= before[id].position < |items|
          then id in after && after[id] == before[id].(item := items[before[id].position])
          else id !in after)
    && (forall id :: id in after && id !in before ==> id >= next && NewRow(before, after[id], order, items))
    && (forall p :: 0 <= p < |items| ==> HasPosition(before, order, p) || HasPosition(after, order, p))
    && NewPositionsDiffer(before, after)
  }

  ghost predicate NewPositionsDiffer(before: map<nat, ItemRow>, rows: map<nat, ItemRow>) {
    forall i, j :: i in rows && i !in before && j in rows && j !in before && rows[i].position == rows[j].position ==>
                     i == j
  }

  predicate NewRow(before: map<nat, ItemRow>, row: ItemRow, order: nat, items: seq<Item>) {
    && 0 <= row.position < |items| && !HasPosition(before, order, row.position)
    && row == ItemRow(order, row.position, items[row.position], Pending)
  }

  /** With distinct positions every row of the order is the last at its position. */
  lemma SyncOfDistinctPositions(before: map<nat, ItemRow>, next: nat, after: map<nat, ItemRow>, order: nat,
                                items: seq<Item>)
    requires Synced(before, next, after, order, items) && DistinctPositions(before, order)
    ensures ExactlyItems(after, order, items)
  {
    forall id | id in RowsOf(before, order) ensures IsLast(before, order, id) {}
    forall p | 0 <= p < |items| ensures HasPosition(after, order, p) {
      if HasPosition(before, order, p) {
        var id :| id in RowsOf(before, order) && before[id].position == p;
        assert id in RowsOf(after, order) && after[id].position == p;
      }
    }
    forall id | id in RowsOf(after, order)
      ensures 0 <= after[id].position < |items| && after[id].item == items[after[id].position]
      ensures id in before ==> id in RowsOf(before, order) && before[id].position == after[id].position
    {
      assert id in before && id !in RowsOf(before, order) ==> !IsLast(before, order, id);
    }
  }

  /** Of two rows at one position the earlier is neither updated nor deleted. */
  lemma SyncOfSharedPosition(before: map<nat, ItemRow>, next: nat, after: map<nat, ItemRow>, order: nat,
                             items: seq<Item>)
    requires Synced(before, next, after, order, items) && !DistinctPositions(before, order)
    requires forall id :: id in before ==> id < next
    ensures !ExactlyItems(after, order, items)
  {
    var i, j :| i in RowsOf(before, order) && j in RowsOf(before, order)
                && before[i].position == before[j].position && i != j;
    var last := LastAt(before, order, i, next);
    var shadowed := if i == last then j else i;
    assert !IsLast(before, order, shadowed);
    assert shadowed in RowsOf(after, order) && after[shadowed] == before[shadowed];
    if 0 <= before[shadowed].position < |items| {
      assert last in RowsOf(after, order) && after[last].position == after[shadowed].position;
    }
  }

  /** The sync replaces the list exactly when no two existing rows of the order share a position. */
  lemma SyncIsExactIffDistinct(before: map<nat, ItemRow>, next: nat, after: map<nat, ItemRow>, order: nat,
                               items: seq<Item>)
    requires Synced(before, next, after, order, items)
    requires forall id :: id in before ==> id < next
    ensures ExactlyItems(after, order, items) <==> DistinctPositions(before, order)
  {
    hide Synced, ExactlyItems;
    if DistinctPositions(before, order) {
      SyncOfDistinctPositions(before, next, after, order, items);
    } else {
      SyncOfSharedPosition(before, next, after, order, items);
    }
  }

  /** The last row at the position of a given row. */
  lemma LastAt(rows: map<nat, ItemRow>, order: nat, id: nat, next: nat) returns (last: nat)
    requires id in RowsOf(rows, order) && forall i :: i in rows ==> i < next
    ensures IsLast(rows, order, last) && rows[last].position == rows[id].position
    decreases next - id
  {
    if other :| other in RowsOf(rows, order) && rows[other].position == rows[id].position && id < other {
      last := LastAt(rows, order, other, next);
    } else {
      last := id;
    }
  }

  /** Two rows at position 0 (the default position of an added work item): one survives an empty list. */
  lemma SharedPositionLeavesARow()
    ensures var item := Item("cake", 1, 100, false, false, false, None);
            var before := map[0 := ItemRow(0, 0, item, Pending), 1 := ItemRow(0, 0, item, Pending)];
            var after := map[0 := ItemRow(0, 0, item, Pending)];
            Synced(before, 2, after, 0, []) && !ExactlyItems(after, 0, [])
  {
    var item := Item("cake", 1, 100, false, false, false, None);
    var before := map[0 := ItemRow(0, 0, item, Pending), 1 := ItemRow(0, 0, item, Pending)];
    assert 1 in RowsOf(before, 0);
    assert !IsLast(before, 0, 0);
    assert IsLast(before, 0, 1);
    assert 0 in RowsOf(map[0 := ItemRow(0, 0, item, Pending)], 0);
  }

  /** An order whose rows are the same before and after keeps its list. */
  lemma SameRowsSameItems(before: map<nat, ItemRow>, after: map<nat, ItemRow>, order: nat, items: seq<Item>)
    requires ExactlyItems(before, order, items)
    requires forall id :: id in before && before[id].order == order ==> id in after && after[id] == before[id]
    requires forall id :: id in after && after[id].order == order ==> id in before && before[id].order == order
    ensures ExactlyItems(after, order, items)
  {
    assert RowsOf(after, order) == RowsOf(before, order);
    forall p | 0 <= p < |items| ensures HasPosition(after, order, p) {
      assert HasPosition(before, order, p);
      var id :| id in RowsOf(before, order) && before[id].position == p;
      assert id in RowsOf(after, order) && after[id].position == p;
    }
  }

  /** Syncing one order leaves every other order's rows as they were. */
  lemma SyncKeepsOthers(before: map<nat, ItemRow>, next: nat, after: map<nat, ItemRow>, order: nat, items: seq<Item>,
                        other: nat, others: seq<Item>)
    requires Synced(before, next, after, order, items) && other != order && ExactlyItems(before, other, others)
    ensures ExactlyItems(after, other, others)
  {
    hide HasPosition, ExactlyItems, NewPositionsDiffer;
    assert forall id :: id in before && before[id].order == other ==> !IsLast(before, order, id);
    hide IsLast;
    SameRowsSameItems(before, after, other, others);
  }

  /** A photo loses its link when its row is deleted; nothing else about photos changes. */
  function Unlinked(photo: Photo, gone: set<nat>): Photo {
    if photo.workItem.Some? && photo.workItem.value in gone then photo.(workItem := None) else photo
  }

  /** Position to row id over the rows of one order, later ids winning. */
  method IndexByPosition(rows: map<nat, ItemRow>, next: nat, order: nat) returns (byPosition: map<int, nat>)
    requires forall id :: id in rows ==> id < next
    ensures forall p :: p in byPosition ==> IsLast(rows, order, byPosition[p]) && rows[byPosition[p]].position == p
    ensures forall p :: HasPosition(rows, order, p) ==> p in byPosition
  {
    byPosition := map[];
    for id := 0 to next
      invariant forall p :: p in byPosition ==>
                  byPosition[p] in RowsOf(rows, order) && rows[byPosition[p]].position == p
                  && forall other :: other in RowsOf(rows, order) && rows[other].position == p && other < id ==>
                       other <= byPosition[p]
      invariant forall other :: other in RowsOf(rows, order) && other < id ==> rows[other].position in byPosition
    {
      if id in rows && rows[id].order == order {
        byPosition := byPosition[rows[id].position := id];
      }
    }
  }

  /** The table after the first `done` positions of the new list: no row is gone yet. */
  ghost predicate Progress(before: map<nat, ItemRow>, next: nat, rows: map<nat, ItemRow>, order: nat, items: seq<Item>,
                           done: nat)
    requires done <= |items|
  {
    && before.Keys <= rows.Keys
    && (forall id :: id in before ==>
          rows[id] == if IsLast(before, order, id) && 0 <= before[id].position < done
                      then before[id].(item := items[before[id].position]) else before[id])
    && (forall id :: id in rows && id !in before ==>
          id >= next && rows[id].position < done && NewRow(before, rows[id], order, items))
    && NewPositionsDiffer(before, rows)
    && forall q :: 0 <= q < done ==> HasPosition(before, order, q) || HasPosition(rows, order, q)
  }

  lemma StillDiffer(before: map<nat, ItemRow>, rows: map<nat, ItemRow>, id: nat, row: ItemRow)
    requires NewPositionsDiffer(before, rows) && id !in rows
    requires forall i :: i in rows && i !in before ==> rows[i].position < row.position
    ensures NewPositionsDiffer(before, rows[id := row])
  {
  }

  /** Positions stay occupied when rows only get added or change their item. */
  lemma PositionsKept(rows: map<nat, ItemRow>, after: map<nat, ItemRow>, order: nat)
    requires forall id :: id in rows ==>
               id in after && after[id].order == rows[id].order && after[id].position == rows[id].position
    ensures forall q :: HasPosition(rows, order, q) ==> HasPosition(after, order, q)
  {
    forall q | HasPosition(rows, order, q) ensures HasPosition(after, order, q) {
      var r :| r in RowsOf(rows, order) && rows[r].position == q;
      assert r in RowsOf(after, order) && after[r].position == q;
    }
  }

  lemma ProgressByUpdate(before: map<nat, ItemRow>, next: nat, rows: map<nat, ItemRow>, order: nat, items: seq<Item>,
                         p: nat, id: nat)
    requires p < |items| && Progress(before, next, rows, order, items, p)
    requires IsLast(before, order, id) && before[id].position == p
    ensures Progress(before, next, rows[id := rows[id].(item := items[p])], order, items, p + 1)
  {
    hide HasPosition, IsLast, NewRow;
    SoleLast(before, order, id);
    PositionsKept(rows, rows[id := rows[id].(item := items[p])], order);
  }

  /** A position has one last row. */
  lemma SoleLast(rows: map<nat, ItemRow>, order: nat, id: nat)
    requires IsLast(rows, order, id)
    ensures id in rows && HasPosition(rows, order, rows[id].position)
    ensures forall i :: IsLast(rows, order, i) ==> i in rows && (rows[i].position == rows[id].position ==> i == id)
  {
  }

  lemma ProgressByInsert(before: map<nat, ItemRow>, next: nat, rows: map<nat, ItemRow>, order: nat, items: seq<Item>,
                         p: nat, id: nat)
    requires p < |items| && Progress(before, next, rows, order, items, p)
    requires !HasPosition(before, order, p) && id !in rows && id >= next
    ensures Progress(before, next, rows[id := ItemRow(order, p, items[p], Pending)], order, items, p + 1)
  {
    hide HasPosition;
    var after := rows[id := ItemRow(order, p, items[p], Pending)];
    assert NewRow(before, after[id], order, items);
    forall i | i in before && IsLast(before, order, i) ensures before[i].position != p {
      OccupiedBy(before, order, i);
    }
    hide NewRow, IsLast;
    assert HasPosition(after, order, p) by { OccupiedBy(after, order, id); }
    PositionsKept(rows, after, order);
    hide NewPositionsDiffer;
    StillDiffer(before, rows, id, after[id]);
  }

  lemma OccupiedBy(rows: map<nat, ItemRow>, order: nat, id: nat)
    requires id in rows && rows[id].order == order
    ensures HasPosition(rows, order, rows[id].position)
  {
    assert id in RowsOf(rows, order);
  }

  lemma ProgressDone(before: map<nat, ItemRow>, next: nat, rows: map<nat, ItemRow>, order: nat, items: seq<Item>,
                     surplus: set<nat>)
    requires Progress(before, next, rows, order, items, |items|)
    requires forall id :: id in surplus <==> Surplus(before, order, items, id)
    ensures Synced(before, next, rows - surplus, order, items)
    ensures before.Keys - (rows - surplus).Keys == surplus
  {
    var after := rows - surplus;
    forall q | 0 <= q < |items| ensures HasPosition(before, order, q) || HasPosition(after, order, q) {
      if HasPosition(rows, order, q) {
        var r :| r in RowsOf(rows, order) && rows[r].position == q;
        assert r in before ==> rows[r].position == before[r].position;
        assert r !in surplus;
        assert r in RowsOf(after, order) && after[r].position == q;
      }
    }
  }

  /** `_sync_order_items_table`: updates rows position by position, adds missing ones, deletes surplus ones. */
  method SyncOrderItemsTable(db: ShopDb, order: nat, items: seq<Item>)
    requires db.Valid() && order < |db.orders|
    modifies db`itemRows, db`nextItem, db`photos
    ensures db.Valid()
    ensures Synced(old(db.itemRows), old(db.nextItem), db.itemRows, order, items)
    ensures |db.photos| == |old(db.photos)|
    ensures forall i :: 0 <= i < |db.photos| ==>
              db.photos[i] == Unlinked(old(db.photos)[i], old(db.itemRows).Keys - db.itemRows.Keys)
    ensures forall i :: 0 <= i < |db.photos| ==>
              var was := old(db.photos)[i];
              && db.photos[i].order == was.order
              && (was.workItem.Some? && was.workItem.value in db.itemRows ==> db.photos[i].workItem == was.workItem)
              && (was.workItem.Some? && was.workItem.value !in db.itemRows ==> db.photos[i].workItem.None?)
              && (was.workItem.None? ==> db.photos[i].workItem.None?)
  {
    hide Progress, Synced, PhonesKeyed, OrdersKeyed, IsLast, HasPosition;
    var byPosition := IndexByPosition(db.itemRows, db.nextItem, order);
    ghost var before, next := db.itemRows, db.nextItem;
    NoProgress(before, next, order, items);
    for p := 0 to |items|
      modifies db`itemRows, db`nextItem
      invariant ItemsKeyed(db.itemRows, db.nextItem, |db.orders|, db.photos) && next <= db.nextItem
      invariant before.Keys <= db.itemRows.Keys
      invariant Progress(before, next, db.itemRows, order, items, p)
    {
      if p in byPosition {
        var id := byPosition[p];
        ProgressByUpdate(before, next, db.itemRows, order, items, p, id);
        assert id in before by { IsLastExists(before, order, id); }
        db.itemRows := db.itemRows[id := db.itemRows[id].(item := items[p])];
      } else {
        ProgressByInsert(before, next, db.itemRows, order, items, p, db.nextItem);
        db.itemRows := db.itemRows[db.nextItem := ItemRow(order, p, items[p], Pending)];
        db.nextItem := db.nextItem + 1;
      }
    }
    var surplus := set p | p in byPosition && !(0 <= p < |items|) :: byPosition[p];
    SurplusByIndex(before, order, items, byPosition, surplus);
    ProgressDone(before, next, db.itemRows, order, items, surplus);
    var photos := db.photos;
    db.photos := seq(|photos|, i requires 0 <= i < |photos| => Unlinked(photos[i], surplus));
    db.itemRows := db.itemRows - surplus;
  }

  lemma NoProgress(before: map<nat, ItemRow>, next: nat, order: nat, items: seq<Item>)
    ensures Progress(before, next, before, order, items, 0)
  {
  }

  lemma IsLastExists(rows: map<nat, ItemRow>, order: nat, id: nat)
    requires IsLast(rows, order, id)
    ensures id in rows
  {
  }

  lemma SurplusByIndex(rows: map<nat, ItemRow>, order: nat, items: seq<Item>, byPosition: map<int, nat>,
                       surplus: set<nat>)
    requires forall p :: p in byPosition ==> IsLast(rows, order, byPosition[p]) && rows[byPosition[p]].position == p
    requires forall p :: HasPosition(rows, order, p) ==> p in byPosition
    requires surplus == set p | p in byPosition && !(0 <= p < |items|) :: byPosition[p]
    ensures forall id :: id in surplus <==> Surplus(rows, order, items, id)
  {
    forall id: nat | Surplus(rows, order, items, id) ensures id in surplus {
      var p := rows[id].position;
      assert HasPosition(rows, order, p) && byPosition[p] == id;
    }
  }

  // ----- the total, recomputed from the rows -----

  function ItemsAt(rows: map<nat, ItemRow>, ids: seq<nat>): (items: seq<Item>)
    requires forall id :: id in ids ==> id in rows
    ensures |items| == |ids| && forall i :: 0 <= i < |ids| ==> items[i] == rows[ids[i]].item
  {
    seq(|ids|, i requires 0 <= i < |ids| => rows[ids[i]].item)
  }

  /** A listing of the order's rows, each once, in whatever order the query returns them. */
  ghost predicate Lists(rows: map<nat, ItemRow>, order: nat, ids: seq<nat>) {
    && (forall id :: id in ids <==> id in RowsOf(rows, order))
    && forall i, j :: 0 <= i < j < |ids| ==> ids[i] != ids[j]
  }

  /** `_sync_order_items_json`: the order's item list and total are rebuilt from its rows. */
  method RebuildFromRows(db: ShopDb, order: nat) returns (ids: seq<nat>)
    requires db.Valid() && order < |db.orders|
    modifies db`orders
    ensures db.Valid() && Lists(db.itemRows, order, ids)
    ensures var items := ItemsAt(db.itemRows, ids);
            db.orders == old(db.orders)[order := old(db.orders)[order].(
                           items := items, total := OrderTotal(items, old(db.orders)[order].shippingFee))]
  {
    ids := [];
    var subtotal, cashFee := 0, 0;
    var rest := RowsOf(db.itemRows, order);
    while rest != {}
      invariant rest <= RowsOf(db.itemRows, order)
      invariant forall id :: id in ids <==> id in RowsOf(db.itemRows, order) - rest
      invariant forall i, j :: 0 <= i < j < |ids| ==> ids[i] != ids[j]
      invariant subtotal == Subtotal(ItemsAt(db.itemRows, ids)) && cashFee == CashFees(ItemsAt(db.itemRows, ids))
      decreases |rest|
    {
      var id :| id in rest;
      assert id !in ids;
      rest := rest - {id};
      assert ItemsAt(db.itemRows, ids + [id])[..|ids|] == ItemsAt(db.itemRows, ids);
      subtotal := subtotal + Price(db.itemRows[id].item);
      cashFee := cashFee + Fee(db.itemRows[id].item);
      ids := ids + [id];
    }
    var o := db.orders[order];
    db.orders :=
      db.orders[order := o.(items := ItemsAt(db.itemRows, ids), total := subtotal + cashFee + o.shippingFee)];
  }

  predicate SitsAt(rows: map<nat, ItemRow>, ids: seq<nat>, p: int) {
    exists i :: 0 <= i < |ids| && ids[i] in rows && rows[ids[i]].position == p
  }

  /** The ids sit one to one on the positions of the list and carry its items. */
  ghost predicate Places(rows: map<nat, ItemRow>, ids: seq<nat>, items: seq<Item>) {
    && (forall id :: id in ids ==>
          id in rows && 0 <= rows[id].position < |items| && rows[id].item == items[rows[id].position])
    && (forall p :: 0 <= p < |items| ==> SitsAt(rows, ids, p))
    && forall i, j :: 0 <= i < j < |ids| && ids[i] in rows && ids[j] in rows ==>
         rows[ids[i]].position != rows[ids[j]].position
  }

  lemma {:induction false} TotalsWithout(items: seq<Item>, k: nat)
    requires k < |items|
    ensures Subtotal(items) == Subtotal(items[..k] + items[k + 1..]) + Price(items[k])
    ensures CashFees(items) == CashFees(items[..k] + items[k + 1..]) + Fee(items[k])
  {
    hide Price, Fee;
    var n := |items| - 1;
    var init, others := items[..n], items[..k] + items[k + 1..];
    if k == n {
      assert others == init;
    } else {
      TotalsWithout(init, k);
      assert others[..n - 1] == init[..k] + init[k + 1..];
    }
  }

  /** Taking away the row of the last position leaves rows placed on the list without its last item. */
  lemma PlacesWithout(rows: map<nat, ItemRow>, ids: seq<nat>, items: seq<Item>, k: nat)
    requires Places(rows, ids, items) && items != [] && k < |ids| && ids[k] in rows
    requires rows[ids[k]].position == |items| - 1
    ensures Places(rows, ids[..k] + ids[k + 1..], items[..|items| - 1])
  {
    var n := |items| - 1;
    var others := ids[..k] + ids[k + 1..];
    forall id | id in others
      ensures id in rows && 0 <= rows[id].position < n && rows[id].item == items[rows[id].position]
    {
      var j :| 0 <= j < |ids| && j != k && ids[j] == id;
      assert ids[j] in ids;
    }
    forall p | 0 <= p < n ensures SitsAt(rows, others, p) {
      assert SitsAt(rows, ids, p);
      var i :| 0 <= i < |ids| && ids[i] in rows && rows[ids[i]].position == p;
      assert others[if i < k then i else i - 1] == ids[i];
    }
  }

  /** Some row sits at the last position and holds the last item. */
  lemma WhereLast(rows: map<nat, ItemRow>, ids: seq<nat>, items: seq<Item>) returns (k: nat)
    requires Places(rows, ids, items) && items != []
    ensures k < |ids| && ids[k] in rows && rows[ids[k]].position == |items| - 1
    ensures |ItemsAt(rows, ids)| == |ids| && ItemsAt(rows, ids)[k] == items[|items| - 1]
  {
    assert SitsAt(rows, ids, |items| - 1);
    k :| 0 <= k < |ids| && ids[k] in rows && rows[ids[k]].position == |items| - 1;
    assert ids[k] in ids;
  }

  lemma PlacedSomewhere(rows: map<nat, ItemRow>, ids: seq<nat>, items: seq<Item>)
    requires Places(rows, ids, items)
    ensures ids != [] ==> items != []
  {
    if ids != [] {
      assert ids[0] in ids;
    }
  }

  /** Rows placed on a list add up to what the list adds up to, in whatever order they are read. */
  lemma {:induction false} PlacedRowsAddUp(rows: map<nat, ItemRow>, ids: seq<nat>, items: seq<Item>)
    requires Places(rows, ids, items)
    ensures Subtotal(ItemsAt(rows, ids)) == Subtotal(items) && CashFees(ItemsAt(rows, ids)) == CashFees(items)
    decreases |items|
  {
    hide Price, Fee;
    if items == [] {
      PlacedSomewhere(rows, ids, items);
    } else {
      var k := WhereLast(rows, ids, items);
      var others := ids[..k] + ids[k + 1..];
      PlacesWithout(rows, ids, items, k);
      PlacedRowsAddUp(rows, others, items[..|items| - 1]);
      assert forall id :: id in ids ==> id in rows;
      assert forall id :: id in others ==> id in rows;
      hide Places, ItemsAt;
      TotalsWithout(ItemsAt(rows, ids), k);
      ItemsAtWithout(rows, ids, k);
    }
  }

  lemma ItemsAtWithout(rows: map<nat, ItemRow>, ids: seq<nat>, k: nat)
    requires k < |ids| && forall id :: id in ids ==> id in rows
    ensures forall id :: id in ids[..k] + ids[k + 1..] ==> id in rows
    ensures ItemsAt(rows, ids[..k] + ids[k + 1..]) == ItemsAt(rows, ids)[..k] + ItemsAt(rows, ids)[k + 1..]
  {
  }

  /** Once the rows are exactly the items, rebuilding from the rows gives the total the edit stored. */
  lemma RebuiltTotalAgrees(rows: map<nat, ItemRow>, order: nat, items: seq<Item>, ids: seq<nat>, shippingFee: int)
    requires ExactlyItems(rows, order, items) && Lists(rows, order, ids)
    ensures OrderTotal(ItemsAt(rows, ids), shippingFee) == OrderTotal(items, shippingFee)
  {
    forall p | 0 <= p < |items| ensures SitsAt(rows, ids, p) {
      assert HasPosition(rows, order, p);
      var id :| id in RowsOf(rows, order) && rows[id].position == p;
      assert id in ids;
    }
    forall i, j | 0 <= i < j < |ids| && ids[i] in rows && ids[j] in rows
      ensures rows[ids[i]].position != rows[ids[j]].position
    {
      assert ids[i] in ids && ids[j] in ids;
    }
    PlacedRowsAddUp(rows, ids, items);
  }
}
