/**
 Item statuses and the order status derived from them: the order follows its least advanced main
 item, and extras are pulled forward, never back.
 */
module WorkItems {
  import opened Common
  import opened Shop

  function Rank(s: ItemStatus): nat {
    match s
    case Pending => 0
    case Confirmed => 1
    case Working => 2
    case Ready => 3
    case Delivered => 4
    case ItemCancelled => 5
  }

  /** The item status of a rank; the inverse of `Rank`. */
  function StatusOfRank(r: nat): (s: ItemStatus)
    requires r <= 5
    ensures Rank(s) == r
  {
    if r == 0 then Pending else if r == 1 then Confirmed else if r == 2 then Working
    else if r == 3 then Ready else if r == 4 then Delivered else ItemCancelled
  }

  /** The order in which items advance; a cancelled one is beyond all others. */
  lemma StatusesAdvance(a: ItemStatus, b: ItemStatus)
    ensures var order := [Pending, Confirmed, Working, Ready, Delivered, ItemCancelled];
            Rank(a) < Rank(b) <==> exists i, j :: 0 <= i < j < 6 && order[i] == a && order[j] == b
  {
    var order := [Pending, Confirmed, Working, Ready, Delivered, ItemCancelled];
    assert forall s: ItemStatus :: Rank(s) < 6 && order[Rank(s)] == s;
    if Rank(a) < Rank(b) {
      assert order[Rank(a)] == a && order[Rank(b)] == b;
    }
  }

  function ToOrderStatus(s: ItemStatus): OrderStatus {
    match s
    case Pending => OrderNew
    case Confirmed => OrderConfirmed
    case Working => OrderInProgress
    case Ready => OrderReady
    case Delivered => OrderDelivered
    case ItemCancelled => OrderCancelled
  }

  /** The item status extras are pulled to; a completed order has none. */
  function ToItemStatus(s: OrderStatus): Option<ItemStatus> {
    match s
    case OrderNew => Some(Pending)
    case OrderConfirmed => Some(Confirmed)
    case OrderInProgress => Some(Working)
    case OrderReady => Some(Ready)
    case OrderDelivered => Some(Delivered)
    case OrderCompleted => None
    case OrderCancelled => Some(ItemCancelled)
  }

  /** Extras pulled to the status an item status gave the order end at that item status. */
  lemma MappingsAgree(s: ItemStatus)
    ensures ToItemStatus(ToOrderStatus(s)) == Some(s)
  {
  }

  predicate IsMain(row: ItemRow, order: nat) {
    row.order == order && !row.item.isExtra && !row.item.isGift
  }

  predicate IsExtra(row: ItemRow, order: nat) {
    row.order == order && (row.item.isExtra || row.item.isGift)
  }

  /** An item of the order is main unless it is an extra or a gift. */
  lemma MainIffNeither(row: ItemRow, order: nat)
    ensures IsMain(row, order) <==> row.order == order && row.item.isExtra == false && row.item.isGift == false
    ensures IsExtra(row, order) <==> row.order == order && (row.item.isExtra == true || row.item.isGift == true)
  {
  }

  /** `r` is the least rank over all main items, cancelled counting as the highest. */
  ghost predicate LeastMainRank(rows: map<nat, ItemRow>, order: nat, r: nat) {
    && (exists id :: id in rows && IsMain(rows[id], order) && Rank(rows[id].status) == r)
    && forall id :: id in rows && IsMain(rows[id], order) ==> r <= Rank(rows[id].status)
  }

  ghost predicate HasMain(rows: map<nat, ItemRow>, order: nat) {
    exists id :: id in rows && IsMain(rows[id], order)
  }

  method LeastRank(rows: map<nat, ItemRow>, active: set<nat>) returns (least: nat)
    requires active != {} && active <= rows.Keys && forall id :: id in active ==> rows[id].status != ItemCancelled
    ensures least < 5 && (exists id :: id in active && Rank(rows[id].status) == least)
    ensures forall id :: id in active ==> least <= Rank(rows[id].status)
  {
    var rest := active;
    var first :| first in rest;
    least := Rank(rows[first].status);
    rest := rest - {first};
    while rest != {}
      invariant rest <= active && least < 5
      invariant exists id :: id in active && Rank(rows[id].status) == least
      invariant forall id :: id in active - rest ==> least <= Rank(rows[id].status)
      decreases |rest|
    {
      var id :| id in rest;
      rest := rest - {id};
      least := Min(least, Rank(rows[id].status));
    }
  }

  /**
   `_derive_order_status`, with its separate all-cancelled branch: it is the plain minimum of the main
   items' ranks, cancelled included as the top rank.
   */
  method DeriveOrderStatus(rows: map<nat, ItemRow>, order: nat) returns (status: Option<OrderStatus>)
    ensures status.None? <==> !HasMain(rows, order)
    ensures status.Some? ==>
              exists r :: r <= 5 && LeastMainRank(rows, order, r) && status.value == ToOrderStatus(StatusOfRank(r))
  {
    var mains := set id | id in rows && IsMain(rows[id], order);
    assert forall id :: id in rows && IsMain(rows[id], order) <==> id in mains;
    if mains == {} {
      return None;
    }
    var active := set id | id in mains && rows[id].status != ItemCancelled;
    if active == {} {
      ghost var id :| id in mains;
      assert forall i :: i in mains ==> rows[i].status == ItemCancelled || i in active;
      assert LeastMainRank(rows, order, 5);
      return Some(OrderCancelled);
    }
    var least := LeastRank(rows, active);
    assert LeastMainRank(rows, order, least) by {
      forall id | id in rows && IsMain(rows[id], order) ensures least <= Rank(rows[id].status) {
        assert id in mains;
      }
    }
    return Some(ToOrderStatus(StatusOfRank(least)));
  }

  /** Raising main items, cancelling included, never lowers the derived status. */
  lemma RaisingMainsNeverLowers(before: map<nat, ItemRow>, after: map<nat, ItemRow>, order: nat, r: nat, r': nat)
    requires before.Keys == after.Keys
    requires forall id :: id in before ==> IsMain(after[id], order) == IsMain(before[id], order)
    requires forall id :: id in before && IsMain(before[id], order) ==>
               Rank(before[id].status) <= Rank(after[id].status)
    requires LeastMainRank(before, order, r) && LeastMainRank(after, order, r')
    ensures r <= r'
  {
    var id :| id in after && IsMain(after[id], order) && Rank(after[id].status) == r';
    assert IsMain(before[id], order);
  }

  // ----- extras -----

  /** An extra or gift of the order moves up to the target rank; cancelled ones are at the top already. */
  function PulledTo(row: ItemRow, order: nat, target: Option<ItemStatus>): ItemRow {
    if IsExtra(row, order) && target.Some? && Rank(row.status) < Rank(target.value)
    then row.(status := target.value) else row
  }

  function ExtrasSynced(rows: map<nat, ItemRow>, order: nat, status: OrderStatus): map<nat, ItemRow> {
    map id | id in rows :: PulledTo(rows[id], order, ToItemStatus(status))
  }

  method SyncExtrasToOrderStatus(db: ShopDb, order: nat, status: OrderStatus)
    requires db.Valid()
    modifies db`itemRows
    ensures db.Valid() && db.itemRows == ExtrasSynced(old(db.itemRows), order, status)
  {
    var target := ToItemStatus(status);
    if target.Some? {
      var extras := set id | id in db.itemRows && IsExtra(db.itemRows[id], order)
                             && db.itemRows[id].status != ItemCancelled;
      PulledEverywhere(db.itemRows, order, status, extras);
      PulledKeyed(db.itemRows, order, status, db.nextItem, |db.orders|, db.photos);
      PullExtras(db, order, target.value, extras);
    } else {
      assert db.itemRows == ExtrasSynced(db.itemRows, order, status);
    }
  }

  /** The rows with the listed extras pulled up and all others as they are. */
  function PulledSome(rows: map<nat, ItemRow>, order: nat, target: ItemStatus, extras: set<nat>): map<nat, ItemRow> {
    map id | id in rows :: if id in extras then PulledTo(rows[id], order, Some(target)) else rows[id]
  }

  method PullExtras(db: ShopDb, order: nat, target: ItemStatus, extras: set<nat>)
    requires forall id :: id in extras ==> id in db.itemRows && IsExtra(db.itemRows[id], order)
    modifies db`itemRows
    ensures db.itemRows == PulledSome(old(db.itemRows), order, target, extras)
  {
    hide Rank, PulledTo, IsExtra;
    var rest := extras;
    while rest != {}
      invariant rest <= extras
      invariant db.itemRows == PulledSome(old(db.itemRows), order, target, extras - rest)
      decreases |rest|
    {
      var id :| id in rest;
      rest := rest - {id};
      PullExtra(db, id, order, target);
    }
    assert extras - rest == extras;
  }

  method PullExtra(db: ShopDb, id: nat, order: nat, target: ItemStatus)
    requires id in db.itemRows && IsExtra(db.itemRows[id], order)
    modifies db`itemRows
    ensures db.itemRows == old(db.itemRows)[id := PulledTo(old(db.itemRows)[id], order, Some(target))]
  {
    if Rank(db.itemRows[id].status) < Rank(target) {
      db.itemRows := db.itemRows[id := db.itemRows[id].(status := target)];
    }
  }

  /** Cancelled extras are at the top rank, so pulling the others is pulling all. */
  lemma PulledEverywhere(rows: map<nat, ItemRow>, order: nat, status: OrderStatus, extras: set<nat>)
    requires ToItemStatus(status).Some?
    requires extras == set id | id in rows && IsExtra(rows[id], order) && rows[id].status != ItemCancelled
    ensures PulledSome(rows, order, ToItemStatus(status).value, extras) == ExtrasSynced(rows, order, status)
  {
    forall id | id in rows && id !in extras ensures PulledTo(rows[id], order, ToItemStatus(status)) == rows[id] {
      assert IsExtra(rows[id], order) ==> rows[id].status == ItemCancelled;
    }
  }

  lemma PulledKeyed(rows: map<nat, ItemRow>, order: nat, status: OrderStatus, next: nat, orderCount: nat,
                    photos: seq<Photo>)
    requires ItemsKeyed(rows, next, orderCount, photos)
    ensures ItemsKeyed(ExtrasSynced(rows, order, status), next, orderCount, photos)
  {
  }

  /** A pull moves a row to the greater of the two ranks and never back, so pulls commute and repeat harmlessly. */
  lemma PullsCommute(row: ItemRow, order: nat, a: Option<ItemStatus>, b: Option<ItemStatus>)
    ensures PulledTo(PulledTo(row, order, a), order, b) == PulledTo(PulledTo(row, order, b), order, a)
    ensures PulledTo(PulledTo(row, order, a), order, a) == PulledTo(row, order, a)
    ensures IsExtra(row, order) && a.Some? ==>
              Rank(PulledTo(row, order, a).status) == Max(Rank(row.status), Rank(a.value))
    ensures Rank(row.status) <= Rank(PulledTo(row, order, a).status)
  {
  }

  lemma SyncedTwice(rows: map<nat, ItemRow>, order: nat, a: OrderStatus, b: OrderStatus)
    ensures ExtrasSynced(ExtrasSynced(rows, order, a), order, b)
         == map id | id in rows :: PulledTo(PulledTo(rows[id], order, ToItemStatus(a)), order, ToItemStatus(b))
  {
    hide PulledTo, ToItemStatus;
  }

  /** Syncs of the whole table commute and repeat harmlessly. */
  lemma SyncsCommute(rows: map<nat, ItemRow>, order: nat, a: OrderStatus, b: OrderStatus)
    ensures ExtrasSynced(ExtrasSynced(rows, order, a), order, b) == ExtrasSynced(ExtrasSynced(rows, order, b), order, a)
    ensures ExtrasSynced(ExtrasSynced(rows, order, a), order, a) == ExtrasSynced(rows, order, a)
  {
    SyncedTwice(rows, order, a, b);
    SyncedTwice(rows, order, b, a);
    SyncedTwice(rows, order, a, a);
    forall id | id in rows
      ensures PulledTo(PulledTo(rows[id], order, ToItemStatus(a)), order, ToItemStatus(b))
           == PulledTo(PulledTo(rows[id], order, ToItemStatus(b)), order, ToItemStatus(a))
      ensures PulledTo(PulledTo(rows[id], order, ToItemStatus(a)), order, ToItemStatus(a))
              == PulledTo(rows[id], order, ToItemStatus(a))
    {
      PullsCommute(rows[id], order, ToItemStatus(a), ToItemStatus(b));
    }
    hide PulledTo, ToItemStatus, Rank;
  }

  // ----- the transition endpoint -----

  datatype TransitionOutcome = Transitioned | ItemNotFound | AlreadyCancelled | ReasonRequired

  function TransitionCheck(rows: map<nat, ItemRow>, order: nat, id: nat, target: ItemStatus,
                           reason: bool): TransitionOutcome {
    if id !in rows || rows[id].order != order then ItemNotFound
    else if rows[id].status == ItemCancelled then AlreadyCancelled
    else if Rank(target) < Rank(rows[id].status) && !reason then ReasonRequired
    else Transitioned
  }

  /** A transition is accepted for an item of the order that is not cancelled, going back only with a reason. */
  lemma TransitionAnswer(rows: map<nat, ItemRow>, order: nat, id: nat, target: ItemStatus, reason: bool)
    ensures match TransitionCheck(rows, order, id, target, reason)
            case ItemNotFound => !(id in rows && rows[id].order == order)
            case AlreadyCancelled => id in rows && rows[id].order == order && rows[id].status == ItemCancelled
            case ReasonRequired =>
              id in rows && rows[id].order == order && rows[id].status != ItemCancelled
              && Rank(target) < Rank(rows[id].status) && !reason
            case Transitioned =>
              id in rows && rows[id].order == order && rows[id].status != ItemCancelled
              && (Rank(target) < Rank(rows[id].status) ==> reason)
  {
  }

  /**
   POST items/{id}/status. Whatever the order's status was, an accepted transition leaves it at the
   minimum over the main items (if there are any), and extras have only moved up.
   */
  method TransitionWorkItemStatus(db: ShopDb, order: nat, id: nat, target: ItemStatus, reason: bool)
    returns (outcome: TransitionOutcome)
    requires db.Valid() && order < |db.orders|
    modifies db`itemRows, db`orders
    ensures db.Valid() && outcome == TransitionCheck(old(db.itemRows), order, id, target, reason)
    ensures !outcome.Transitioned? ==> unchanged(db`itemRows, db`orders)
    ensures outcome.Transitioned? ==>
              var moved := old(db.itemRows)[id := old(db.itemRows)[id].(status := target)];
              && |db.orders| == |old(db.orders)|
              && db.orders == old(db.orders)[order := old(db.orders)[order].(status := db.orders[order].status)]
              && db.itemRows == (if db.orders[order].status == old(db.orders)[order].status then moved
                                 else ExtrasSynced(moved, order, db.orders[order].status))
              && (if HasMain(moved, order)
                  then exists r :: r <= 5 && LeastMainRank(moved, order, r)
                                   && db.orders[order].status == ToOrderStatus(StatusOfRank(r))
                  else db.orders == old(db.orders))
  {
    outcome := TransitionCheck(db.itemRows, order, id, target, reason);
    if !outcome.Transitioned? {
      return;
    }
    db.itemRows := db.itemRows[id := db.itemRows[id].(status := target)];
    var derived := DeriveOrderStatus(db.itemRows, order);
    if derived.Some? && db.orders[order].status != derived.value {
      db.orders := db.orders[order := db.orders[order].(status := derived.value)];
      SyncExtrasToOrderStatus(db, order, derived.value);
    }
  }
}
