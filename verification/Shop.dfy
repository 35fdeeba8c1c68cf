/**
 The customer and order tables, and the per-year summary that is kept beside them. Endpoints in
 `Customers`, `Orders` and `WorkItems` take a `ShopDb` the way the source passes a connection.
 */
module Shop {
  import opened Common

  /** `phone` is the legacy column; the rows in `phones` are the authority once there are any. */
  datatype Customer = Customer(name: string, searchName: string, phone: string)

  datatype PhoneRow = PhoneRow(owner: nat, phone: string, primary: bool)

  /** One line of an order; `cashFee` is the fee attribute that counts while `rutTien` is on. */
  datatype Item = Item(product: string, quantity: int, price: int, isExtra: bool, isGift: bool,
                       rutTien: bool, cashFee: Option<int>)

  datatype ItemStatus = Pending | Confirmed | Working | Ready | Delivered | ItemCancelled

  datatype OrderStatus = OrderNew | OrderConfirmed | OrderInProgress | OrderReady | OrderDelivered
                       | OrderCompleted | OrderCancelled

  /** `created` is the instant of creation in whole seconds. */
  datatype Order = Order(customer: Option<nat>, created: int, year: nat, items: seq<Item>, shippingFee: int, total: int,
                         dueDate: Option<string>, deliveryType: string, code: string, status: OrderStatus)

  /** A row of order_items. */
  datatype ItemRow = ItemRow(order: nat, position: int, item: Item, status: ItemStatus)

  datatype Photo = Photo(order: nat, workItem: Option<nat>)

  datatype YearSummary = YearSummary(orderCount: int, totalVolume: int)

  datatype AuditEntry = MergeAudit(target: nat, source: nat, movedOrders: nat)

  // ----- the per-year aggregate -----

  predicate Counts(o: Order, customer: nat, year: nat) {
    o.customer == Some(customer) && o.year == year
  }

  /** What a (customer, year) summary row should hold: the number and value of that customer's orders. */
  function Aggregate(orders: seq<Order>, customer: nat, year: nat): YearSummary {
    if orders == [] then YearSummary(0, 0)
    else
      var last := orders[|orders| - 1];
      var rest := Aggregate(orders[..|orders| - 1], customer, year);
      if Counts(last, customer, year) then YearSummary(rest.orderCount + 1, rest.totalVolume + last.total) else rest
  }

  /** Order by order: those of the customer and the year count one each, with their totals. */
  lemma {:induction false} AggregateByOrder(o: Order, orders: seq<Order>, customer: nat, year: nat)
    ensures Aggregate([], customer, year) == YearSummary(0, 0)
    ensures var rest, all := Aggregate(orders, customer, year), Aggregate([o] + orders, customer, year);
            all == if o.customer == Some(customer) && o.year == year
                   then YearSummary(rest.orderCount + 1, rest.totalVolume + o.total) else rest
  {
    if orders == [] {
      assert [o] + orders == [o] && [o][..0] == [];
    } else {
      var n := |orders| - 1;
      assert ([o] + orders)[..n + 1] == [o] + orders[..n];
      AggregateByOrder(o, orders[..n], customer, year);
    }
  }

  /** Every summary row equals the aggregate, and every year in which a customer ordered has a row. */
  ghost predicate SummaryExact(orders: seq<Order>, summary: map<(nat, nat), YearSummary>) {
    && (forall key :: key in summary ==> summary[key] == Aggregate(orders, key.0, key.1))
    && forall i :: 0 <= i < |orders| && orders[i].customer.Some? ==>
         (orders[i].customer.value, orders[i].year) in summary
  }

  /** An aggregate only depends on the orders it counts. */
  lemma {:induction false} AggregateSame(a: seq<Order>, b: seq<Order>, customer: nat, year: nat)
    requires |a| == |b|
    requires forall i :: 0 <= i < |a| ==>
               Counts(a[i], customer, year) == Counts(b[i], customer, year)
               && (Counts(a[i], customer, year) ==> a[i].total == b[i].total)
    ensures Aggregate(a, customer, year) == Aggregate(b, customer, year)
  {
    if a == [] {
    } else {
      var n := |a| - 1;
      assert forall i :: 0 <= i < n ==> a[..n][i] == a[i] && b[..n][i] == b[i];
      AggregateSame(a[..n], b[..n], customer, year);
    }
  }

  lemma {:induction false} AggregateNone(orders: seq<Order>, customer: nat, year: nat)
    requires forall i :: 0 <= i < |orders| ==> !Counts(orders[i], customer, year)
    ensures Aggregate(orders, customer, year) == YearSummary(0, 0)
  {
    if orders == [] {
    } else {
      AggregateNone(orders[..|orders| - 1], customer, year);
    }
  }

  ghost predicate CustomersKeyed(customers: set<nat>, next: nat) {
    forall c :: c in customers ==> c < next
  }

  ghost predicate PhonesKeyed(phones: map<nat, PhoneRow>, next: nat, customers: set<nat>) {
    forall id :: id in phones ==> id < next && phones[id].owner in customers
  }

  ghost predicate OrdersKeyed(orders: seq<Order>, customers: set<nat>) {
    forall i :: 0 <= i < |orders| && orders[i].customer.Some? ==> orders[i].customer.value in customers
  }

  ghost predicate ItemsKeyed(rows: map<nat, ItemRow>, next: nat, orderCount: nat, photos: seq<Photo>) {
    && (forall id :: id in rows ==> id < next && rows[id].order < orderCount)
    && forall i :: 0 <= i < |photos| && photos[i].workItem.Some? ==> photos[i].workItem.value in rows
  }

  class ShopDb {
    var customers: map<nat, Customer>
    var nextCustomer: nat
    var phones: map<nat, PhoneRow>
    var nextPhone: nat
    var orders: seq<Order>
    var summary: map<(nat, nat), YearSummary>
    var itemRows: map<nat, ItemRow>
    var nextItem: nat
    var photos: seq<Photo>
    var audit: seq<AuditEntry>

    constructor ()
      ensures Valid() && SummaryExact(orders, summary)
      ensures orders == [] && customers == map[] && phones == map[] && itemRows == map[] && photos == [] && audit == []
    {
      customers, nextCustomer, phones, nextPhone := map[], 0, map[], 0;
      orders, summary := [], map[];
      itemRows, nextItem, photos, audit := map[], 0, [], [];
    }

    /** Ids are handed out once, and foreign keys point at rows that exist. */
    ghost predicate Valid()
      reads this
    {
      && CustomersKeyed(customers.Keys, nextCustomer)
      && PhonesKeyed(phones, nextPhone, customers.Keys)
      && OrdersKeyed(orders, customers.Keys)
      && ItemsKeyed(itemRows, nextItem, |orders|, photos)
    }

    /** Rebuilds one (customer, year) row from the orders table. */
    method RecomputeYearSummary(customer: nat, year: nat)
      modifies this`summary
      ensures summary == old(summary)[(customer, year) := Aggregate(orders, customer, year)]
    {
      var count, volume := 0, 0;
      for i := 0 to |orders|
        invariant YearSummary(count, volume) == Aggregate(orders[..i], customer, year)
      {
        assert orders[..i + 1][..i] == orders[..i];
        if Counts(orders[i], customer, year) {
          count, volume := count + 1, volume + orders[i].total;
        }
      }
      assert orders[..|orders|] == orders;
      summary := summary[(customer, year) := YearSummary(count, volume)];
    }
  }
}
