/**
 Creating and editing orders. Every request keeps pickup codes unique per due date, the stored total
 equal to the items, the items table in step with the list, and the per-year summary exact.
 */
module Orders {
  import opened Common
  import opened Shop
  import opened PickupCodes
  import opened OrderItems
  import opened CustomerRecords
  import opened CustomerResolver

  /** The stored total of every order is what its items, fees and shipping come to. */
  ghost predicate TotalsStored(orders: seq<Order>) {
    forall i :: 0 <= i < |orders| ==> orders[i].total == OrderTotal(orders[i].items, orders[i].shippingFee)
  }

  /** The items table holds every order's list, one row per position. */
  ghost predicate ItemsInStep(orders: seq<Order>, rows: map<nat, ItemRow>) {
    forall i: nat :: i < |orders| ==> ExactlyItems(rows, i, orders[i].items)
  }

  // ----- create -----

  datatype CreateOutcome = Created(order: nat) | DueDateMissing | NoSuchCustomer | CreateCodeFailed

  /** A new order adds itself to its customer's year and changes no other aggregate. */
  lemma SummaryAfterCreate(orders: seq<Order>, summary: map<(nat, nat), YearSummary>, o: Order)
    requires SummaryExact(orders, summary)
    ensures var after := orders + [o];
            SummaryExact(after, if o.customer.None? then summary
                                else summary[(o.customer.value, o.year) := Aggregate(after, o.customer.value, o.year)])
  {
    var after := orders + [o];
    forall c, y ensures !Counts(o, c, y) ==> Aggregate(after, c, y) == Aggregate(orders, c, y) {
      assert after[..|orders|] == orders;
    }
  }

  lemma CodesAfterCreate(orders: seq<Order>, o: Order)
    requires CodesUnique(orders) && !Taken(orders, o.dueDate, o.code, None)
    ensures CodesUnique(orders + [o])
  {
    var after := orders + [o];
    forall i: nat, j: nat | i < |after| && j < |after| && i != j && after[i].code != ""
      ensures !HoldsCode(after[j], after[i].dueDate, after[i].code)
    {
      if i == |orders| {
        assert !HoldsCode(orders[j], o.dueDate, o.code);
      } else if j == |orders| {
        assert !HoldsCode(orders[i], o.dueDate, o.code);
      }
    }
  }

  lemma ItemsAfterInsert(orders: seq<Order>, rows: map<nat, ItemRow>, after: map<nat, ItemRow>, o: Order)
    requires ItemsInStep(orders, rows) && ExactlyItems(after, |orders|, o.items)
    requires forall id :: id in rows ==> id in after && after[id] == rows[id]
    requires forall id :: id in after && id !in rows ==> after[id].order == |orders|
    ensures ItemsInStep(orders + [o], after)
  {
    hide ExactlyItems;
    forall i: nat | i < |orders| ensures ExactlyItems(after, i, orders[i].items) {
      SameRowsSameItems(rows, after, i, orders[i].items);
    }
  }

  lemma ItemsAfterEdit(orders: seq<Order>, rows: map<nat, ItemRow>, next: nat, after: map<nat, ItemRow>, id: nat,
                       o: Order)
    requires ItemsInStep(orders, rows) && id < |orders| && (forall r :: r in rows ==> r < next)
    requires if o.items == orders[id].items then after == rows || Synced(rows, next, after, id, o.items)
             else Synced(rows, next, after, id, o.items)
    ensures ItemsInStep(orders[id := o], after)
  {
    hide Synced;
    if Synced(rows, next, after, id, o.items) {
      assert ExactlyItems(rows, id, orders[id].items);
      SyncOfDistinctPositions(rows, next, after, id, o.items);
      hide ExactlyItems;
      forall i: nat | i < |orders| && i != id ensures ExactlyItems(after, i, orders[i].items) {
        SyncKeepsOthers(rows, next, after, id, o.items, i, orders[i].items);
      }
    }
  }

  /** Inserts the rows of a new order, one per item, at positions 0, 1, ... */
  method InsertItemRows(db: ShopDb, order: nat, items: seq<Item>)
    requires db.Valid() && order < |db.orders| && RowsOf(db.itemRows, order) == {}
    modifies db`itemRows, db`nextItem
    ensures db.Valid() && ExactlyItems(db.itemRows, order, items)
    ensures forall id :: id in old(db.itemRows) ==> id in db.itemRows && db.itemRows[id] == old(db.itemRows)[id]
    ensures forall id :: id in db.itemRows && id !in old(db.itemRows) ==> db.itemRows[id].order == order
  {
    hide ExactlyItems, RowsOf, CustomersKeyed, PhonesKeyed, OrdersKeyed;
    assert items[..0] == [];
    NoItemsYet(db.itemRows, order);
    for p := 0 to |items|
      invariant db.Valid() && ExactlyItems(db.itemRows, order, items[..p])
      invariant forall id :: id in old(db.itemRows) ==> id in db.itemRows && db.itemRows[id] == old(db.itemRows)[id]
      invariant forall id :: id in db.itemRows && id !in old(db.itemRows) ==> db.itemRows[id].order == order
    {
      ExactlyOneMore(db.itemRows, db.nextItem, order, items, p);
      db.itemRows := db.itemRows[db.nextItem := ItemRow(order, p, items[p], Pending)];
      db.nextItem := db.nextItem + 1;
    }
    assert items[..|items|] == items;
  }

  lemma NoItemsYet(rows: map<nat, ItemRow>, order: nat)
    requires RowsOf(rows, order) == {}
    ensures ExactlyItems(rows, order, [])
  {
  }

  lemma ExactlyOneMore(rows: map<nat, ItemRow>, next: nat, order: nat, items: seq<Item>, p: nat)
    requires p < |items| && ExactlyItems(rows, order, items[..p]) && next !in rows
    ensures ExactlyItems(rows[next := ItemRow(order, p, items[p], Pending)], order, items[..p + 1])
  {
    var after := rows[next := ItemRow(order, p, items[p], Pending)];
    assert RowsOf(after, order) == RowsOf(rows, order) + {next};
    PositionsKept(rows, after, order);
    OccupiedBy(after, order, next);
  }

  /** Saves a new order and refreshes its customer's year. */
  method InsertOrder(db: ShopDb, o: Order)
    requires db.Valid() && (o.customer.Some? ==> o.customer.value in db.customers)
    modifies db`orders, db`summary
    ensures db.Valid() && db.orders == old(db.orders) + [o]
    ensures old(SummaryExact(db.orders, db.summary)) ==> SummaryExact(db.orders, db.summary)
  {
    db.orders := db.orders + [o];
    if o.customer.Some? {
      db.RecomputeYearSummary(o.customer.value, o.year);
    }
    if old(SummaryExact(db.orders, db.summary)) {
      SummaryAfterCreate(old(db.orders), old(db.summary), o);
    }
  }

  /** The order row, its customer's year and its item rows, once the code is drawn. */
  method PlaceOrder(db: ShopDb, o: Order)
    requires db.Valid() && (o.customer.Some? ==> o.customer.value in db.customers)
    modifies db`orders, db`summary, db`itemRows, db`nextItem
    ensures db.Valid() && db.orders == old(db.orders) + [o] && ExactlyItems(db.itemRows, |old(db.orders)|, o.items)
    ensures old(CodesUnique(db.orders) && !Taken(db.orders, o.dueDate, o.code, None)) ==> CodesUnique(db.orders)
    ensures old(ItemsInStep(db.orders, db.itemRows)) ==> ItemsInStep(db.orders, db.itemRows)
    ensures old(SummaryExact(db.orders, db.summary)) ==> SummaryExact(db.orders, db.summary)
  {
    hide SummaryExact, CodesUnique, ExactlyItems, ItemsInStep, Taken, CustomersKeyed, PhonesKeyed, OrdersKeyed,
      ItemsKeyed;
    NoRowsYet(db.itemRows, db.nextItem, |db.orders|, db.photos);
    if CodesUnique(db.orders) && !Taken(db.orders, o.dueDate, o.code, None) {
      CodesAfterCreate(db.orders, o);
    }
    InsertOrder(db, o);
    InsertItemRows(db, |db.orders| - 1, o.items);
    if old(ItemsInStep(db.orders, db.itemRows)) {
      ItemsAfterInsert(old(db.orders), old(db.itemRows), db.itemRows, o);
    }
  }

  /** The body of a request, with its customer named or to be found. */
  datatype NewOrder = NewOrder(customer: Option<nat>, phone: string, name: string, items: seq<Item>, shippingFee: int,
                               dueDate: Option<string>, deliveryType: string)

  /**
   POST /api/orders; time and year come from the clock. A customer created on the way is rolled back with the
   rest when no code can be drawn.
   */
  method CreateOrder(db: ShopDb, r: NewOrder, now: int, year: nat, fold: Folding, draw: Draw)
    returns (outcome: CreateOutcome)
    requires db.Valid() && DrawsReferences(draw)
    modifies db`customers, db`nextCustomer, db`phones, db`nextPhone, db`orders, db`summary, db`itemRows, db`nextItem
    ensures db.Valid()
    ensures outcome.DueDateMissing? <==> r.dueDate.None? || Blank(r.dueDate.value)
    ensures outcome.NoSuchCustomer? <==>
              !outcome.DueDateMissing? && r.customer.Some? && r.customer.value !in old(db.customers)
    ensures outcome.CreateCodeFailed? ==> Exhausted(old(db.orders), r.dueDate, r.deliveryType, draw)
    ensures !outcome.Created? ==>
              DirectoryOf(db) == old(DirectoryOf(db)) && unchanged(db`orders, db`summary, db`itemRows, db`nextItem)
    ensures outcome.Created? ==>
              && outcome.order == |old(db.orders)| == |db.orders| - 1 && db.orders[..outcome.order] == old(db.orders)
              && var o := db.orders[outcome.order];
                 o.customer.Some?
                 && (r.customer.Some? ==> o.customer == r.customer && DirectoryOf(db) == old(DirectoryOf(db)))
                 && (r.customer.None? ==>
                       (DirectoryOf(db), o.customer.value)
                       == Settled(old(DirectoryOf(db)), old(db.orders), r.phone, r.name, fold))
                 && o == Order(o.customer, now, year, r.items, r.shippingFee, OrderTotal(r.items, r.shippingFee),
                               r.dueDate, r.deliveryType, o.code, OrderNew)
                 && SuffixMatches(o.code, r.deliveryType) && ExactlyItems(db.itemRows, outcome.order, r.items)
                 && Drawn(old(db.orders), r.dueDate, r.deliveryType, draw, o.code)
    ensures old(CodesUnique(db.orders)) ==> CodesUnique(db.orders)
    ensures old(SuffixesMatch(db.orders)) ==> SuffixesMatch(db.orders)
    ensures old(ItemsInStep(db.orders, db.itemRows)) ==> ItemsInStep(db.orders, db.itemRows)
    ensures old(TotalsStored(db.orders)) ==> TotalsStored(db.orders)
    ensures old(SummaryExact(db.orders, db.summary)) ==> SummaryExact(db.orders, db.summary)
  {
    hide SummaryExact, CodesUnique, Exhausted, ExactlyItems, ItemsInStep, SuffixForm, SuffixMatches, OrderTotal, Taken,
      DrawsReferences, Settled, Drawn, CustomersKeyed, PhonesKeyed, OrdersKeyed, ItemsKeyed;
    if r.dueDate.None? || Blank(r.dueDate.value) {
      return DueDateMissing;
    }
    var customers, nextCustomer, phones, nextPhone := db.customers, db.nextCustomer, db.phones, db.nextPhone;
    var customer: nat;
    if r.customer.Some? {
      customer := r.customer.value;
      if customer !in db.customers {
        return NoSuchCustomer;
      }
    } else {
      customer := ResolveOrCreateCustomerId(db, r.phone, r.name, fold);
    }
    var code := GenerateUniquePublicOrderCode(db, r.dueDate, r.deliveryType, draw);
    if code.None? {
      db.customers, db.nextCustomer, db.phones, db.nextPhone := customers, nextCustomer, phones, nextPhone;
      return CreateCodeFailed;
    }
    PlaceOrder(db, Order(Some(customer), now, year, r.items, r.shippingFee, OrderTotal(r.items, r.shippingFee),
                         r.dueDate, r.deliveryType, code.value, OrderNew));
    return Created(|db.orders| - 1);
  }

  lemma NoRowsYet(rows: map<nat, ItemRow>, next: nat, orderCount: nat, photos: seq<Photo>)
    requires ItemsKeyed(rows, next, orderCount, photos)
    ensures RowsOf(rows, orderCount) == {}
  {
  }

  /**
   A sale order of a stock reconciliation: no customer, pickup by default, but its code is drawn for the
   delivery type "reconciliation".
   */
  method CreateReconciliationOrder(db: ShopDb, now: int, year: nat, item: Item, dueDate: string, draw: Draw)
    returns (outcome: CreateOutcome)
    requires db.Valid() && DrawsReferences(draw)
    modifies db`orders, db`summary, db`itemRows, db`nextItem
    ensures db.Valid()
    ensures outcome.Created?
            || (outcome.CreateCodeFailed? && unchanged(db`orders, db`summary, db`itemRows, db`nextItem))
    ensures outcome.Created? ==>
              && outcome.order == |old(db.orders)| == |db.orders| - 1 && db.orders[..outcome.order] == old(db.orders)
              && var o := db.orders[outcome.order];
                 o == Order(None, now, year, [item], 0, OrderTotal([item], 0), Some(dueDate), "pickup", o.code,
                            OrderDelivered)
                 && SuffixMatches(o.code, "reconciliation") && ExactlyItems(db.itemRows, outcome.order, [item])
                 && Drawn(old(db.orders), Some(dueDate), "reconciliation", draw, o.code)
    ensures old(CodesUnique(db.orders)) ==> CodesUnique(db.orders)
    ensures old(ItemsInStep(db.orders, db.itemRows)) ==> ItemsInStep(db.orders, db.itemRows)
    ensures old(TotalsStored(db.orders)) ==> TotalsStored(db.orders)
    ensures old(SummaryExact(db.orders, db.summary)) ==> SummaryExact(db.orders, db.summary)
  {
    hide SummaryExact, CodesUnique, Exhausted, ExactlyItems, ItemsInStep, SuffixForm, SuffixMatches, OrderTotal, Taken,
      DrawsReferences, Drawn, PhonesKeyed, OrdersKeyed, ItemsKeyed;
    var code := GenerateUniquePublicOrderCode(db, Some(dueDate), "reconciliation", draw);
    if code.None? {
      return CreateCodeFailed;
    }
    PlaceOrder(db, Order(None, now, year, [item], 0, OrderTotal([item], 0), Some(dueDate), "pickup", code.value,
                         OrderDelivered));
    return Created(|db.orders| - 1);
  }

  /** A code drawn for a reconciliation never carries the letter of the pickup order it is stored on. */
  lemma ReconciliationCodeMismatch(code: string)
    requires SuffixMatches(code, "reconciliation")
    ensures !SuffixMatches(code, "pickup") && SuffixMatches(code, "delivery")
  {
  }

  // ----- edit -----

  /** The patch, with the customer already resolved; an absent field is None. */
  datatype Edit = Edit(customer: Option<nat>, items: Option<seq<Item>>, dueDate: Option<Option<string>>,
                       deliveryType: Option<string>, shippingFee: Option<int>, otherField: bool,
                       decision: Option<Decision>, changedBy: bool) {
    predicate Writes() {
      customer.Some? || items.Some? || dueDate.Some? || deliveryType.Some? || shippingFee.Some? || otherField
    }
  }

  datatype EditOutcome = Edited | OrderNotFound | OrderIsCancelled | EditCustomerMissing | NothingToUpdate
                       | EditDecisionRequired | EditCodeFailed

  /** The refusals that do not depend on pickup codes, in the order they are checked. */
  function EditCheck(customers: set<nat>, orders: seq<Order>, id: nat, e: Edit): Option<EditOutcome> {
    if !e.Writes() && e.decision.None? && !e.changedBy then Some(NothingToUpdate)
    else if id >= |orders| then Some(OrderNotFound)
    else if orders[id].status == OrderCancelled then Some(OrderIsCancelled)
    else if e.customer.Some? && e.customer.value !in customers then Some(EditCustomerMissing)
    else if !e.Writes() then Some(NothingToUpdate)
    else None
  }

  /** Nothing is asked for at all, or only a code decision or a name. */
  predicate NoField(e: Edit) {
    && e.customer.None? && e.items.None? && e.dueDate.None? && e.deliveryType.None? && e.shippingFee.None?
    && !e.otherField
  }

  /** Which refusal an edit gets; without one it patches a field of an order that is there and not cancelled. */
  lemma EditCheckIs(customers: set<nat>, orders: seq<Order>, id: nat, e: Edit)
    ensures match EditCheck(customers, orders, id, e)
            case None => id < |orders| && orders[id].status != OrderCancelled && !NoField(e)
                         && (e.customer.Some? ==> e.customer.value in customers)
            case Some(OrderNotFound) => id >= |orders|
            case Some(OrderIsCancelled) => id < |orders| && orders[id].status == OrderCancelled
            case Some(EditCustomerMissing) =>
              id < |orders| && orders[id].status != OrderCancelled && e.customer.Some? && e.customer.value !in customers
            case Some(NothingToUpdate) =>
              NoField(e)
              && ((e.decision.None? && !e.changedBy) || (id < |orders| && orders[id].status != OrderCancelled))
            case Some(_) => false
  {
  }

  function NewDue(o: Order, e: Edit): Option<string> {
    if e.dueDate.Some? then e.dueDate.value else o.dueDate
  }

  function NewType(o: Order, e: Edit): string {
    if e.deliveryType.Some? then e.deliveryType.value else o.deliveryType
  }

  /** The order row an accepted edit writes. */
  function Patched(o: Order, e: Edit, code: string): Order {
    var items := if e.items.Some? then e.items.value else o.items;
    var fee := if e.shippingFee.Some? then e.shippingFee.value else o.shippingFee;
    o.(customer := if e.customer.Some? then e.customer else o.customer,
       items := items, shippingFee := fee,
       total := if e.items.Some? || e.shippingFee.Some? then OrderTotal(items, fee) else o.total,
       dueDate := NewDue(o, e), deliveryType := NewType(o, e),
       code := code)
  }

  lemma CodesAfterEdit(orders: seq<Order>, id: nat, o: Order)
    requires CodesUnique(orders) && id < |orders|
    requires o.code != "" ==> !Taken(orders, o.dueDate, o.code, Some(id))
    ensures CodesUnique(orders[id := o])
  {
    var after := orders[id := o];
    forall i: nat, j: nat | i < |after| && j < |after| && i != j && after[i].code != ""
      ensures !HoldsCode(after[j], after[i].dueDate, after[i].code)
    {
      if j == id {
        assert o.code != "" ==> !HoldsCode(orders[i], o.dueDate, o.code);
      }
    }
  }

  lemma SuffixesAfterEdit(orders: seq<Order>, id: nat, o: Order)
    requires SuffixesMatch(orders) && id < |orders| && (o.code == "" <==> orders[id].code == "")
    requires o.code != "" && SuffixMatches(orders[id].code, orders[id].deliveryType) ==>
               SuffixMatches(o.code, o.deliveryType)
    ensures SuffixesMatch(orders[id := o])
  {
  }

  lemma TotalsAfterEdit(orders: seq<Order>, id: nat, e: Edit, code: string)
    requires TotalsStored(orders) && id < |orders|
    ensures TotalsStored(orders[id := Patched(orders[id], e, code)])
  {
    hide OrderTotal;
  }

  /** Recomputing the old and the new customer's year keeps the summary exact after an edit. */
  lemma SummaryAfterEdit(orders: seq<Order>, summary: map<(nat, nat), YearSummary>, id: nat, o: Order,
                         refreshed: map<(nat, nat), YearSummary>)
    requires SummaryExact(orders, summary) && id < |orders| && o.year == orders[id].year
    requires forall key :: key in summary || (o.customer.Some? && key == (o.customer.value, o.year)) ==>
               key in refreshed
    requires forall key :: key in refreshed ==>
               if o.year == key.1 && (orders[id].customer == Some(key.0) || o.customer == Some(key.0))
               then refreshed[key] == Aggregate(orders[id := o], key.0, key.1)
               else key in summary && refreshed[key] == summary[key]
    ensures SummaryExact(orders[id := o], refreshed)
  {
    var after := orders[id := o];
    forall key | key in refreshed ensures refreshed[key] == Aggregate(after, key.0, key.1) {
      if !(o.year == key.1 && (orders[id].customer == Some(key.0) || o.customer == Some(key.0))) {
        AggregateSame(orders, after, key.0, key.1);
      }
    }
  }

  /** An edit that touches neither the customer nor the total leaves every aggregate as it was. */
  lemma SummaryAfterQuietEdit(orders: seq<Order>, summary: map<(nat, nat), YearSummary>, id: nat, o: Order)
    requires SummaryExact(orders, summary) && id < |orders|
    requires o.customer == orders[id].customer && o.year == orders[id].year && o.total == orders[id].total
    ensures SummaryExact(orders[id := o], summary)
  {
    forall key | key in summary ensures summary[key] == Aggregate(orders[id := o], key.0, key.1) {
      AggregateSame(orders, orders[id := o], key.0, key.1);
    }
  }

  /** Writes the order row and recomputes the years of its old and new customer when they may have moved. */
  method WriteOrder(db: ShopDb, id: nat, o: Order, touched: bool)
    requires db.Valid() && id < |db.orders| && o.year == db.orders[id].year
    requires o.customer.Some? ==> o.customer.value in db.customers
    requires !touched ==> o.customer == db.orders[id].customer && o.total == db.orders[id].total
    modifies db`orders, db`summary
    ensures db.Valid() && db.orders == old(db.orders)[id := o]
    ensures old(SummaryExact(db.orders, db.summary)) ==> SummaryExact(db.orders, db.summary)
  {
    var before := db.orders[id];
    db.orders := db.orders[id := o];
    if touched {
      if before.customer.Some? {
        db.RecomputeYearSummary(before.customer.value, before.year);
      }
      if o.customer.Some? && o.customer != before.customer {
        db.RecomputeYearSummary(o.customer.value, before.year);
      }
    }
    if old(SummaryExact(db.orders, db.summary)) {
      if touched {
        SummaryAfterEdit(old(db.orders), old(db.summary), id, o, db.summary);
      } else {
        SummaryAfterQuietEdit(old(db.orders), old(db.summary), id, o);
      }
    }
  }

  /** The answer of an edit that is otherwise fine: a date change asks for a decision, and a code may not be found. */
  ghost predicate CodeDecided(orders: seq<Order>, id: nat, e: Edit, draw: Draw, outcome: EditOutcome)
    requires id < |orders|
  {
    var o := orders[id];
    if e.dueDate.Some? && e.dueDate.value != o.dueDate && o.code != "" && e.decision.None?
    then outcome == EditDecisionRequired
    else outcome == Edited
         || (outcome == EditCodeFailed && o.code != "" && Exhausted(orders, NewDue(o, e), NewType(o, e), draw))
  }

  /**
   Field by field: the patch where it has a value, else what was there; the total is computed afresh when items or
   fee are patched, and nothing else changes but the code.
   */
  ghost predicate FieldsWritten(before: Order, after: Order, e: Edit) {
    && (e.customer.Some? ==> after.customer == Some(e.customer.value))
    && (e.customer.None? ==> after.customer == before.customer)
    && (e.items.Some? ==> after.items == e.items.value) && (e.items.None? ==> after.items == before.items)
    && (e.shippingFee.Some? ==> after.shippingFee == e.shippingFee.value)
    && (e.shippingFee.None? ==> after.shippingFee == before.shippingFee)
    && (e.dueDate.Some? ==> after.dueDate == e.dueDate.value) && (e.dueDate.None? ==> after.dueDate == before.dueDate)
    && (e.deliveryType.Some? ==> after.deliveryType == e.deliveryType.value)
    && (e.deliveryType.None? ==> after.deliveryType == before.deliveryType)
    && (e.items.Some? || e.shippingFee.Some? ==>
          after.total == Subtotal(after.items) + CashFees(after.items) + after.shippingFee)
    && (e.items.None? && e.shippingFee.None? ==> after.total == before.total)
    && after.created == before.created && after.year == before.year && after.status == before.status
  }

  lemma PatchedFields(o: Order, e: Edit, code: string)
    ensures FieldsWritten(o, Patched(o, e, code), e)
  {
    hide Subtotal, CashFees;
  }

  /** What an accepted edit leaves: the patched row, a code that stays or matches, and the items in the table. */
  ghost predicate EditWritten(orders0: seq<Order>, rows0: map<nat, ItemRow>, next0: nat,
                              orders: seq<Order>, rows: map<nat, ItemRow>, id: nat, e: Edit, draw: Draw) {
    && id < |orders| == |orders0| && orders == orders0[id := orders[id]] && FieldsWritten(orders0[id], orders[id], e)
    && (orders[id].code == "" <==> orders0[id].code == "")
    && RightCode(orders0, id, orders[id].dueDate, orders[id].deliveryType, e.decision, draw, orders[id].code)
    && (SuffixForm(orders0[id].code) ==>
          SuffixMatches(orders[id].code, orders[id].deliveryType)
          || (orders[id].code == orders0[id].code && orders[id].deliveryType == orders0[id].deliveryType))
    && if e.items.Some? then Synced(rows0, next0, rows, id, e.items.value) else rows == rows0
  }

  /** PATCH /api/orders/{ref}. */
  method EditOrder(db: ShopDb, id: nat, e: Edit, draw: Draw) returns (outcome: EditOutcome)
    requires db.Valid() && DrawsReferences(draw)
    modifies db`orders, db`summary, db`itemRows, db`nextItem, db`photos
    ensures db.Valid()
    ensures var check := EditCheck(old(db.customers).Keys, old(db.orders), id, e);
            if check.Some? then outcome == check.value else CodeDecided(old(db.orders), id, e, draw, outcome)
    ensures !outcome.Edited? ==> unchanged(db`orders, db`summary, db`itemRows, db`nextItem, db`photos)
    ensures outcome.Edited? ==>
              EditWritten(old(db.orders), old(db.itemRows), old(db.nextItem), db.orders, db.itemRows, id, e, draw)
    ensures outcome.Edited? && e.items.None? ==> unchanged(db`itemRows, db`nextItem, db`photos)
    ensures old(CodesUnique(db.orders)) ==> CodesUnique(db.orders)
    ensures old(SuffixesMatch(db.orders)) ==> SuffixesMatch(db.orders)
    ensures old(ItemsInStep(db.orders, db.itemRows)) ==> ItemsInStep(db.orders, db.itemRows)
    ensures old(TotalsStored(db.orders)) ==> TotalsStored(db.orders)
    ensures old(SummaryExact(db.orders, db.summary)) ==> SummaryExact(db.orders, db.summary)
  {
    hide FieldsWritten, RightCode, SummaryExact, CodesUnique, SuffixesMatch, TotalsStored, ItemsInStep, Exhausted,
      Synced, SuffixForm, SuffixMatches, OrderTotal, Taken, DrawsReferences, PhonesKeyed, OrdersKeyed, ItemsKeyed;
    var check := EditCheck(db.customers.Keys, db.orders, id, e);
    if check.Some? {
      return check.value;
    }
    var o := db.orders[id];
    var code := EditedCode(db, id, NewDue(o, e), NewType(o, e), e.decision, draw);
    if code.DecisionRequired? {
      return EditDecisionRequired;
    }
    if code.GenerationFailed? {
      return EditCodeFailed;
    }
    FormOfMatch(o.code, o.deliveryType);
    PatchedFields(o, e, code.code);
    ApplyEdit(db, id, e, code.code);
    return Edited;
  }

  /** The phone and name an edit resolves its customer from: those of the patch, else those on the order. */
  datatype Contact = Contact(phone: string, name: string)

  /**
   PATCH /api/orders/{ref} that clears the customer or changes the phone: the customer is found or created
   first, and a customer created for an edit that is then refused is rolled back.
   */
  method EditOrderByContact(db: ShopDb, id: nat, e: Edit, contact: Contact, fold: Folding, draw: Draw)
    returns (outcome: EditOutcome)
    requires db.Valid() && DrawsReferences(draw)
    modifies db`customers, db`nextCustomer, db`phones, db`nextPhone, db`orders,
             db`summary, db`itemRows, db`nextItem, db`photos
    ensures db.Valid()
    ensures if id >= |old(db.orders)| then outcome == OrderNotFound
            else if old(db.orders)[id].status == OrderCancelled then outcome == OrderIsCancelled
            else CodeDecided(old(db.orders), id, e, draw, outcome)
    ensures !outcome.Edited? ==>
              DirectoryOf(db) == old(DirectoryOf(db))
              && unchanged(db`orders, db`summary, db`itemRows, db`nextItem, db`photos)
    ensures outcome.Edited? ==>
              var (directory, customer) :=
                Settled(old(DirectoryOf(db)), old(db.orders), contact.phone, contact.name, fold);
              && DirectoryOf(db) == directory
              && EditWritten(old(db.orders), old(db.itemRows), old(db.nextItem), db.orders, db.itemRows, id,
                             e.(customer := Some(customer)), draw)
    ensures old(CodesUnique(db.orders)) ==> CodesUnique(db.orders)
    ensures old(ItemsInStep(db.orders, db.itemRows)) ==> ItemsInStep(db.orders, db.itemRows)
    ensures old(TotalsStored(db.orders)) ==> TotalsStored(db.orders)
    ensures old(SummaryExact(db.orders, db.summary)) ==> SummaryExact(db.orders, db.summary)
  {
    hide SummaryExact, CodesUnique, SuffixesMatch, TotalsStored, ItemsInStep, Exhausted, Synced, SuffixForm,
      SuffixMatches, OrderTotal, Taken, DrawsReferences, Settled, RightCode, CustomersKeyed, PhonesKeyed, OrdersKeyed,
      ItemsKeyed;
    if id >= |db.orders| {
      return OrderNotFound;
    }
    if db.orders[id].status == OrderCancelled {
      return OrderIsCancelled;
    }
    var customers, nextCustomer, phones, nextPhone := db.customers, db.nextCustomer, db.phones, db.nextPhone;
    var customer := ResolveOrCreateCustomerId(db, contact.phone, contact.name, fold);
    outcome := EditOrder(db, id, e.(customer := Some(customer)), draw);
    if outcome != Edited {
      db.customers, db.nextCustomer, db.phones, db.nextPhone := customers, nextCustomer, phones, nextPhone;
    }
  }

  /** Writes an accepted edit: the order row, the summaries it touches, and the items table. */
  method ApplyEdit(db: ShopDb, id: nat, e: Edit, code: string)
    requires db.Valid() && id < |db.orders| && (e.customer.Some? ==> e.customer.value in db.customers)
    requires var o := Patched(db.orders[id], e, code);
             && (code == "" <==> db.orders[id].code == "")
             && (CodesUnique(db.orders) && code != "" ==> !Taken(db.orders, o.dueDate, code, Some(id)))
             && (code != "" && SuffixMatches(db.orders[id].code, db.orders[id].deliveryType) ==>
                   SuffixMatches(code, o.deliveryType))
    modifies db`orders, db`summary, db`itemRows, db`nextItem, db`photos
    ensures db.Valid() && db.orders == old(db.orders)[id := Patched(old(db.orders)[id], e, code)]
    ensures if e.items.Some? then Synced(old(db.itemRows), old(db.nextItem), db.itemRows, id, e.items.value)
            else unchanged(db`itemRows, db`nextItem, db`photos)
    ensures old(CodesUnique(db.orders)) ==> CodesUnique(db.orders)
    ensures old(SuffixesMatch(db.orders)) ==> SuffixesMatch(db.orders)
    ensures old(ItemsInStep(db.orders, db.itemRows)) ==> ItemsInStep(db.orders, db.itemRows)
    ensures old(TotalsStored(db.orders)) ==> TotalsStored(db.orders)
    ensures old(SummaryExact(db.orders, db.summary)) ==> SummaryExact(db.orders, db.summary)
  {
    hide SummaryExact, CodesUnique, SuffixesMatch, TotalsStored, ItemsInStep, Synced, SuffixForm, SuffixMatches,
      OrderTotal, Taken, PhonesKeyed, OrdersKeyed;
    var patched := Patched(db.orders[id], e, code);
    if CodesUnique(db.orders) { CodesAfterEdit(db.orders, id, patched); }
    if SuffixesMatch(db.orders) { SuffixesAfterEdit(db.orders, id, patched); }
    if TotalsStored(db.orders) { TotalsAfterEdit(db.orders, id, e, code); }
    CustomerExists(db.orders, db.customers.Keys, id);
    WriteOrder(db, id, patched, e.items.Some? || e.shippingFee.Some? || e.customer.Some?);
    if e.items.Some? {
      SyncOrderItemsTable(db, id, e.items.value);
    }
    if old(ItemsInStep(db.orders, db.itemRows)) {
      ItemsAfterEdit(old(db.orders), old(db.itemRows), old(db.nextItem), db.itemRows, id, patched);
    }
  }

  lemma CustomerExists(orders: seq<Order>, customers: set<nat>, id: nat)
    requires OrdersKeyed(orders, customers) && id < |orders|
    ensures orders[id].customer.Some? ==> orders[id].customer.value in customers
  {
  }

  // ----- what a work-item change does to the summary -----

  lemma {:induction false} AggregateAfterReprice(orders: seq<Order>, id: nat, items: seq<Item>, total: int, c: nat,
                                                 y: nat)
    requires id < |orders|
    ensures var was, now := Aggregate(orders, c, y),
                            Aggregate(orders[id := orders[id].(items := items, total := total)], c, y);
            && now.orderCount == was.orderCount
            && now.totalVolume == was.totalVolume + if Counts(orders[id], c, y) then total - orders[id].total else 0
  {
    var after := orders[id := orders[id].(items := items, total := total)];
    var n := |orders| - 1;
    if id == n {
      assert after[..n] == orders[..n];
    } else {
      assert after[..n] == orders[..n][id := orders[..n][id].(items := items, total := total)];
      AggregateAfterReprice(orders[..n], id, items, total, c, y);
    }
  }

  /**
   Rebuilding an order from its rows does not recompute the year summary, so the summary stays exact
   exactly when the order has no customer or its total did not move.
   */
  lemma RebuildKeepsSummaryIff(orders: seq<Order>, summary: map<(nat, nat), YearSummary>, id: nat, items: seq<Item>,
                               total: int)
    requires SummaryExact(orders, summary) && id < |orders|
    ensures SummaryExact(orders[id := orders[id].(items := items, total := total)], summary)
       <==> orders[id].customer.None? || total == orders[id].total
  {
    var o := orders[id];
    var after := orders[id := o.(items := items, total := total)];
    if o.customer.None? || total == o.total {
      forall key | key in summary ensures summary[key] == Aggregate(after, key.0, key.1) {
        AggregateSame(orders, after, key.0, key.1);
      }
    } else {
      var key := (o.customer.value, o.year);
      AggregateAfterReprice(orders, id, items, total, key.0, key.1);
      assert key in summary && summary[key] != Aggregate(after, key.0, key.1);
    }
  }

  /** An order of 100 repriced to 150 through its rows: its customer's year still says 100. */
  lemma RepricedRowsMissTheSummary()
    ensures var item := Item("cake", 1, 100, false, false, false, None);
            var o := Order(Some(1), 0, 2026, [item], 0, 100, Some("2026-08-01"), "pickup", "A12-T", OrderNew);
            var dearer := item.(price := 150);
            var summary := map[(1, 2026) := YearSummary(1, 100)];
            && SummaryExact([o], summary) && OrderTotal([dearer], 0) == 150
            && !SummaryExact([o.(items := [dearer], total := OrderTotal([dearer], 0))], summary)
  {
    var item := Item("cake", 1, 100, false, false, false, None);
    var o := Order(Some(1), 0, 2026, [item], 0, 100, Some("2026-08-01"), "pickup", "A12-T", OrderNew);
    var dearer := item.(price := 150);
    assert [o][..0] == [] && [dearer][..0] == [];
    assert Subtotal([dearer]) == 150 by { assert Subtotal([dearer][..0]) == 0; }
    assert CashFees([dearer]) == 0 by { assert CashFees([dearer][..0]) == 0; }
    var after := o.(items := [dearer], total := 150);
    assert [o][0 := after] == [after];
    RebuildKeepsSummaryIff([o], map[(1, 2026) := YearSummary(1, 100)], 0, [dearer], 150);
  }
}
