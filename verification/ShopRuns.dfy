/**
 Whole runs over the shop's tables: any sequence of new customers, creates, edits, status transitions and merges
 keeps pickup codes unique and matching, the items table in step, stored totals right, the year summary exact and
 every customer's phones right.
 */
module ShopRuns {
  import opened Common
  import opened Shop
  import opened PickupCodes
  import opened OrderItems
  import opened Orders
  import opened Customers
  import opened CustomerRecords
  import opened CustomerResolver
  import opened WorkItems

  datatype Request =
    | RCustomer(name: string, phone: string, phones: Option<seq<PhoneInput>>)
    | RCreate(order: NewOrder, now: int, year: nat)
    | RReconciliationSale(item: Item, saleDue: string, saleNow: int, saleYear: nat)
    | REdit(id: nat, edit: Edit)
    | REditByContact(edited: nat, patch: Edit, contact: Contact)
    | RMerge(target: nat, source: nat)
    | RBatchMerge(batchTarget: nat, sources: seq<nat>)
    | RTransition(ofOrder: nat, itemId: nat, status: ItemStatus, reason: bool)

  /**
   Every code matches its order's delivery type, except that an order from a stock count may still carry the
   code it was drawn.
   */
  ghost predicate SuffixesRight(orders: seq<Order>, sales: set<nat>) {
    forall i: nat :: i < |orders| && orders[i].code != "" ==> SuffixRight(orders[i], i in sales)
  }

  predicate SuffixRight(o: Order, sale: bool) {
    SuffixMatches(o.code, o.deliveryType)
    || (sale && o.deliveryType == "pickup" && SuffixMatches(o.code, "reconciliation"))
  }

  /** The promises about orders; `sales` are the orders that stock counts made. */
  ghost predicate InOrder(orders: seq<Order>, summary: map<(nat, nat), YearSummary>, rows: map<nat, ItemRow>,
                          sales: set<nat>) {
    && CodesUnique(orders) && TotalsStored(orders) && SummaryExact(orders, summary) && ItemsInStep(orders, rows)
    && SuffixesRight(orders, sales) && forall i :: i in sales ==> i < |orders|
  }

  /** The promise about phones; `odd` are the customers whose own request gave improper ones. */
  ghost predicate PhonesInOrder(phones: map<nat, PhoneRow>, customers: map<nat, Customer>, odd: set<nat>) {
    forall c :: c in customers && c !in odd ==> PhonesRight(phones, customers, c)
  }

  /** What is known to differ: orders drawn by stock counts, and customers created with improper phones. */
  datatype Exceptions = Exceptions(sales: set<nat>, odd: set<nat>)

  ghost predicate Promises(db: ShopDb, ex: Exceptions)
    reads db
  {
    InOrder(db.orders, db.summary, db.itemRows, ex.sales) && PhonesInOrder(db.phones, db.customers, ex.odd)
  }

  /** A request that can only make customers whose phones are right. */
  ghost predicate ProperRequest(r: Request) {
    r.RCustomer? ==> ProperPhones(PhonesOfRequest(r.phone, r.phones), Strip(r.phone))
  }

  /** Relinking orders touches no code, date, delivery type, item or total. */
  lemma RelinkedInOrder(orders: seq<Order>, rows: map<nat, ItemRow>, sales: set<nat>, sources: set<nat>, target: nat)
    ensures CodesUnique(orders) ==> CodesUnique(Relinked(orders, sources, target))
    ensures SuffixesRight(orders, sales) ==> SuffixesRight(Relinked(orders, sources, target), sales)
    ensures TotalsStored(orders) ==> TotalsStored(Relinked(orders, sources, target))
    ensures ItemsInStep(orders, rows) ==> ItemsInStep(Relinked(orders, sources, target), rows)
  {
    hide SuffixMatches, OrderTotal, ExactlyItems;
  }

  /** A status change keeps everything the promises speak of. */
  lemma StatusChangeInOrder(orders: seq<Order>, summary: map<(nat, nat), YearSummary>, rows: map<nat, ItemRow>,
                            sales: set<nat>, i: nat, status: OrderStatus)
    requires i < |orders| && InOrder(orders, summary, rows, sales)
    ensures InOrder(orders[i := orders[i].(status := status)], summary, rows, sales)
  {
    hide SuffixMatches, OrderTotal, SummaryExact, ExactlyItems;
    SummaryAfterQuietEdit(orders, summary, i, orders[i].(status := status));
  }

  /** Rows that differ in status only hold the same lists. */
  lemma StatusesAreNoItems(orders: seq<Order>, before: map<nat, ItemRow>, after: map<nat, ItemRow>)
    requires ItemsInStep(orders, before) && before.Keys == after.Keys
    requires forall id :: id in before ==> after[id] == before[id].(status := after[id].status)
    ensures ItemsInStep(orders, after)
  {
    forall i: nat | i < |orders| ensures ExactlyItems(after, i, orders[i].items) {
      assert ExactlyItems(before, i, orders[i].items);
      assert RowsOf(after, i) == RowsOf(before, i);
      forall p | 0 <= p < |orders[i].items| ensures HasPosition(after, i, p) {
        assert HasPosition(before, i, p);
        var id :| id in RowsOf(before, i) && before[id].position == p;
        assert id in RowsOf(after, i) && after[id].position == p;
      }
    }
  }

  /** Once the items are in step, rebuilding any order from its rows gives the total that is stored. */
  lemma StoredTotalIsRebuilt(orders: seq<Order>, summary: map<(nat, nat), YearSummary>, rows: map<nat, ItemRow>,
                             sales: set<nat>, order: nat, ids: seq<nat>)
    requires InOrder(orders, summary, rows, sales) && order < |orders| && Lists(rows, order, ids)
    ensures OrderTotal(ItemsAt(rows, ids), orders[order].shippingFee) == orders[order].total
  {
    hide OrderTotal, ItemsAt, ExactlyItems, SummaryExact, SuffixesRight, CodesUnique;
    RebuiltTotalAgrees(rows, order, orders[order].items, ids, orders[order].shippingFee);
  }

  /** A new order matches its type, or is a count sale. */
  lemma SuffixesAfterCreate(orders: seq<Order>, o: Order, sales: set<nat>, sale: bool)
    requires SuffixesRight(orders, sales) && (forall i :: i in sales ==> i < |orders|)
    requires SuffixRight(o, sale)
    ensures SuffixesRight(orders + [o], if sale then sales + {|orders|} else sales)
  {
    hide SuffixMatches;
  }

  /** An edit leaves a matching code, or the code and the type it found. */
  lemma SuffixesAfterChange(orders: seq<Order>, id: nat, o: Order, sales: set<nat>)
    requires SuffixesRight(orders, sales) && id < |orders| && (o.code == "" <==> orders[id].code == "")
    requires SuffixForm(orders[id].code) ==>
               SuffixMatches(o.code, o.deliveryType)
               || (o.code == orders[id].code && o.deliveryType == orders[id].deliveryType)
    ensures SuffixesRight(orders[id := o], sales)
  {
    if orders[id].code != "" {
      assert SuffixRight(orders[id], id in sales);
    }
  }

  // ----- phones -----

  lemma OthersStayRight(d: Directory, after: Directory, c: nat)
    requires OthersKept(d, after) && c in d.customers && PhonesRight(d.phones, d.customers, c)
    ensures c in after.customers && PhonesRight(after.phones, after.customers, c)
  {
    hide NoDuplicates, SolePrimary;
    SameRowsSamePhones(d.phones, after.phones, c);
  }

  /** Newcomers are right or listed, everybody else is as before. */
  lemma PhonesAfterArrival(d: Directory, after: Directory, odd: set<nat>, odd': set<nat>)
    requires PhonesInOrder(d.phones, d.customers, odd) && OthersKept(d, after) && odd <= odd'
    requires forall c :: c in after.customers && c !in d.customers && c !in odd' ==>
               PhonesRight(after.phones, after.customers, c)
    ensures PhonesInOrder(after.phones, after.customers, odd')
  {
    hide PhonesRight, OthersKept;
    forall c | c in after.customers && c !in odd' ensures PhonesRight(after.phones, after.customers, c) {
      if c in d.customers {
        OthersStayRight(d, after, c);
      }
    }
  }

  lemma PhonesAfterOrder(d: Directory, orders: seq<Order>, phone: string, name: string, fold: Folding, odd: set<nat>)
    requires Keyed(d) && PhonesInOrder(d.phones, d.customers, odd)
    ensures var after := Settled(d, orders, phone, name, fold).0;
            PhonesInOrder(after.phones, after.customers, odd)
  {
    hide Settled, PhonesInOrder, PhonesRight, OthersKept;
    SettledIsRight(d, orders, phone, name, fold);
    PhonesAfterArrival(d, Settled(d, orders, phone, name, fold).0, odd, odd);
  }

  lemma PhonesAfterMerge(phones0: map<nat, PhoneRow>, customers0: map<nat, Customer>,
                         phones: map<nat, PhoneRow>, customers: map<nat, Customer>, odd: set<nat>)
    requires PhonesInOrder(phones0, customers0, odd) && PhonesKept(phones0, customers0, phones, customers)
    ensures PhonesInOrder(phones, customers, odd)
  {
    hide PhonesRight;
  }

  // ----- one request -----

  /** POST /api/customers: an improper list of phones is accepted, and its customer is an exception. */
  method ServeCustomer(db: ShopDb, r: Request, fold: Folding, ghost ex: Exceptions) returns (ghost ex': Exceptions)
    requires r.RCustomer? && db.Valid() && Promises(db, ex)
    modifies db`customers, db`nextCustomer, db`phones, db`nextPhone
    ensures db.Valid() && Promises(db, ex') && ex'.sales == ex.sales && ex.odd <= ex'.odd
    ensures ProperRequest(r) ==> ex' == ex
  {
    hide CustomersKeyed, PhonesKeyed, OrdersKeyed, ItemsKeyed, InOrder, PhonesInOrder, ProperPhones, PhonesOfRequest,
      Strip, PhonesRight, OthersKept, EffectivePhones, AnyMain;
    ghost var before := DirectoryOf(db);
    var outcome := CreateCustomer(db, r.name, r.phone, r.phones, fold);
    ex' := ex;
    if outcome.CustomerCreated? {
      if !ProperRequest(r) {
        ex' := ex.(odd := ex.odd + {outcome.id});
      }
      PhonesAfterArrival(before, DirectoryOf(db), ex.odd, ex'.odd);
    }
  }

  /** POST /api/orders or a unit order of a stock count. */
  method ServeCreate(db: ShopDb, r: Request, fold: Folding, draw: Draw, ghost ex: Exceptions)
    returns (ghost ex': Exceptions)
    requires r.RCreate? || r.RReconciliationSale?
    requires db.Valid() && Promises(db, ex) && DrawsReferences(draw)
    modifies db
    ensures db.Valid() && Promises(db, ex') && ex'.odd == ex.odd
    ensures ex'.sales == if r.RReconciliationSale? && |db.orders| > |old(db.orders)| then ex.sales + {|old(db.orders)|}
                         else ex.sales
  {
    hide CodesUnique, TotalsStored, SummaryExact, ItemsInStep, SuffixesRight, SuffixForm, SuffixMatches, ExactlyItems,
      DrawsReferences, Exhausted, Drawn, OrderTotal, Settled, PhonesInOrder,
      CustomersKeyed, PhonesKeyed, OrdersKeyed, ItemsKeyed;
    ghost var orders, directory := db.orders, DirectoryOf(db);
    ex' := ex;
    match r
    case RCreate(order, now, year) =>
      var outcome := CreateOrder(db, order, now, year, fold, draw);
      if outcome.Created? {
        assert db.orders == orders + [db.orders[|orders|]];
        SuffixesAfterCreate(orders, db.orders[|orders|], ex.sales, false);
        PhonesAfterOrder(directory, orders, order.phone, order.name, fold, ex.odd);
      }
    case RReconciliationSale(item, due, now, year) =>
      var outcome := CreateReconciliationOrder(db, now, year, item, due, draw);
      if outcome.Created? {
        assert db.orders == orders + [db.orders[|orders|]];
        SuffixesAfterCreate(orders, db.orders[|orders|], ex.sales, true);
        ex' := ex.(sales := ex.sales + {|orders|});
      }
  }

  method ServeEdit(db: ShopDb, id: nat, edit: Edit, draw: Draw, ghost ex: Exceptions)
    requires db.Valid() && Promises(db, ex) && DrawsReferences(draw)
    modifies db`orders, db`summary, db`itemRows, db`nextItem, db`photos
    ensures db.Valid() && Promises(db, ex) && |db.orders| == |old(db.orders)|
  {
    hide CodesUnique, TotalsStored, SummaryExact, ItemsInStep, SuffixesRight, SuffixForm, SuffixMatches, Synced,
      Exhausted, RightCode, DrawsReferences, PhonesInOrder, CustomersKeyed, PhonesKeyed, OrdersKeyed, ItemsKeyed;
    ghost var orders := db.orders;
    var outcome := EditOrder(db, id, edit, draw);
    if outcome.Edited? {
      SuffixesAfterChange(orders, id, db.orders[id], ex.sales);
    }
  }

  method ServeEditByContact(db: ShopDb, id: nat, edit: Edit, contact: Contact, fold: Folding, draw: Draw,
                            ghost ex: Exceptions)
    requires db.Valid() && Promises(db, ex) && DrawsReferences(draw)
    modifies db
    ensures db.Valid() && Promises(db, ex) && |db.orders| == |old(db.orders)|
  {
    hide CodesUnique, TotalsStored, SummaryExact, ItemsInStep, SuffixesRight, SuffixForm, SuffixMatches, Settled,
      RightCode, Exhausted, Synced, DrawsReferences, PhonesInOrder, CustomersKeyed, PhonesKeyed, OrdersKeyed,
      ItemsKeyed;
    ghost var orders, directory := db.orders, DirectoryOf(db);
    var outcome := EditOrderByContact(db, id, edit, contact, fold, draw);
    if outcome.Edited? {
      SuffixesAfterChange(orders, id, db.orders[id], ex.sales);
      PhonesAfterOrder(directory, orders, contact.phone, contact.name, fold, ex.odd);
    }
  }

  method ServeTransition(db: ShopDb, order: nat, itemId: nat, status: ItemStatus, reason: bool, ghost ex: Exceptions)
    requires db.Valid() && Promises(db, ex) && order < |db.orders|
    modifies db`itemRows, db`orders
    ensures db.Valid() && Promises(db, ex) && |db.orders| == |old(db.orders)|
  {
    hide InOrder, PhonesInOrder, LeastMainRank, HasMain, CustomersKeyed, PhonesKeyed, OrdersKeyed, ItemsKeyed;
    ghost var orders, rows := db.orders, db.itemRows;
    var outcome := TransitionWorkItemStatus(db, order, itemId, status, reason);
    if outcome.Transitioned? {
      StatusChangeInOrder(orders, db.summary, rows, ex.sales, order, db.orders[order].status);
      RowsAfterTransition(db.orders, db.summary, rows, db.itemRows, ex.sales);
    }
  }

  lemma RowsAfterTransition(orders: seq<Order>, summary: map<(nat, nat), YearSummary>, before: map<nat, ItemRow>,
                            after: map<nat, ItemRow>, sales: set<nat>)
    requires InOrder(orders, summary, before, sales) && before.Keys == after.Keys
    requires forall id :: id in before ==> after[id] == before[id].(status := after[id].status)
    ensures InOrder(orders, summary, after, sales)
  {
    hide ItemsInStep, SuffixesRight, CodesUnique, TotalsStored, SummaryExact;
    StatusesAreNoItems(orders, before, after);
  }

  method ServeMerge(db: ShopDb, target: nat, source: nat, ghost ex: Exceptions)
    requires db.Valid() && Promises(db, ex)
    modifies db`orders, db`phones, db`nextPhone, db`customers, db`summary, db`audit
    ensures db.Valid() && Promises(db, ex) && |db.orders| == |old(db.orders)|
  {
    hide CodesUnique, TotalsStored, SummaryExact, ItemsInStep, SuffixesRight, OthersUntouched, EffectivePhones,
      LegacyMatches, OnePrimary, NoDuplicates, HasRows, YearsOf, PhonesKept, PhonesInOrder, CustomersKeyed,
      PhonesKeyed, OrdersKeyed, ItemsKeyed;
    ghost var orders, phones, customers := db.orders, db.phones, db.customers;
    var outcome := MergeCustomer(db, target, source);
    PhonesAfterMerge(phones, customers, db.phones, db.customers, ex.odd);
    if outcome.MergedAll? {
      RelinkedInOrder(orders, db.itemRows, ex.sales, {source}, target);
    }
  }

  lemma BatchRelinks(phones0: map<nat, PhoneRow>, customers0: map<nat, Customer>, orders0: seq<Order>,
                     phones: map<nat, PhoneRow>, customers: map<nat, Customer>, orders: seq<Order>,
                     sources: set<nat>, target: nat)
    requires target in customers
    requires BatchMerged(phones0, customers0, orders0, phones, customers, orders, sources, target)
    ensures orders == Relinked(orders0, sources, target)
  {
    hide EffectivePhones, PhonesOf;
  }

  method ServeBatch(db: ShopDb, target: nat, sources: seq<nat>, ghost ex: Exceptions)
    requires db.Valid() && Promises(db, ex)
    modifies db`orders, db`phones, db`nextPhone, db`customers, db`summary, db`audit
    ensures db.Valid() && Promises(db, ex) && |db.orders| == |old(db.orders)|
  {
    hide CodesUnique, TotalsStored, SummaryExact, ItemsInStep, SuffixesRight, BatchMerged, EffectivePhones,
      LegacyMatches, NoDuplicates, OnePrimary, PhonesKept, PhonesInOrder, CustomersKeyed, PhonesKeyed, OrdersKeyed,
      ItemsKeyed;
    ghost var phones, customers, orders := db.phones, db.customers, db.orders;
    var outcome := BatchMergeCustomer(db, target, sources);
    PhonesAfterMerge(phones, customers, db.phones, db.customers, ex.odd);
    if outcome.MergedAll? {
      RelinkedInOrder(orders, db.itemRows, ex.sales, Ids(sources), target);
      BatchRelinks(phones, customers, orders, db.phones, db.customers, db.orders, Ids(sources), target);
    }
  }

  /**
   One request, whatever its outcome; only a stock count adds an order to the exceptions, and only an improper
   request a customer.
   */
  method Serve(db: ShopDb, r: Request, fold: Folding, draw: Draw, ghost ex: Exceptions) returns (ghost ex': Exceptions)
    requires db.Valid() && Promises(db, ex) && DrawsReferences(draw)
    modifies db
    ensures db.Valid() && Promises(db, ex')
    ensures ex'.sales == if r.RReconciliationSale? && |db.orders| > |old(db.orders)| then ex.sales + {|old(db.orders)|}
                         else ex.sales
    ensures ex.odd <= ex'.odd && (ProperRequest(r) ==> ex'.odd == ex.odd)
  {
    hide Promises, DrawsReferences, ProperRequest, CustomersKeyed, PhonesKeyed, OrdersKeyed, ItemsKeyed;
    ex' := ex;
    match r
    case RCustomer(_, _, _) => ex' := ServeCustomer(db, r, fold, ex);
    case RCreate(_, _, _) => ex' := ServeCreate(db, r, fold, draw, ex);
    case RReconciliationSale(_, _, _, _) => ex' := ServeCreate(db, r, fold, draw, ex);
    case REdit(id, edit) => ServeEdit(db, id, edit, draw, ex);
    case REditByContact(id, edit, contact) => ServeEditByContact(db, id, edit, contact, fold, draw, ex);
    case RMerge(target, source) => ServeMerge(db, target, source, ex);
    case RBatchMerge(target, sources) => ServeBatch(db, target, sources, ex);
    case RTransition(order, itemId, status, reason) =>
      if order < |db.orders| {
        ServeTransition(db, order, itemId, status, reason, ex);
      }
  }

  // ----- whole runs -----

  /** From any orderly state, any sequence of requests with any random draws. */
  method RunFrom(db: ShopDb, requests: seq<Request>, fold: Folding, draws: seq<Draw>, ghost ex: Exceptions)
    returns (ghost ex': Exceptions)
    requires |draws| == |requests| && forall i :: 0 <= i < |draws| ==> DrawsReferences(draws[i])
    requires db.Valid() && Promises(db, ex)
    modifies db
    ensures db.Valid() && Promises(db, ex')
    ensures (forall i :: 0 <= i < |requests| ==> !requests[i].RReconciliationSale?) ==> ex'.sales == ex.sales
    ensures (forall i :: 0 <= i < |requests| ==> ProperRequest(requests[i])) ==> ex'.odd == ex.odd
  {
    hide Promises, DrawsReferences, ProperRequest, CustomersKeyed, PhonesKeyed, OrdersKeyed, ItemsKeyed;
    ex' := ex;
    for i := 0 to |requests|
      invariant db.Valid() && Promises(db, ex')
      invariant (forall j :: 0 <= j < i ==> !requests[j].RReconciliationSale?) ==> ex'.sales == ex.sales
      invariant (forall j :: 0 <= j < i ==> ProperRequest(requests[j])) ==> ex'.odd == ex.odd
    {
      ex' := Serve(db, requests[i], fold, draws[i], ex');
    }
  }

  /**
   From empty tables: without stock counts every suffix matches, and with proper requests every customer's
   phones are right.
   */
  method Run(requests: seq<Request>, fold: Folding, draws: seq<Draw>) returns (db: ShopDb, ghost ex: Exceptions)
    requires |draws| == |requests| && forall i :: 0 <= i < |draws| ==> DrawsReferences(draws[i])
    ensures fresh(db) && db.Valid() && Promises(db, ex)
    ensures (forall i :: 0 <= i < |requests| ==> !requests[i].RReconciliationSale?) ==> SuffixesMatch(db.orders)
    ensures (forall i :: 0 <= i < |requests| ==> ProperRequest(requests[i])) ==>
              forall c :: c in db.customers ==> PhonesRight(db.phones, db.customers, c)
  {
    hide DrawsReferences, ProperRequest, PhonesRight, CodesUnique, TotalsStored, SummaryExact, ItemsInStep,
      SuffixMatches;
    db := new ShopDb();
    EmptyInOrder(db.summary);
    ex := RunFrom(db, requests, fold, draws, Exceptions({}, {}));
  }

  lemma EmptyInOrder(summary: map<(nat, nat), YearSummary>)
    requires SummaryExact([], summary)
    ensures InOrder([], summary, map[], {})
  {
  }

  /** How one of the example's requests reads. */
  lemma ExampleTexts(name: string, phone: string)
    requires (name == "An" && phone == "1") || (name == "Binh" && phone == "2")
    ensures Strip(name) == name && Strip(phone) == phone && NormalizePhone(phone) == phone
    ensures PhonesOfRequest(phone, None) == [PhoneInput(phone, true)] && AnyMain([PhoneInput(phone, true)])
  {
    assert [PhoneInput(phone, true)][0].primary;
    assert phone[1..] == "";
    assert NormalizePhone(phone[1..]) == "";
  }

  /** The example's first two requests: each new customer is known under its one phone. */
  method ExampleCustomer(db: ShopDb, name: string, phone: string, fold: Folding) returns (id: nat)
    requires (name == "An" && phone == "1") || (name == "Binh" && phone == "2")
    requires db.Valid()
    modifies db`customers, db`nextCustomer, db`phones, db`nextPhone
    ensures db.Valid() && id !in old(db.customers) && db.customers.Keys == old(db.customers).Keys + {id}
    ensures EffectivePhones(db.phones, db.customers, id) == {phone}
    ensures OthersKept(old(DirectoryOf(db)), DirectoryOf(db))
  {
    hide NormalizePhone, Strip, PhonesOfRequest, EffectivePhones, AnyMain, ProperPhones, OthersKept, PhonesRight,
      CustomersKeyed, PhonesKeyed, OrdersKeyed, ItemsKeyed;
    ExampleTexts(name, phone);
    var outcome := CreateCustomer(db, name, phone, None, fold);
    assert outcome.CustomerCreated?;
    id := outcome.id;
    var list := [PhoneInput(phone, true)];
    assert (set p | p in list :: NormalizePhone(p.phone)) == {phone} by {
      assert list[0] in list;
    }
  }

  lemma PhonesOfKept(d: Directory, after: Directory, c: nat)
    requires OthersKept(d, after) && c in d.customers
    ensures c in after.customers
            && EffectivePhones(after.phones, after.customers, c) == EffectivePhones(d.phones, d.customers, c)
  {
    assert SameRowsOf(d.phones, after.phones, c);
  }

  /** With no order there is always a code to be drawn. */
  lemma FirstCodeIsFree(due: Option<string>, deliveryType: string, draw: Draw)
    ensures !Exhausted([], due, deliveryType, draw)
  {
    assert !Taken([], due, CodeFor(draw(3, 0), deliveryType), None);
  }

  const EXAMPLE_ITEMS := [Item("cake", 2, 50, false, false, false, None)]

  lemma ExampleYear(orders: seq<Order>, summary: map<(nat, nat), YearSummary>, c: nat)
    requires SummaryExact(orders, summary)
    requires |orders| == 1 && orders[0].customer == Some(c) && orders[0].year == 2026
    requires orders[0].total == OrderTotal(EXAMPLE_ITEMS, 0)
    ensures (c, 2026) in summary && summary[(c, 2026)] == YearSummary(1, 100)
  {
    var items := EXAMPLE_ITEMS;
    assert orders[..0] == [] && items[..0] == [];
    assert Subtotal(items) == 100 by { assert Subtotal(items[..0]) == 0; }
    assert CashFees(items) == 0 by { assert CashFees(items[..0]) == 0; }
    assert Aggregate(orders[..0], c, 2026) == YearSummary(0, 0);
    assert Aggregate(orders, c, 2026) == YearSummary(1, OrderTotal(EXAMPLE_ITEMS, 0));
    assert OrderTotal(EXAMPLE_ITEMS, 0) == 100;
    var key := (c, 2026);
    assert key in summary && summary[key] == Aggregate(orders, key.0, key.1);
  }

  /** The example's third request: the first order of the shop. */
  method ExampleOrder(db: ShopDb, customer: nat, fold: Folding, draw: Draw)
    requires db.Valid() && DrawsReferences(draw) && customer in db.customers && db.orders == []
    requires SummaryExact(db.orders, db.summary)
    modifies db
    ensures db.Valid() && DirectoryOf(db) == old(DirectoryOf(db)) && unchanged(db`audit)
    ensures |db.orders| == 1 && db.orders[0].customer == Some(customer) && SummaryExact(db.orders, db.summary)
    ensures db.orders[0].items == EXAMPLE_ITEMS && db.orders[0].year == 2026
    ensures db.orders[0].total == OrderTotal(EXAMPLE_ITEMS, 0)
  {
    hide CodesUnique, TotalsStored, SummaryExact, ItemsInStep, ExactlyItems, SuffixesMatch, SuffixMatches, Exhausted,
      Drawn, Settled, OrderTotal, DrawsReferences, CustomersKeyed, PhonesKeyed, OrdersKeyed, ItemsKeyed;
    FirstCodeIsFree(Some("2026-08-01"), "pickup", draw);
    assert !Blank("2026-08-01") by { assert '2' in "2026-08-01"; }
    var order := NewOrder(Some(customer), "", "", EXAMPLE_ITEMS, 0, Some("2026-08-01"), "pickup");
    var placed := CreateOrder(db, order, 0, 2026, fold, draw);
  }

  /**
   Such a run is not idle: from empty tables two new customers, an order of the second and a merge into the
   first are all accepted, and the one customer left has both phones, the order and its year.
   */
  method MergedShop(fold: Folding, draw: Draw) returns (db: ShopDb, kept: nat)
    requires DrawsReferences(draw)
    ensures fresh(db) && db.Valid()
    ensures db.customers.Keys == {kept} && EffectivePhones(db.phones, db.customers, kept) == {"1", "2"}
    ensures |db.orders| == |db.audit| == 1 && db.orders[0].customer == Some(kept) && db.orders[0].items == EXAMPLE_ITEMS
    ensures (kept, 2026) in db.summary && db.summary[(kept, 2026)] == YearSummary(1, 100)
  {
    hide SummaryExact, OthersKept, EffectivePhones, OthersUntouched, LegacyMatches, NoDuplicates, OnePrimary, HasRows,
      YearsOf, PhonesKept, OrderTotal, DrawsReferences, CustomersKeyed, PhonesKeyed, OrdersKeyed, ItemsKeyed,
      OrderCount;
    db := new ShopDb();
    kept := ExampleCustomer(db, "An", "1", fold);
    ghost var before := DirectoryOf(db);
    var second := ExampleCustomer(db, "Binh", "2", fold);
    PhonesOfKept(before, DirectoryOf(db), kept);
    ExampleOrder(db, second, fold, draw);
    ghost var phones, customers := db.phones, db.customers;
    var merged := MergeCustomer(db, kept, second);
    assert merged.MergedAll?;
    KeysOfOthers(phones, db.phones, customers, db.customers, second, kept);
    ExampleYear(db.orders, db.summary, kept);
  }
}
