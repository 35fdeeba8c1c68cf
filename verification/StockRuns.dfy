/**
 Whole runs over the stock tables: any sequence of restocks, wastes, adjustments, unit sales, stock counts and
 orders confirmed, edited and cancelled keeps the negative-balance rows as the readers of both aggregations
 assume them, and every lot that a sale movement took from.
 */
module StockRuns {
  import opened Common
  import opened Inventory
  import Reconciliation
  import ReconciliationApi
  import opened StockOverview
  import opened OrderStock

  datatype Request =
    | RRestock(product: nat, quantity: int, price: Option<int>, chip: Option<nat>)
    | RWaste(product: nat, quantity: int, reason: bool, price: Option<int>, chip: Option<nat>)
    | RAdjust(product: nat, quantity: int, reason: bool, price: Option<int>, chip: Option<nat>)
    | RSale(option: StockKey, unitPrice: int)
    | RCount(submission: Reconciliation.Submission)
    | RConfirm(order: nat, items: seq<SoldItem>, source: Source)
    | REdit(edited: nat, newItems: seq<SoldItem>, itsSource: Source)
    | RCancel(cancelled: nat)

  /** Changing lots, or nothing, leaves the rows alone. */
  lemma SameRows(before: Shelves, after: Shelves)
    requires RowsAsIndexed(before) && forall k :: At(after, k).owed == At(before, k).owed
    ensures RowsAsIndexed(after)
  {
    forall k: StockKey ensures RowsFit(At(after, k), k.chip.None?) {
      assert RowsFit(At(before, k), k.chip.None?);
    }
  }

  lemma RestockKeepsRows(s: Shelves, k: StockKey, quantity: nat)
    requires RowsAsIndexed(s)
    ensures RowsAsIndexed(s[k := Restocked(At(s, k), quantity)])
  {
    hide RowsAsIndexed;
    SameRows(s, s[k := Restocked(At(s, k), quantity)]);
  }

  /** Lots are only ever added. */
  ghost predicate LotsGrow(before: Shelves, after: Shelves) {
    forall k: StockKey :: |At(before, k).lots| <= |At(after, k).lots|
  }

  /** Every lot that some order's sale movement took from is there. */
  ghost predicate AllLotsExist(s: Shelves, log: StockMovements)
    reads log
  {
    forall order :: LotsExist(s, log.SalesOf(order))
  }

  lemma StillThere(before: Shelves, after: Shelves, ms: seq<Movement>)
    requires LotsExist(before, ms) && LotsGrow(before, after)
    ensures LotsExist(after, ms)
  {
    forall i | 0 <= i < |ms| ensures |ms[i].taken| <= |At(after, ms[i].option).lots| {
      assert |At(before, ms[i].option).lots| <= |At(after, ms[i].option).lots|;
    }
  }

  lemma {:induction false} SalesKeepLots(s: Shelves, units: seq<StockKey>)
    ensures LotsGrow(s, Reconciliation.Sold(s, units))
  {
    if units == [] {
    } else {
      SalesKeepLots(s, units[..|units| - 1]);
    }
  }

  lemma {:induction false} PassKeepsLots(pass: Reconciliation.Pass, catalog: Catalog, s: Shelves,
                                         lines: seq<Reconciliation.Line>)
    ensures LotsGrow(s, Reconciliation.AfterPass(pass, catalog, s, lines))
  {
    hide Reconciliation.Acts, Reconciliation.KeyOf;
    if lines == [] {
    } else {
      PassKeepsLots(pass, catalog, s, lines[..|lines| - 1]);
    }
  }

  lemma CountKeepsLots(catalog: Catalog, s: Shelves, lines: seq<Reconciliation.Line>)
    ensures LotsGrow(s, Reconciliation.Reconciled(catalog, s, lines))
  {
    var sold := Reconciliation.Sold(s, Reconciliation.AllUnits(catalog, lines));
    var wasted := Reconciliation.AfterPass(Reconciliation.WastePass, catalog, sold, lines);
    SalesKeepLots(s, Reconciliation.AllUnits(catalog, lines));
    PassKeepsLots(Reconciliation.WastePass, catalog, sold, lines);
    PassKeepsLots(Reconciliation.SurplusPass, catalog, wasted, lines);
    PassKeepsLots(Reconciliation.ClearPass, catalog,
                  Reconciliation.AfterPass(Reconciliation.SurplusPass, catalog, wasted, lines), lines);
  }

  // ----- orders -----

  lemma DeductKeepsLots(catalog: Catalog, s: Shelves, items: seq<SoldItem>, source: Source)
    ensures LotsGrow(s, Deduct(catalog, s, items, source).shelves)
  {
    hide Deduct;
    forall k ensures |At(s, k).lots| <= |At(Deduct(catalog, s, items, source).shelves, k).lots| {
      DeductLots(catalog, s, items, source, k);
    }
  }

  lemma ReverseKeepsLots(s: Shelves, ms: seq<Movement>)
    ensures LotsGrow(s, Reversed(s, ms))
  {
    hide UntakeAll, UnoweAll;
    forall k ensures |At(s, k).lots| <= |At(Reversed(s, ms), k).lots| {
      UntakeAllLots(s, ms, k);
      UnoweAllEffect(UntakeAll(s, ms), ms, k);
    }
  }

  lemma CancelKeepsLots(s: Shelves, ms: seq<Movement>, restored: set<StockKey>)
    ensures LotsGrow(s, Cancelled(s, ms, |ms|, restored).0)
  {
    hide Cancelled;
    forall k ensures |At(s, k).lots| <= |At(Cancelled(s, ms, |ms|, restored).0, k).lots| {
      CancelledAt(s, ms, |ms|, restored, k);
    }
  }

  lemma UpsertKeepsRows(shelf: Shelf, left: seq<nat>, base: bool, deficit: nat)
    requires RowsFit(shelf, base)
    ensures RowsFit(Shelf(left, UpsertOwed(shelf.owed, base, deficit)), base)
  {
    if !base && shelf.owed != [] {
      assert shelf.owed[0] in shelf.owed;
    }
  }

  lemma {:induction false} DeductKeepsRows(catalog: Catalog, s: Shelves, items: seq<SoldItem>, source: Source)
    requires RowsAsIndexed(s)
    ensures RowsAsIndexed(Deduct(catalog, s, items, source).shelves)
  {
    hide DeductLine, RowsAsIndexed;
    if items == [] {
    } else {
      var n := |items| - 1;
      DeductKeepsRows(catalog, s, items[..n], source);
      LineKeepsRows(catalog, Deduct(catalog, s, items[..n], source), items[n], source);
    }
  }

  lemma LineKeepsRows(catalog: Catalog, before: Deduction, item: SoldItem, source: Source)
    requires RowsAsIndexed(before.shelves)
    ensures RowsAsIndexed(DeductLine(catalog, before, item, source).shelves)
  {
    hide OptionOf, HasChip, Consumes, RowsFit, UpsertOwed, ConsumeFifo, Taken;
    if before.ok && Moves(catalog, item) && !ChipRefused(catalog, item) {
      var k, n := OptionOf(catalog, item), if Consumes(item, source) then Max(0, item.quantity) else 0;
      var shelf := At(before.shelves, k);
      var (left, missing) := ConsumeFifo(shelf.lots, n);
      UpsertKeepsRows(shelf, left, k.chip.None?, missing);
      UpsertKeepsRows(shelf, left, k.chip.None?, 0);
    }
  }

  lemma {:induction false} UntakeKeepsRows(s: Shelves, ms: seq<Movement>)
    ensures forall k :: At(UntakeAll(s, ms), k).owed == At(s, k).owed
  {
    if ms == [] {
    } else {
      UntakeKeepsRows(s, ms[..|ms| - 1]);
    }
  }

  lemma {:induction false} UnoweKeepsRows(s: Shelves, ms: seq<Movement>)
    requires RowsAsIndexed(s)
    ensures RowsAsIndexed(UnoweAll(s, ms))
  {
    hide RowsFit;
    if ms == [] {
    } else {
      var n := |ms| - 1;
      UnoweKeepsRows(s, ms[..n]);
      RaisedRowsFit(At(UnoweAll(s, ms[..n]), ms[n].option), ms[n].option.chip.None?, ms[n].deficit);
    }
  }

  lemma RaisedRowsFit(shelf: Shelf, base: bool, deficit: nat)
    requires RowsFit(shelf, base)
    ensures RowsFit(shelf.(owed := RaiseAll(shelf.owed, deficit)), base)
  {
    forall q | q in RaiseAll(shelf.owed, deficit) ensures q > 0 {
      var i :| 0 <= i < |shelf.owed| && q == shelf.owed[i] + deficit;
      assert shelf.owed[i] in shelf.owed;
    }
  }

  lemma ReverseKeepsRows(s: Shelves, ms: seq<Movement>)
    requires RowsAsIndexed(s)
    ensures RowsAsIndexed(Reversed(s, ms))
  {
    hide RowsAsIndexed;
    UntakeKeepsRows(s, ms);
    SameRows(s, UntakeAll(s, ms));
    UnoweKeepsRows(UntakeAll(s, ms), ms);
  }

  lemma {:induction false} ReducedRows(owed: seq<nat>, quantity: nat)
    ensures |ReduceAll(owed, quantity)| <= |owed| && forall q :: q in ReduceAll(owed, quantity) ==> q > 0
  {
    if owed == [] {
    } else {
      ReducedRows(owed[1..], quantity);
    }
  }

  lemma CancelKeepsRows(s: Shelves, ms: seq<Movement>, restored: set<StockKey>)
    requires RowsAsIndexed(s)
    ensures RowsAsIndexed(Cancelled(s, ms, |ms|, restored).0)
  {
    hide Cancelled;
    forall k: StockKey ensures RowsFit(At(Cancelled(s, ms, |ms|, restored).0, k), k.chip.None?) {
      assert RowsFit(At(s, k), k.chip.None?);
      CancelledAt(s, ms, |ms|, restored, k);
      ReducedRows(At(s, k).owed, FirstDeficit(ms, k));
    }
  }

  // ----- one request -----

  /** A request about an order's stock: confirming it, editing its lines or cancelling it. */
  method ServeOrder(db: StockDb, log: StockMovements, r: Request)
    requires r.RConfirm? || r.REdit? || r.RCancel?
    requires RowsAsIndexed(db.shelves) && AllLotsExist(db.shelves, log)
    modifies db, log
    ensures RowsAsIndexed(db.shelves) && AllLotsExist(db.shelves, log)
  {
    hide RowsAsIndexed, LotsGrow, LotsExist, Deduct, Reversed, Cancelled;
    ghost var before := db.shelves;
    match r
    case RConfirm(order, items, source) =>
      var ok := AutoDecrementStock(db, log, order, items, source);
      DeductKeepsRows(db.catalog, before, items, source);
      DeductKeepsLots(db.catalog, before, items, source);
      DeductedLotsExist(db.catalog, before, items, source);
      forall other ensures LotsExist(db.shelves, log.SalesOf(other)) {
        if db.shelves != before && other != order {
          StillThere(before, db.shelves, log.SalesOf(other));
        }
      }
    case REdit(order, items, source) =>
      ghost var ms := log.SalesOf(order);
      var warned := EditOrderStock(db, log, order, items, source);
      ReverseKeepsRows(before, ms);
      DeductKeepsRows(db.catalog, Reversed(before, ms), items, source);
      ReverseKeepsLots(before, ms);
      DeductKeepsLots(db.catalog, Reversed(before, ms), items, source);
      DeductedLotsExist(db.catalog, Reversed(before, ms), items, source);
      forall other ensures LotsExist(db.shelves, log.SalesOf(other)) {
        if other != order {
          StillThere(before, Reversed(before, ms), log.SalesOf(other));
          StillThere(Reversed(before, ms), db.shelves, log.SalesOf(other));
        }
      }
    case RCancel(order) =>
      ghost var ms, restored := log.SalesOf(order), log.RestoredOf(order);
      RestoreStockForOrder(db, log, order);
      CancelKeepsRows(before, ms, restored);
      CancelKeepsLots(before, ms, restored);
      forall other ensures LotsExist(db.shelves, log.SalesOf(other)) {
        StillThere(before, db.shelves, log.SalesOf(other));
      }
  }

  /** A request that has nothing to do with an order's own movements. */
  method ServeStock(db: StockDb, r: Request)
    requires !(r.RConfirm? || r.REdit? || r.RCancel?) && RowsAsIndexed(db.shelves)
    modifies db
    ensures RowsAsIndexed(db.shelves) && LotsGrow(old(db.shelves), db.shelves)
  {
    hide RowsAsIndexed, ResolveOption, Available, Reconciliation.Refusals, Reconciliation.Reconciled,
      Reconciliation.Sold;
    ghost var before := db.shelves;
    match r
    case RRestock(product, quantity, price, chip) =>
      var outcome := db.RestockProduct(product, quantity, price, chip);
      if outcome.StockSet? {
        RestockKeepsRows(before, ResolveOption(db.catalog, product, price, chip).value, quantity);
      }
    case RWaste(product, quantity, reason, price, chip) =>
      var outcome := db.WasteStock(product, quantity, reason, price, chip);
      assert forall k :: At(db.shelves, k).owed == At(before, k).owed;
      SameRows(before, db.shelves);
    case RAdjust(product, quantity, reason, price, chip) =>
      var outcome := db.AdjustStock(product, quantity, reason, price, chip);
      assert forall k :: At(db.shelves, k).owed == At(before, k).owed;
      SameRows(before, db.shelves);
    case RSale(option, unitPrice) =>
      ReconciliationApi.SellOneUnit(db, option, unitPrice);
      SalesKeepRows(before, [Reconciliation.SaleKey(db.catalog, option, unitPrice)]);
      SalesKeepLots(before, [Reconciliation.SaleKey(db.catalog, option, unitPrice)]);
    case RCount(submission) =>
      var refusal := ReconciliationApi.SubmitReconciliation(db, submission);
      if refusal.None? {
        ReconciliationKeepsRows(db.catalog, before, submission.lines);
        CountKeepsLots(db.catalog, before, submission.lines);
      }
  }

  /** One request, whatever its outcome. */
  method Serve(db: StockDb, log: StockMovements, r: Request)
    requires RowsAsIndexed(db.shelves) && AllLotsExist(db.shelves, log)
    modifies db, log
    ensures RowsAsIndexed(db.shelves) && AllLotsExist(db.shelves, log)
  {
    hide RowsAsIndexed, LotsGrow, LotsExist;
    if r.RConfirm? || r.REdit? || r.RCancel? {
      ServeOrder(db, log, r);
    } else {
      ghost var before := db.shelves;
      ServeStock(db, r);
      forall order ensures LotsExist(db.shelves, log.SalesOf(order)) {
        StillThere(before, db.shelves, log.SalesOf(order));
      }
    }
  }

  /**
   After any run from empty tables no option has an empty negative-balance row and no chip has two, so that
   for every product the two totals agree exactly when its base stock has at most one row; and the lots of every
   sale movement are there, so that every edit exchanges movements as it should exactly for what was not oversold.
   */
  method Run(catalog: Catalog, requests: seq<Request>) returns (db: StockDb, log: StockMovements)
    ensures fresh(db) && fresh(log) && db.catalog == catalog
    ensures RowsAsIndexed(db.shelves) && AllLotsExist(db.shelves, log)
    ensures forall product, chips ::
              OverviewQty(db.shelves, StockKey(product, None)) + ChipTotal(db.shelves, product, chips)
              == ProductNet(db.shelves, product, chips)
              <==> |At(db.shelves, StockKey(product, None)).owed| <= 1
    ensures forall order, items, source, k ::
              var ms := log.SalesOf(order);
              var e := Edited(catalog, db.shelves, ms, items, source);
              Net(At(e.shelves, k)) == Net(At(db.shelves, k)) + TakenAt(ms, k) + DeficitAt(ms, k)
                                       - TakenAt(e.movements, k) - DeficitAt(e.movements, k)
              <==> DeficitAt(ms, k) == 0
  {
    hide LotsExist, Edited, RowsAsIndexed;
    db := new StockDb(catalog);
    log := new StockMovements();
    NothingSoldYet(db.shelves, log);
    for i := 0 to |requests|
      invariant fresh(db) && fresh(log) && db.catalog == catalog
      invariant RowsAsIndexed(db.shelves) && AllLotsExist(db.shelves, log)
    {
      Serve(db, log, requests[i]);
    }
    forall product: nat, chips
      ensures OverviewQty(db.shelves, StockKey(product, None)) + ChipTotal(db.shelves, product, chips)
              == ProductNet(db.shelves, product, chips)
              <==> |At(db.shelves, StockKey(product, None)).owed| <= 1
    {
      TotalsAgreeIff(db.shelves, product, chips);
    }
    forall order: nat, items, source, k
      ensures var ms := log.SalesOf(order);
              var e := Edited(catalog, db.shelves, ms, items, source);
              Net(At(e.shelves, k)) == Net(At(db.shelves, k)) + TakenAt(ms, k) + DeficitAt(ms, k)
                                       - TakenAt(e.movements, k) - DeficitAt(e.movements, k)
              <==> DeficitAt(ms, k) == 0
    {
      EditExchangesIff(catalog, db.shelves, log.SalesOf(order), items, source, k);
    }
  }

  lemma NothingSoldYet(s: Shelves, log: StockMovements)
    requires s == map[] && log.sales == map[]
    ensures RowsAsIndexed(s) && AllLotsExist(s, log)
  {
  }
}
