/** The submission endpoint over the stock tables. */
module ReconciliationApi {
  import opened Common
  import opened Inventory
  import opened Reconciliation

  /** A delivered unit order takes one item, or adds one to the negative balance. */
  method SellOneUnit(db: StockDb, k: StockKey, unitPrice: int)
    modifies db
    ensures var sold := SaleKey(db.catalog, k, unitPrice);
            db.shelves == Sold(old(db.shelves), [sold])
  {
    var sold := SaleKey(db.catalog, k, unitPrice);
    assert [sold][..0] == [];
    var missing := db.ConsumeFifoItems(sold, 1);
    if missing > 0 {
      var shelf := At(db.shelves, sold);
      db.shelves := db.shelves[sold := shelf.(owed := UpsertOwed(shelf.owed, sold.chip.None?, missing))];
    }
    assert db.shelves == old(db.shelves)[sold := SellUnit(At(old(db.shelves), sold), sold.chip.None?)];
  }

  /** Sells a row of a line, one order per unit. */
  method SellRow(db: StockDb, k: StockKey, row: SaleRow)
    requires row.quantity > 0
    modifies db
    ensures db.shelves == Sold(old(db.shelves), RowUnits(db.catalog, k, row))
  {
    var units := RowUnits(db.catalog, k, row);
    for i := 0 to row.quantity
      invariant db.shelves == Sold(old(db.shelves), units[..i])
    {
      SellOneUnit(db, k, row.unitPrice);
      SoldConcat(old(db.shelves), units[..i], [units[i]]);
      assert units[..i + 1] == units[..i] + [units[i]];
    }
    assert units[..row.quantity] == units;
  }

  method SellRows(db: StockDb, k: StockKey, rows: seq<SaleRow>)
    requires forall j :: 0 <= j < |rows| ==> rows[j].quantity > 0
    modifies db
    ensures db.shelves == Sold(old(db.shelves), RowsUnits(db.catalog, k, rows))
  {
    hide Sold, RowUnits;
    assert Sold(db.shelves, RowsUnits(db.catalog, k, rows[..0])) == db.shelves by { NothingSold(db.shelves); }
    for j := 0 to |rows|
      invariant db.shelves == Sold(old(db.shelves), RowsUnits(db.catalog, k, rows[..j]))
    {
      SellRow(db, k, rows[j]);
      SoldConcat(old(db.shelves), RowsUnits(db.catalog, k, rows[..j]), RowUnits(db.catalog, k, rows[j]));
      assert rows[..j + 1][..j] == rows[..j];
    }
    assert rows[..|rows|] == rows;
  }

  lemma NothingSold(s: Shelves)
    ensures Sold(s, []) == s
  {
  }

  /** One unit order per unit sold, line by line and row by row. */
  method CreateSaleOrders(db: StockDb, lines: seq<Line>)
    requires forall i :: 0 <= i < |lines| ==> LineRefusal(lines[i]).None? && KeyOf(db.catalog, lines[i]).Some?
    modifies db
    ensures db.shelves == Sold(old(db.shelves), AllUnits(db.catalog, lines))
  {
    hide RowsUnits, SaleRowsOf, LineRefusal, KeyOf;
    for i := 0 to |lines|
      invariant db.shelves == Sold(old(db.shelves), AllUnits(db.catalog, lines[..i]))
    {
      SaleRowsAreGood(lines[i]);
      SellRows(db, KeyOf(db.catalog, lines[i]).value, SaleRowsOf(lines[i]));
      SoldConcat(old(db.shelves), AllUnits(db.catalog, lines[..i]), LineUnits(db.catalog, lines[i]));
      assert lines[..i + 1][..i] == lines[..i];
    }
    assert lines[..|lines|] == lines;
  }

  lemma SaleRowsAreGood(line: Line)
    requires LineRefusal(line).None?
    ensures forall j :: 0 <= j < |SaleRowsOf(line)| ==> SaleRowsOf(line)[j].quantity > 0
  {
  }

  /** Books the waste of the lines; stops at the first line that wastes more than is there. */
  method BookWaste(db: StockDb, lines: seq<Line>) returns (ok: bool)
    requires forall i :: 0 <= i < |lines| ==> KeyOf(db.catalog, lines[i]).Some?
    modifies db
    ensures ok <==> WasteCovered(db.catalog, old(db.shelves), lines)
    ensures ok ==> db.shelves == AfterPass(WastePass, db.catalog, old(db.shelves), lines)
  {
    for i := 0 to |lines|
      invariant WasteCovered(db.catalog, old(db.shelves), lines[..i])
      invariant db.shelves == AfterPass(WastePass, db.catalog, old(db.shelves), lines[..i])
    {
      assert lines[..i + 1][..i] == lines[..i];
      if lines[i].wasteQty > 0 {
        var k := KeyOf(db.catalog, lines[i]).value;
        ConsumeFifoTakes(At(db.shelves, k).lots, lines[i].wasteQty);
        var missing := db.ConsumeFifoItems(k, lines[i].wasteQty);
        if missing > 0 {
          UncoveredPrefix(db.catalog, old(db.shelves), lines, i + 1);
          return false;
        }
      }
    }
    assert lines[..|lines|] == lines;
    return true;
  }

  lemma {:induction false} UncoveredPrefix(catalog: Catalog, s: Shelves, lines: seq<Line>, n: nat)
    requires n <= |lines| && !WasteCovered(catalog, s, lines[..n])
    ensures !WasteCovered(catalog, s, lines)
  {
    if n < |lines| {
      var init := lines[..|lines| - 1];
      assert init[..n] == lines[..n];
      UncoveredPrefix(catalog, s, init, n);
    } else {
      assert lines[..n] == lines;
    }
  }

  /** `_process_surplus_inflow` for one line. */
  method ProcessSurplusInflow(db: StockDb, k: StockKey, counted: int)
    modifies db
    ensures db.shelves == old(db.shelves)[k := SurplusShelf(At(old(db.shelves), k), counted)]
  {
    var shelf := At(db.shelves, k);
    var surplus := counted - Available(shelf);
    if surplus <= 0 {
      db.shelves := db.shelves[k := shelf];
      return;
    }
    var offset: nat := 0;
    var owed := shelf.owed;
    if owed != [] && owed[0] > 0 {
      offset := Min(surplus, owed[0]);
      if owed[0] - offset <= 0 {
        owed := owed[1..];
      } else {
        owed := owed[0 := owed[0] - offset];
      }
    }
    db.shelves := db.shelves[k := shelf.(owed := owed)];
    if surplus - offset > 0 {
      db.CreateLot(k, surplus - offset);
    }
  }

  /** Surplus inflow of every line counted above its expected quantity. */
  method BookSurplus(db: StockDb, lines: seq<Line>)
    requires forall i :: 0 <= i < |lines| ==> KeyOf(db.catalog, lines[i]).Some?
    modifies db
    ensures db.shelves == AfterPass(SurplusPass, db.catalog, old(db.shelves), lines)
  {
    for i := 0 to |lines|
      invariant db.shelves == AfterPass(SurplusPass, db.catalog, old(db.shelves), lines[..i])
    {
      assert lines[..i + 1][..i] == lines[..i];
      if lines[i].counted > lines[i].expected {
        ProcessSurplusInflow(db, KeyOf(db.catalog, lines[i]).value, lines[i].counted);
      }
    }
    assert lines[..|lines|] == lines;
  }

  /** A zero count on a negative position confirms that the negative balance was a mistake. */
  method ClearNegatives(db: StockDb, lines: seq<Line>)
    requires forall i :: 0 <= i < |lines| ==> KeyOf(db.catalog, lines[i]).Some?
    modifies db
    ensures db.shelves == AfterPass(ClearPass, db.catalog, old(db.shelves), lines)
  {
    for i := 0 to |lines|
      invariant db.shelves == AfterPass(ClearPass, db.catalog, old(db.shelves), lines[..i])
    {
      assert lines[..i + 1][..i] == lines[..i];
      if lines[i].expected < 0 && lines[i].counted == 0 {
        var k := KeyOf(db.catalog, lines[i]).value;
        var shelf := At(db.shelves, k);
        if shelf.owed != [] && shelf.owed[0] > 0 {
          shelf := shelf.(owed := shelf.owed[1..]);
        }
        db.shelves := db.shelves[k := shelf];
      }
    }
    assert lines[..|lines|] == lines;
  }

  /** POST /submit: everything or nothing. */
  method SubmitReconciliation(db: StockDb, submission: Submission) returns (refusal: Option<Refusal>)
    modifies db
    ensures refusal == Refusals(db.catalog, old(db.shelves), submission)
    ensures refusal.Some? ==> db.shelves == old(db.shelves)
    ensures refusal.None? ==> db.shelves == Reconciled(db.catalog, old(db.shelves), submission.lines)
    ensures refusal.None? ==> AllPriced(submission.lines)
  {
    hide LineRefusal, DraftExpected, Sold, AfterPass, WasteCovered, AllUnits, AllPriced;
    AcceptedIff(db.catalog, db.shelves, submission);
    refusal := SubmissionRefusal(submission);
    if refusal.Some? {
      return;
    }
    var lines := submission.lines;
    refusal := FirstFreshnessRefusal(db.catalog, db.shelves, lines);
    if refusal.Some? {
      return;
    }
    assert forall i :: 0 <= i < |lines| ==> FreshnessRefusal(db.catalog, db.shelves, lines[i]).None?;
    var before := db.shelves;
    CreateSaleOrders(db, lines);
    var enough := BookWaste(db, lines);
    if !enough {
      db.shelves := before;
      return Some(StockExhausted);
    }
    BookSurplus(db, lines);
    ClearNegatives(db, lines);
    return None;
  }
}
