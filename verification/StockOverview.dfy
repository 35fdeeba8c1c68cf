/**
 Two readings of the same stock: the overview merges a product's chips into buckets by price, the
 reconciliation draft lists them one by one and drops an empty base row.
 */
module StockOverview {
  import opened Common
  import opened Inventory
  import Reconciliation

  /** A price level of the overview and the chips merged into it. */
  datatype Bucket = Bucket(price: int, quantity: int, chips: seq<nat>)

  /** A row of the draft. */
  datatype DraftOption = OptionRow(key: StockKey, price: int, expected: int, gross: nat)

  // ----- the overview -----

  /** The overview keeps one negative-balance row per option, the last one it reads. */
  function LastOwed(shelf: Shelf): nat {
    if shelf.owed == [] then 0 else shelf.owed[|shelf.owed| - 1]
  }

  function OverviewQty(s: Shelves, k: StockKey): int {
    Available(At(s, k)) - LastOwed(At(s, k))
  }

  function ChipTotal(s: Shelves, product: nat, chips: seq<Chip>): int {
    if chips == [] then 0
    else ChipTotal(s, product, chips[..|chips| - 1]) + OverviewQty(s, StockKey(product, Some(chips[|chips| - 1].id)))
  }

  function BucketTotal(buckets: seq<Bucket>): int {
    if buckets == [] then 0 else BucketTotal(buckets[..|buckets| - 1]) + buckets[|buckets| - 1].quantity
  }

  lemma {:induction false} BucketTotalAfter(buckets: seq<Bucket>, i: nat, b: Bucket)
    requires i < |buckets|
    ensures BucketTotal(buckets[i := b]) == BucketTotal(buckets) - buckets[i].quantity + b.quantity
  {
    var n := |buckets| - 1;
    if i == n {
      assert buckets[i := b][..n] == buckets[..n];
    } else {
      assert buckets[i := b][..n] == buckets[..n][i := b];
      BucketTotalAfter(buckets[..n], i, b);
    }
  }

  predicate Holds(buckets: seq<Bucket>, chip: Chip, i: int) {
    0 <= i < |buckets| && chip.id in buckets[i].chips
  }

  /** Prices are distinct, and each listed chip is in one bucket, that of its price; nothing else is. */
  ghost predicate Partitions(buckets: seq<Bucket>, chips: seq<Chip>) {
    && (forall i, j :: 0 <= i < j < |buckets| ==> buckets[i].price != buckets[j].price)
    && (forall c :: c in chips ==> exists i :: Holds(buckets, c, i) && buckets[i].price == c.price)
    && (forall i, id :: 0 <= i < |buckets| && id in buckets[i].chips ==> Chip(id, buckets[i].price) in chips)
  }

  function BucketPrices(buckets: seq<Bucket>): (prices: seq<int>)
    ensures |prices| == |buckets| && forall i :: 0 <= i < |buckets| ==> prices[i] == buckets[i].price
  {
    seq(|buckets|, i requires 0 <= i < |buckets| => buckets[i].price)
  }

  /** Adds a chip to the bucket of its price, creating the bucket when there is none. */
  function WithChip(buckets: seq<Bucket>, chip: Chip, quantity: int): seq<Bucket> {
    var i := IndexOf(BucketPrices(buckets), chip.price);
    if i == |buckets| then buckets + [Bucket(chip.price, quantity, [chip.id])]
    else buckets[i := buckets[i].(quantity := buckets[i].quantity + quantity, chips := buckets[i].chips + [chip.id])]
  }

  lemma WithChipEffect(buckets: seq<Bucket>, chip: Chip, quantity: int, chips: seq<Chip>)
    requires Partitions(buckets, chips)
    ensures Partitions(WithChip(buckets, chip, quantity), chips + [chip])
    ensures BucketTotal(WithChip(buckets, chip, quantity)) == BucketTotal(buckets) + quantity
  {
    var i, after := IndexOf(BucketPrices(buckets), chip.price), WithChip(buckets, chip, quantity);
    if i == |buckets| {
      assert after[..|buckets|] == buckets;
    } else {
      BucketTotalAfter(buckets, i, after[i]);
    }
    forall c | c in chips + [chip] ensures exists j :: Holds(after, c, j) && after[j].price == c.price {
      if c in chips {
        var j :| Holds(buckets, c, j) && buckets[j].price == c.price;
        assert Holds(after, c, j) && after[j].price == c.price;
      } else {
        assert Holds(after, c, i) && after[i].price == c.price;
      }
    }
  }

  /** The chips of one price together. */
  function AtPrice(s: Shelves, product: nat, chips: seq<Chip>, price: int): int {
    if chips == [] then 0
    else
      var last := chips[|chips| - 1];
      AtPrice(s, product, chips[..|chips| - 1], price)
      + if last.price == price then OverviewQty(s, StockKey(product, Some(last.id))) else 0
  }

  /** Each bucket holds the stock of the chips of its price, the base bucket the base stock on top. */
  ghost predicate HoldStock(buckets: seq<Bucket>, s: Shelves, product: nat, chips: seq<Chip>, basePrice: int) {
    && buckets != [] && buckets[0].price == basePrice
    && forall i :: 0 <= i < |buckets| ==>
         buckets[i].quantity == AtPrice(s, product, chips, buckets[i].price)
                                + if buckets[i].price == basePrice then OverviewQty(s, StockKey(product, None)) else 0
  }

  lemma {:induction false} NoChipAtPrice(s: Shelves, product: nat, chips: seq<Chip>, price: int)
    requires forall c :: c in chips ==> c.price != price
    ensures AtPrice(s, product, chips, price) == 0
  {
    if chips == [] {
    } else {
      NoChipAtPrice(s, product, chips[..|chips| - 1], price);
    }
  }

  lemma WithChipHoldsStock(buckets: seq<Bucket>, s: Shelves, product: nat, chips: seq<Chip>, chip: Chip, basePrice: int)
    requires Partitions(buckets, chips) && HoldStock(buckets, s, product, chips, basePrice)
    ensures HoldStock(WithChip(buckets, chip, OverviewQty(s, StockKey(product, Some(chip.id)))), s, product,
                      chips + [chip], basePrice)
  {
    hide OverviewQty;
    assert (chips + [chip])[..|chips|] == chips;
    var i := IndexOf(BucketPrices(buckets), chip.price);
    if i == |buckets| {
      forall c | c in chips ensures c.price != chip.price {
        var j :| Holds(buckets, c, j) && buckets[j].price == c.price;
        assert BucketPrices(buckets)[j] == c.price;
      }
      NoChipAtPrice(s, product, chips, chip.price);
      assert BucketPrices(buckets)[0] == basePrice;
    }
  }

  lemma BaseBucket(b: Bucket)
    requires b.chips == []
    ensures Partitions([b], []) && BucketTotal([b]) == b.quantity
  {
    assert [b][..0] == [];
  }

  method SumBuckets(buckets: seq<Bucket>) returns (total: int)
    ensures total == BucketTotal(buckets)
  {
    total := 0;
    for i := 0 to |buckets|
      invariant total == BucketTotal(buckets[..i])
    {
      assert buckets[..i + 1][..i] == buckets[..i];
      total := total + buckets[i].quantity;
    }
    assert buckets[..|buckets|] == buckets;
  }

  lemma BaseHoldsStock(b: Bucket, s: Shelves, product: nat)
    requires b.quantity == OverviewQty(s, StockKey(product, None))
    ensures HoldStock([b], s, product, [], b.price)
  {
  }

  /** One product of the overview. */
  method OverviewProduct(db: StockDb, product: nat) returns (buckets: seq<Bucket>, total: int)
    requires product in db.catalog
    ensures Partitions(buckets, db.catalog[product].chips)
    ensures HoldStock(buckets, db.shelves, product, db.catalog[product].chips, db.catalog[product].basePrice)
    ensures total == BucketTotal(buckets)
    ensures total == OverviewQty(db.shelves, StockKey(product, None))
            + ChipTotal(db.shelves, product, db.catalog[product].chips)
  {
    hide Partitions, HoldStock, OverviewQty, WithChip, BucketTotal;
    var p := db.catalog[product];
    var base := Bucket(p.basePrice, OverviewQty(db.shelves, StockKey(product, None)), []);
    buckets := [base];
    BaseBucket(base);
    assert HoldStock([base], db.shelves, product, [], p.basePrice) by { BaseHoldsStock(base, db.shelves, product); }
    assert p.chips[..0] == [];
    for i := 0 to |p.chips|
      invariant Partitions(buckets, p.chips[..i])
      invariant HoldStock(buckets, db.shelves, product, p.chips[..i], p.basePrice)
      invariant BucketTotal(buckets) == base.quantity + ChipTotal(db.shelves, product, p.chips[..i])
    {
      var quantity := OverviewQty(db.shelves, StockKey(product, Some(p.chips[i].id)));
      WithChipEffect(buckets, p.chips[i], quantity, p.chips[..i]);
      WithChipHoldsStock(buckets, db.shelves, product, p.chips[..i], p.chips[i], p.basePrice);
      buckets := WithChip(buckets, p.chips[i], quantity);
      assert p.chips[..i + 1] == p.chips[..i] + [p.chips[i]] && p.chips[..i + 1][..i] == p.chips[..i];
    }
    assert p.chips[..|p.chips|] == p.chips;
    total := SumBuckets(buckets);
  }

  // ----- the draft -----

  function DraftTotal(rows: seq<DraftOption>): int {
    if rows == [] then 0 else DraftTotal(rows[..|rows| - 1]) + rows[|rows| - 1].expected
  }

  function NetChips(s: Shelves, product: nat, chips: seq<Chip>): int {
    if chips == [] then 0
    else NetChips(s, product, chips[..|chips| - 1]) + Net(At(s, StockKey(product, Some(chips[|chips| - 1].id))))
  }

  /** The product's net position: base price and every chip. */
  function ProductNet(s: Shelves, product: nat, chips: seq<Chip>): int {
    Net(At(s, StockKey(product, None))) + NetChips(s, product, chips)
  }

  function DraftRow(s: Shelves, k: StockKey, price: int): DraftOption {
    OptionRow(k, price, Net(At(s, k)), Available(At(s, k)))
  }

  predicate Shows(rows: seq<DraftOption>, k: StockKey) {
    exists r :: r in rows && r.key == k
  }

  /** A row for every chip, and one for base stock unless there are chips and it is zero: exactly the options shown. */
  lemma DraftShows(catalog: Catalog, s: Shelves, product: nat, chipRows: seq<DraftOption>, base: DraftOption,
                   rows: seq<DraftOption>)
    requires product in catalog && |chipRows| == |catalog[product].chips|
    requires forall j :: 0 <= j < |chipRows| ==>
               chipRows[j].key == StockKey(product, Some(catalog[product].chips[j].id))
    requires base.key == StockKey(product, None)
    requires rows == if catalog[product].chips == [] || Net(At(s, base.key)) != 0 then chipRows + [base] else chipRows
    ensures forall k: StockKey :: k.product == product && catalog[product].displayed ==>
              (Reconciliation.DraftExpected(catalog, s, k).Some? <==> Shows(rows, k))
  {
    hide Net;
    forall k: StockKey | k.product == product && catalog[product].displayed
      ensures Reconciliation.DraftExpected(catalog, s, k).Some? <==> Shows(rows, k)
    {
      if k.chip.None? {
        assert |rows| > |chipRows| ==> rows[|rows| - 1] == base && base in rows;
      } else if HasChip(catalog[product], k.chip.value) {
        var i :| 0 <= i < |chipRows| && catalog[product].chips[i].id == k.chip.value;
        assert rows[i] == chipRows[i] && chipRows[i] in rows;
      }
    }
  }

  /** One product of the draft: its chips, then base stock unless there are chips and it is zero. */
  method DraftProduct(db: StockDb, product: nat) returns (rows: seq<DraftOption>, total: int)
    requires product in db.catalog
    ensures total == DraftTotal(rows) == ProductNet(db.shelves, product, db.catalog[product].chips)
    ensures forall r :: r in rows ==>
              r.key.product == product && r.expected == Net(At(db.shelves, r.key))
              && r.gross == Available(At(db.shelves, r.key))
    ensures forall k: StockKey :: k.product == product && db.catalog[product].displayed ==>
              (Reconciliation.DraftExpected(db.catalog, db.shelves, k).Some? <==> Shows(rows, k))
  {
    hide Net, Available, Shows, Reconciliation.DraftExpected;
    var p := db.catalog[product];
    rows, total := [], 0;
    for i := 0 to |p.chips|
      invariant |rows| == i && total == DraftTotal(rows) == NetChips(db.shelves, product, p.chips[..i])
      invariant forall j :: 0 <= j < i ==>
                  rows[j] == DraftRow(db.shelves, StockKey(product, Some(p.chips[j].id)), p.chips[j].price)
    {
      var row := DraftRow(db.shelves, StockKey(product, Some(p.chips[i].id)), p.chips[i].price);
      assert (rows + [row])[..i] == rows && p.chips[..i + 1][..i] == p.chips[..i];
      rows, total := rows + [row], total + row.expected;
    }
    assert p.chips[..|p.chips|] == p.chips;
    var base := DraftRow(db.shelves, StockKey(product, None), p.basePrice);
    ghost var chipRows := rows;
    if p.chips == [] || base.expected != 0 {
      assert (rows + [base])[..|rows|] == rows;
      rows, total := rows + [base], total + base.expected;
    }
    DraftShows(db.catalog, db.shelves, product, chipRows, base, rows);
  }

  // ----- the two agree -----

  /** A shelf's rows are positive, and with a chip there is at most one. */
  ghost predicate RowsFit(shelf: Shelf, base: bool) {
    (!base ==> |shelf.owed| <= 1) && PositiveRows(shelf)
  }

  ghost predicate RowsAsIndexed(s: Shelves) {
    forall k: StockKey :: RowsFit(At(s, k), k.chip.None?)
  }

  lemma {:induction false} SalesKeepRows(s: Shelves, units: seq<StockKey>)
    requires RowsAsIndexed(s)
    ensures RowsAsIndexed(Reconciliation.Sold(s, units))
  {
    hide RowsFit, SellUnit;
    if units == [] {
    } else {
      var k := units[|units| - 1];
      SalesKeepRows(s, units[..|units| - 1]);
      UnitKeepsRows(At(Reconciliation.Sold(s, units[..|units| - 1]), k), k.chip.None?);
    }
  }

  lemma UnitKeepsRows(shelf: Shelf, base: bool)
    requires RowsFit(shelf, base)
    ensures RowsFit(SellUnit(shelf, base), base)
  {
    if !base && shelf.owed != [] {
      assert shelf.owed[0] in shelf.owed;
    }
  }

  lemma {:induction false} PassKeepsRows(pass: Reconciliation.Pass, catalog: Catalog, s: Shelves,
                                         lines: seq<Reconciliation.Line>)
    requires RowsAsIndexed(s)
    ensures RowsAsIndexed(Reconciliation.AfterPass(pass, catalog, s, lines))
  {
    hide RowsFit, Reconciliation.LineEffect, Reconciliation.Acts, Reconciliation.KeyOf;
    if lines == [] {
    } else {
      var init, last := lines[..|lines| - 1], lines[|lines| - 1];
      PassKeepsRows(pass, catalog, s, init);
      var k := Reconciliation.KeyOf(catalog, last);
      if k.Some? && Reconciliation.Acts(pass, last) {
        EffectKeepsRows(pass, last, At(Reconciliation.AfterPass(pass, catalog, s, init), k.value), k.value.chip.None?);
      }
    }
  }

  lemma EffectKeepsRows(pass: Reconciliation.Pass, line: Reconciliation.Line, shelf: Shelf, base: bool)
    requires RowsFit(shelf, base) && Reconciliation.Acts(pass, line)
    ensures RowsFit(Reconciliation.LineEffect(pass, line, shelf), base)
  {
    hide ConsumeFifo, Available;
    var after := Reconciliation.LineEffect(pass, line, shelf).owed;
    forall q | q in after ensures q > 0 {
      var i :| 0 <= i < |after| && after[i] == q;
      assert after == shelf.owed[1..] ==> q == shelf.owed[i + 1] && q in shelf.owed;
      assert |after| == |shelf.owed| && i > 0 ==> q == shelf.owed[i] && q in shelf.owed;
    }
  }

  /** Every stock count keeps the negative-balance rows as the index allows them. */
  lemma ReconciliationKeepsRows(catalog: Catalog, s: Shelves, lines: seq<Reconciliation.Line>)
    requires RowsAsIndexed(s)
    ensures RowsAsIndexed(Reconciliation.Reconciled(catalog, s, lines))
  {
    hide RowsAsIndexed;
    var sold := Reconciliation.Sold(s, Reconciliation.AllUnits(catalog, lines));
    var wasted := Reconciliation.AfterPass(Reconciliation.WastePass, catalog, sold, lines);
    SalesKeepRows(s, Reconciliation.AllUnits(catalog, lines));
    PassKeepsRows(Reconciliation.WastePass, catalog, sold, lines);
    PassKeepsRows(Reconciliation.SurplusPass, catalog, wasted, lines);
    PassKeepsRows(Reconciliation.ClearPass, catalog,
                  Reconciliation.AfterPass(Reconciliation.SurplusPass, catalog, wasted, lines), lines);
  }

  lemma {:induction false} LastIsAllIff(owed: seq<nat>)
    requires forall q :: q in owed ==> q > 0
    ensures (if owed == [] then 0 else owed[|owed| - 1]) == Sum(owed) <==> |owed| <= 1
  {
    if |owed| > 1 {
      var n := |owed| - 1;
      assert owed == owed[..n] + [owed[n]];
      SumAppend(owed[..n], owed[n]);
      assert owed[0] in owed && owed[..n][0] == owed[0];
    } else if |owed| == 1 {
      assert owed[1..] == [];
    }
  }

  lemma {:induction false} ChipsAgree(s: Shelves, product: nat, chips: seq<Chip>)
    requires RowsAsIndexed(s)
    ensures ChipTotal(s, product, chips) == NetChips(s, product, chips)
  {
    hide Available, Owed, Sum;
    if chips == [] {
    } else {
      ChipsAgree(s, product, chips[..|chips| - 1]);
      OptionAgrees(s, StockKey(product, Some(chips[|chips| - 1].id)));
    }
  }

  lemma OptionAgrees(s: Shelves, k: StockKey)
    requires RowsAsIndexed(s)
    ensures OverviewQty(s, k) == Net(At(s, k)) <==> |At(s, k).owed| <= 1
    ensures k.chip.Some? ==> OverviewQty(s, k) == Net(At(s, k))
  {
    LastIsAllIff(At(s, k).owed);
  }

  /**
   For every product, the overview's total and the draft's total are the same number exactly when base
   stock has at most one negative-balance row.
   */
  lemma TotalsAgreeIff(s: Shelves, product: nat, chips: seq<Chip>)
    requires RowsAsIndexed(s)
    ensures OverviewQty(s, StockKey(product, None)) + ChipTotal(s, product, chips) == ProductNet(s, product, chips)
       <==> |At(s, StockKey(product, None)).owed| <= 1
  {
    hide Available, Owed, OverviewQty, RowsAsIndexed;
    ChipsAgree(s, product, chips);
    OptionAgrees(s, StockKey(product, None));
  }

  /** Two base-price units sold past zero make two rows; the overview then misses one of them. */
  lemma TwoOversoldUnitsDisagree()
    ensures var shelf := SellUnit(SellUnit(Shelf([], []), true), true);
            shelf.owed == [1, 1] && Available(shelf) - LastOwed(shelf) == -1 && Net(shelf) == -2
  {
    var one := SellUnit(Shelf([], []), true);
    assert one.owed == [1];
    SellUnitEffect(Shelf([], []), true);
    SellUnitEffect(one, true);
  }
}
