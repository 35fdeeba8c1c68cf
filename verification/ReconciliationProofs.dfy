/** What an accepted stock count leaves on every option, and exactly when it leaves the counted quantity. */
module ReconciliationProofs {
  import opened Common
  import opened Inventory
  import opened Reconciliation

  // ----- selling units -----

  function Count(units: seq<StockKey>, k: StockKey): nat {
    if units == [] then 0
    else Count(units[..|units| - 1], k) + if units[|units| - 1] == k then 1 else 0
  }

  lemma {:induction false} CountConcat(a: seq<StockKey>, b: seq<StockKey>, k: StockKey)
    ensures Count(a + b, k) == Count(a, k) + Count(b, k)
  {
    if b == [] {
      assert a + b == a;
    } else {
      assert (a + b)[..|a + b| - 1] == a + b[..|b| - 1];
      CountConcat(a, b[..|b| - 1], k);
    }
  }

  function SellMany(shelf: Shelf, n: nat, base: bool): Shelf {
    if n == 0 then shelf else SellUnit(SellMany(shelf, n - 1, base), base)
  }

  /** Each option only sees its own units. */
  lemma {:induction false} SoldAt(s: Shelves, units: seq<StockKey>, k: StockKey)
    ensures At(Sold(s, units), k) == SellMany(At(s, k), Count(units, k), k.chip.None?)
  {
    hide SellUnit;
    if units == [] {
    } else {
      SoldAt(s, units[..|units| - 1], k);
    }
  }

  /** Selling n units lowers the net position by n, and as long as items last nothing is owed. */
  lemma {:induction false} SellManyEffect(shelf: Shelf, n: nat, base: bool)
    ensures Net(SellMany(shelf, n, base)) == Net(shelf) - n
    ensures n <= Available(shelf) ==>
              Available(SellMany(shelf, n, base)) == Available(shelf) - n && SellMany(shelf, n, base).owed == shelf.owed
  {
    hide SellUnit, Net, Available;
    if n == 0 {
    } else {
      SellManyEffect(shelf, n - 1, base);
      SellUnitEffect(SellMany(shelf, n - 1, base), base);
    }
  }

  lemma SellManyOwesIff(shelf: Shelf, n: nat, base: bool)
    ensures SellMany(shelf, n, base).owed == shelf.owed <==> n <= Available(shelf)
  {
    hide SellMany;
    SellManyEffect(shelf, n, base);
  }

  /** Sales leave every negative balance alone exactly when no option is sold more often than it has items. */
  lemma SalesOversellIff(s: Shelves, units: seq<StockKey>)
    ensures (forall k :: At(Sold(s, units), k).owed == At(s, k).owed)
            <==> (forall k :: Count(units, k) <= Available(At(s, k)))
  {
    hide Sold, SellMany, Count, Available, At;
    forall k
      ensures At(Sold(s, units), k).owed == At(s, k).owed <==> Count(units, k) <= Available(At(s, k))
    {
      SoldAt(s, units, k);
      SellManyOwesIff(At(s, k), Count(units, k), k.chip.None?);
    }
  }

  // ----- which option a line's units come from -----

  /** Some of the line's sales are taken from another option than the counted one. */
  predicate Misrouted(catalog: Catalog, line: Line) {
    KeyOf(catalog, line).Some?
    && exists j :: 0 <= j < |SaleRowsOf(line)|
                   && SaleKey(catalog, KeyOf(catalog, line).value, SaleRowsOf(line)[j].unitPrice)
                      != KeyOf(catalog, line).value
  }

  /** Only a base-price line can be misrouted: by a unit price that is a chip's price and not the base price. */
  lemma MisroutedByPrice(catalog: Catalog, k: StockKey, unitPrice: int)
    requires k.product in catalog
    ensures SaleKey(catalog, k, unitPrice) != k <==>
              k.chip.None? && unitPrice != catalog[k.product].basePrice
              && exists i :: 0 <= i < |catalog[k.product].chips| && catalog[k.product].chips[i].price == unitPrice
    ensures SaleKey(catalog, k, unitPrice).product == k.product
    ensures SaleKey(catalog, k, unitPrice) != k ==>
              exists i :: 0 <= i < |catalog[k.product].chips|
                          && catalog[k.product].chips[i] == Chip(SaleKey(catalog, k, unitPrice).chip.value, unitPrice)
                          && forall j :: 0 <= j < i ==> catalog[k.product].chips[j].price != unitPrice
  {
    ResolvedPriceIsFirst(catalog[k.product], unitPrice);
  }

  lemma {:induction false} CountSame(n: nat, unit: StockKey, k: StockKey)
    ensures Count(seq(n, i => unit), k) == if unit == k then n else 0
  {
    if n == 0 {
    } else {
      assert seq(n, i => unit)[..n - 1] == seq(n - 1, i => unit);
      CountSame(n - 1, unit, k);
    }
  }

  lemma CountRow(catalog: Catalog, k: StockKey, row: SaleRow, other: StockKey)
    requires row.quantity > 0
    ensures Count(RowUnits(catalog, k, row), other)
            == if SaleKey(catalog, k, row.unitPrice) == other then row.quantity else 0
  {
    CountSame(row.quantity, SaleKey(catalog, k, row.unitPrice), other);
    assert RowUnits(catalog, k, row) == seq(row.quantity, i => SaleKey(catalog, k, row.unitPrice));
  }

  /** A line's own option gets all its units exactly when no row is misrouted. */
  lemma {:induction false} CountOwnRows(catalog: Catalog, k: StockKey, rows: seq<SaleRow>)
    requires forall j :: 0 <= j < |rows| ==> rows[j].quantity > 0
    ensures Count(RowsUnits(catalog, k, rows), k) <= RowTotal(rows)
    ensures Count(RowsUnits(catalog, k, rows), k) == RowTotal(rows) <==>
              forall j :: 0 <= j < |rows| ==> SaleKey(catalog, k, rows[j].unitPrice) == k
  {
    hide SaleKey;
    if rows == [] {
    } else {
      var init, last := rows[..|rows| - 1], rows[|rows| - 1];
      CountOwnRows(catalog, k, init);
      CountRow(catalog, k, last, k);
      CountConcat(RowsUnits(catalog, k, init), RowUnits(catalog, k, last), k);
      assert forall j :: 0 <= j < |init| ==> init[j] == rows[j];
    }
  }

  lemma {:induction false} CountForeignRows(catalog: Catalog, k: StockKey, rows: seq<SaleRow>, other: StockKey)
    requires forall j :: 0 <= j < |rows| ==> rows[j].quantity > 0 && SaleKey(catalog, k, rows[j].unitPrice) != other
    ensures Count(RowsUnits(catalog, k, rows), other) == 0
  {
    hide SaleKey;
    if rows == [] {
    } else {
      var init, last := rows[..|rows| - 1], rows[|rows| - 1];
      assert forall j :: 0 <= j < |init| ==> init[j] == rows[j];
      CountForeignRows(catalog, k, init, other);
      CountRow(catalog, k, last, other);
      CountConcat(RowsUnits(catalog, k, init), RowUnits(catalog, k, last), other);
    }
  }

  /** A valid line's rows are positive and add up to its sale quantity. */
  lemma RowsOfValidLine(line: Line)
    requires LineRefusal(line).None?
    ensures forall j :: 0 <= j < |SaleRowsOf(line)| ==> SaleRowsOf(line)[j].quantity > 0
    ensures RowTotal(SaleRowsOf(line)) == SaleQty(line) >= 0
  {
    var rows := SaleRowsOf(line);
    if line.saleRows != [] {
      RowTotalPositive(rows);
    } else if rows != [] {
      assert rows[..0] == [];
    }
  }

  lemma {:induction false} RowTotalPositive(rows: seq<SaleRow>)
    requires forall j :: 0 <= j < |rows| ==> rows[j].quantity > 0
    ensures RowTotal(rows) >= 0
  {
    if rows == [] {
    } else {
      RowTotalPositive(rows[..|rows| - 1]);
    }
  }

  /** The lines name known options, no option twice. */
  ghost predicate DistinctOptions(catalog: Catalog, lines: seq<Line>) {
    && (forall i :: 0 <= i < |lines| ==> KeyOf(catalog, lines[i]).Some?)
    && forall i, j :: 0 <= i < j < |lines| ==> KeyOf(catalog, lines[i]) != KeyOf(catalog, lines[j])
  }

  ghost predicate ValidLines(lines: seq<Line>) {
    forall i :: 0 <= i < |lines| ==> LineRefusal(lines[i]).None?
  }

  /** The units another line takes from option k: none, unless that line is misrouted and k has a chip. */
  lemma CountOfOtherLine(catalog: Catalog, line: Line, k: StockKey)
    requires LineRefusal(line).None? && KeyOf(catalog, line).Some? && KeyOf(catalog, line).value != k
    requires k.chip.None? || !Misrouted(catalog, line)
    ensures Count(LineUnits(catalog, line), k) == 0
  {
    var own := KeyOf(catalog, line).value;
    RowsOfValidLine(line);
    forall j | 0 <= j < |SaleRowsOf(line)| ensures SaleKey(catalog, own, SaleRowsOf(line)[j].unitPrice) != k {
      MisroutedByPrice(catalog, own, SaleRowsOf(line)[j].unitPrice);
    }
    CountForeignRows(catalog, own, SaleRowsOf(line), k);
  }

  lemma {:induction false} CountAllZero(catalog: Catalog, lines: seq<Line>, k: StockKey)
    requires forall j :: 0 <= j < |lines| ==> Count(LineUnits(catalog, lines[j]), k) == 0
    ensures Count(AllUnits(catalog, lines), k) == 0
  {
    hide LineUnits;
    if lines == [] {
    } else {
      var init, last := lines[..|lines| - 1], lines[|lines| - 1];
      assert forall j :: 0 <= j < |init| ==> init[j] == lines[j];
      CountAllZero(catalog, init, k);
      CountConcat(AllUnits(catalog, init), LineUnits(catalog, last), k);
    }
  }

  lemma {:induction false} CountAllOne(catalog: Catalog, lines: seq<Line>, i: nat, k: StockKey)
    requires i < |lines|
    requires forall j :: 0 <= j < |lines| && j != i ==> Count(LineUnits(catalog, lines[j]), k) == 0
    ensures Count(AllUnits(catalog, lines), k) == Count(LineUnits(catalog, lines[i]), k)
  {
    hide LineUnits;
    var n := |lines| - 1;
    var init := lines[..n];
    assert forall j :: 0 <= j < n ==> init[j] == lines[j];
    CountConcat(AllUnits(catalog, init), LineUnits(catalog, lines[n]), k);
    if i == n {
      CountAllZero(catalog, init, k);
    } else {
      CountAllOne(catalog, init, i, k);
    }
  }

  /** How many units are taken from the option of line i, given nothing else is routed there. */
  lemma UnitsOfLine(catalog: Catalog, lines: seq<Line>, i: nat)
    requires ValidLines(lines) && DistinctOptions(catalog, lines) && i < |lines|
    requires KeyOf(catalog, lines[i]).value.chip.None? || forall j :: 0 <= j < |lines| ==> !Misrouted(catalog, lines[j])
    ensures var n := Count(AllUnits(catalog, lines), KeyOf(catalog, lines[i]).value);
            n <= SaleQty(lines[i]) && (n == SaleQty(lines[i]) <==> !Misrouted(catalog, lines[i]))
  {
    var k := KeyOf(catalog, lines[i]).value;
    hide LineRefusal, KeyOf, LineUnits, SaleQty, Misrouted;
    forall j | 0 <= j < |lines| && j != i ensures Count(LineUnits(catalog, lines[j]), k) == 0 {
      CountOfOtherLine(catalog, lines[j], k);
    }
    CountAllOne(catalog, lines, i, k);
    UnitsOfOwnLine(catalog, lines[i]);
  }

  lemma UnitsOfOwnLine(catalog: Catalog, line: Line)
    requires LineRefusal(line).None? && KeyOf(catalog, line).Some?
    ensures var n := Count(LineUnits(catalog, line), KeyOf(catalog, line).value);
            n <= SaleQty(line) && (n == SaleQty(line) <==> !Misrouted(catalog, line))
  {
    RowsOfValidLine(line);
    CountOwnRows(catalog, KeyOf(catalog, line).value, SaleRowsOf(line));
  }

  // ----- the passes -----

  lemma {:induction false} PassElsewhere(pass: Pass, catalog: Catalog, s: Shelves, lines: seq<Line>, k: StockKey)
    requires forall j :: 0 <= j < |lines| ==> KeyOf(catalog, lines[j]) != Some(k)
    ensures At(AfterPass(pass, catalog, s, lines), k) == At(s, k)
  {
    hide KeyOf, LineEffect, Acts;
    if lines == [] {
    } else {
      var init := lines[..|lines| - 1];
      assert forall j :: 0 <= j < |init| ==> init[j] == lines[j];
      PassElsewhere(pass, catalog, s, init, k);
    }
  }

  function Touched(pass: Pass, line: Line, shelf: Shelf): Shelf {
    if Acts(pass, line) then LineEffect(pass, line, shelf) else shelf
  }

  /** With distinct options a pass acts on each option once, by its own line. */
  lemma {:induction false} PassAt(pass: Pass, catalog: Catalog, s: Shelves, lines: seq<Line>, i: nat)
    requires DistinctOptions(catalog, lines) && i < |lines|
    ensures var k := KeyOf(catalog, lines[i]).value;
            At(AfterPass(pass, catalog, s, lines), k) == Touched(pass, lines[i], At(s, k))
  {
    hide KeyOf, LineEffect, Acts;
    var n := |lines| - 1;
    var init := lines[..n];
    assert forall j :: 0 <= j < n ==> init[j] == lines[j];
    if i == n {
      PassElsewhere(pass, catalog, s, init, KeyOf(catalog, lines[n]).value);
    } else {
      PassAt(pass, catalog, s, init, i);
    }
  }

  /** With distinct options the waste is covered exactly when each line's own option covers it. */
  lemma {:induction false} WasteCoveredIff(catalog: Catalog, s: Shelves, lines: seq<Line>)
    requires DistinctOptions(catalog, lines)
    ensures WasteCovered(catalog, s, lines) <==>
              forall i :: 0 <= i < |lines| && Acts(WastePass, lines[i]) ==>
                lines[i].wasteQty <= Available(At(s, KeyOf(catalog, lines[i]).value))
  {
    hide KeyOf, Available;
    if lines == [] {
    } else {
      var n := |lines| - 1;
      var init := lines[..n];
      assert forall j :: 0 <= j < n ==> init[j] == lines[j];
      WasteCoveredIff(catalog, s, init);
      PassElsewhere(WastePass, catalog, s, init, KeyOf(catalog, lines[n]).value);
    }
  }

  // ----- the results -----

  /** Every line was counted against the position the stock has now. */
  ghost predicate Fresh(catalog: Catalog, s: Shelves, lines: seq<Line>) {
    forall i :: 0 <= i < |lines| ==> FreshnessRefusal(catalog, s, lines[i]).None?
  }

  lemma FreshLine(catalog: Catalog, s: Shelves, line: Line)
    requires FreshnessRefusal(catalog, s, line).None?
    ensures KeyOf(catalog, line).Some? && line.expected == Net(At(s, KeyOf(catalog, line).value))
  {
  }

  ghost predicate NoneMisrouted(catalog: Catalog, lines: seq<Line>) {
    forall i :: 0 <= i < |lines| ==> !Misrouted(catalog, lines[i])
  }

  /** Selling and wasting what a line says fits into what is available. */
  lemma LineFits(catalog: Catalog, s: Shelves, line: Line)
    requires LineRefusal(line).None? && FreshnessRefusal(catalog, s, line).None?
    ensures SaleQty(line) >= 0 && line.wasteQty >= 0
    ensures SaleQty(line) + line.wasteQty == Max(0, line.expected - line.counted)
    ensures SaleQty(line) + line.wasteQty <= Available(At(s, KeyOf(catalog, line).value))
  {
    RowsOfValidLine(line);
    FreshLine(catalog, s, line);
  }

  /**
   A valid, fresh count of distinct options without misrouted sales never runs out of stock: the waste is
   covered and no sale adds to any negative balance.
   */
  lemma NeverOutOfStock(catalog: Catalog, s: Shelves, lines: seq<Line>)
    requires ValidLines(lines) && DistinctOptions(catalog, lines)
             && Fresh(catalog, s, lines) && NoneMisrouted(catalog, lines)
    ensures WasteCovered(catalog, Sold(s, AllUnits(catalog, lines)), lines)
    ensures forall k :: At(Sold(s, AllUnits(catalog, lines)), k).owed == At(s, k).owed
  {
    hide LineRefusal, FreshnessRefusal, Misrouted, SellMany, KeyOf, SaleQty;
    var sold := Sold(s, AllUnits(catalog, lines));
    forall i | 0 <= i < |lines|
      ensures At(sold, KeyOf(catalog, lines[i]).value).owed == At(s, KeyOf(catalog, lines[i]).value).owed
      ensures Acts(WastePass, lines[i]) ==> lines[i].wasteQty <= Available(At(sold, KeyOf(catalog, lines[i]).value))
    {
      OptionAfterSales(catalog, s, lines, i);
    }
    WasteCoveredIff(catalog, sold, lines);
    forall k | forall j :: 0 <= j < |lines| ==> KeyOf(catalog, lines[j]) != Some(k)
      ensures At(sold, k).owed == At(s, k).owed
    {
      ElsewhereAfterSales(catalog, s, lines, k);
    }
  }

  lemma OptionAfterSales(catalog: Catalog, s: Shelves, lines: seq<Line>, i: nat)
    requires ValidLines(lines) && DistinctOptions(catalog, lines)
             && Fresh(catalog, s, lines) && NoneMisrouted(catalog, lines)
    requires i < |lines|
    ensures var k, sold := KeyOf(catalog, lines[i]).value, Sold(s, AllUnits(catalog, lines));
            && At(sold, k).owed == At(s, k).owed && SaleQty(lines[i]) >= 0
            && Available(At(sold, k)) == Available(At(s, k)) - SaleQty(lines[i])
            && lines[i].wasteQty <= Available(At(sold, k))
  {
    hide LineRefusal, FreshnessRefusal, Misrouted, KeyOf, SaleQty, SellMany, Available;
    var k := KeyOf(catalog, lines[i]).value;
    LineFits(catalog, s, lines[i]);
    UnitsOfLine(catalog, lines, i);
    SoldAt(s, AllUnits(catalog, lines), k);
    SellManyEffect(At(s, k), SaleQty(lines[i]), k.chip.None?);
  }

  lemma ElsewhereAfterSales(catalog: Catalog, s: Shelves, lines: seq<Line>, k: StockKey)
    requires ValidLines(lines) && NoneMisrouted(catalog, lines)
    requires forall j :: 0 <= j < |lines| ==> KeyOf(catalog, lines[j]).Some? && KeyOf(catalog, lines[j]) != Some(k)
    ensures At(Sold(s, AllUnits(catalog, lines)), k) == At(s, k)
  {
    hide LineRefusal, Misrouted, KeyOf, LineUnits, SellUnit;
    forall j | 0 <= j < |lines| ensures Count(LineUnits(catalog, lines[j]), k) == 0 {
      CountOfOtherLine(catalog, lines[j], k);
    }
    CountAllZero(catalog, lines, k);
    SoldAt(s, AllUnits(catalog, lines), k);
  }

  function ThreePasses(line: Line, shelf: Shelf): Shelf {
    Touched(ClearPass, line, Touched(SurplusPass, line, Touched(WastePass, line, shelf)))
  }

  lemma ShortLinePasses(line: Line, shelf: Shelf)
    requires line.counted <= line.expected && line.counted >= 0 && 0 <= line.wasteQty
    requires line.wasteQty > 0 ==> line.wasteQty <= Available(shelf)
    ensures Net(ThreePasses(line, shelf)) == Net(shelf) - line.wasteQty
  {
    if line.wasteQty > 0 {
      ConsumeFifoTakes(shelf.lots, line.wasteQty);
    }
  }

  /** The shelf of a line's option after the three passes. */
  lemma ReconciledAt(catalog: Catalog, s: Shelves, lines: seq<Line>, i: nat)
    requires DistinctOptions(catalog, lines) && i < |lines|
    ensures At(Reconciled(catalog, s, lines), KeyOf(catalog, lines[i]).value)
         == ThreePasses(lines[i], At(Sold(s, AllUnits(catalog, lines)), KeyOf(catalog, lines[i]).value))
  {
    hide Touched, AfterPass, Sold, KeyOf;
    var sold := Sold(s, AllUnits(catalog, lines));
    var wasted := AfterPass(WastePass, catalog, sold, lines);
    PassAt(WastePass, catalog, sold, lines, i);
    PassAt(SurplusPass, catalog, wasted, lines, i);
    PassAt(ClearPass, catalog, AfterPass(SurplusPass, catalog, wasted, lines), lines, i);
  }

  /** A line counted at or below expected: its net position drops by the units sold from it and its waste. */
  lemma ShortLineNet(catalog: Catalog, s: Shelves, lines: seq<Line>, i: nat)
    requires ValidLines(lines) && DistinctOptions(catalog, lines) && i < |lines|
    requires WasteCovered(catalog, Sold(s, AllUnits(catalog, lines)), lines)
    requires lines[i].counted <= lines[i].expected
    ensures var k := KeyOf(catalog, lines[i]).value;
            Net(At(Reconciled(catalog, s, lines), k))
            == Net(At(s, k)) - Count(AllUnits(catalog, lines), k) - lines[i].wasteQty
  {
    hide KeyOf, LineRefusal, SellMany, Reconciled, ThreePasses, Net, Available, Sold, WasteCovered;
    var k, sold := KeyOf(catalog, lines[i]).value, Sold(s, AllUnits(catalog, lines));
    ReconciledAt(catalog, s, lines, i);
    SoldAt(s, AllUnits(catalog, lines), k);
    SellManyEffect(At(s, k), Count(AllUnits(catalog, lines), k), k.chip.None?);
    WasteCoveredIff(catalog, sold, lines);
    CountedNonNegative(lines[i]);
    ShortLinePasses(lines[i], At(sold, k));
  }

  lemma CountedNonNegative(line: Line)
    requires LineRefusal(line).None?
    ensures line.counted >= 0 && line.wasteQty >= 0
  {
  }

  /**
   In an accepted count of distinct options, every line counted at or below expected ends with its net
   stock equal to the count exactly when no base-price sale was entered at a chip's price.
   */
  lemma ShortLinesEndAtCountIff(catalog: Catalog, s: Shelves, lines: seq<Line>)
    requires ValidLines(lines) && DistinctOptions(catalog, lines) && Fresh(catalog, s, lines)
    requires WasteCovered(catalog, Sold(s, AllUnits(catalog, lines)), lines)
    ensures (forall i :: 0 <= i < |lines| && lines[i].counted <= lines[i].expected ==>
               Net(At(Reconciled(catalog, s, lines), KeyOf(catalog, lines[i]).value)) == lines[i].counted)
       <==> NoneMisrouted(catalog, lines)
  {
    hide KeyOf, LineRefusal, FreshnessRefusal, Misrouted, Net, Reconciled, WasteCovered, SaleQty, Sold;
    if NoneMisrouted(catalog, lines) {
      forall i | 0 <= i < |lines| && lines[i].counted <= lines[i].expected
        ensures Net(At(Reconciled(catalog, s, lines), KeyOf(catalog, lines[i]).value)) == lines[i].counted
      {
        ShortLineNet(catalog, s, lines, i);
        UnitsOfLine(catalog, lines, i);
        LineFits(catalog, s, lines[i]);
        FreshLine(catalog, s, lines[i]);
      }
    } else {
      var b :| 0 <= b < |lines| && Misrouted(catalog, lines[b]);
      MisroutedLineIsBase(catalog, lines[b]);
      UnitsOfLine(catalog, lines, b);
      LineFits(catalog, s, lines[b]);
      FreshLine(catalog, s, lines[b]);
      ShortLineNet(catalog, s, lines, b);
      assert Net(At(Reconciled(catalog, s, lines), KeyOf(catalog, lines[b]).value)) > lines[b].counted;
    }
  }

  lemma MisroutedLineIsBase(catalog: Catalog, line: Line)
    requires Misrouted(catalog, line) && LineRefusal(line).None?
    ensures KeyOf(catalog, line).value.chip.None? && line.counted <= line.expected
  {
    RowsOfValidLine(line);
    var rows := SaleRowsOf(line);
    RowTotalAtLeast(rows);
  }

  lemma {:induction false} RowTotalAtLeast(rows: seq<SaleRow>)
    requires forall j :: 0 <= j < |rows| ==> rows[j].quantity > 0
    ensures RowTotal(rows) >= |rows|
  {
    if rows == [] {
    } else {
      RowTotalAtLeast(rows[..|rows| - 1]);
    }
  }

  lemma SellNone(shelf: Shelf, base: bool)
    ensures SellMany(shelf, 0, base) == shelf
  {
  }

  lemma NothingToNet(shelf: Shelf, counted: int)
    requires counted <= Available(shelf)
    ensures SurplusShelf(shelf, counted) == shelf
  {
  }

  /**
   Surplus: offset and restock are together everything above the available items. Only the first row is
   netted, so a restock leaves nothing owed exactly when there was at most one row.
   */
  lemma SurplusNetsFirst(shelf: Shelf, counted: int)
    requires PositiveRows(shelf)
    ensures var after := SurplusShelf(shelf, counted);
            && Offset(shelf, counted) + RestockQty(shelf, counted) == Max(0, counted - Available(shelf))
            && Available(after) == Available(shelf) + RestockQty(shelf, counted)
            && Owed(after) == Owed(shelf) - Offset(shelf, counted)
            && (RestockQty(shelf, counted) > 0 ==> (after.owed == [] <==> |shelf.owed| <= 1))
            && PositiveRows(after)
  {
    SumAppend(shelf.lots, RestockQty(shelf, counted));
    if shelf.owed != [] {
      FirstRowNetted(shelf.owed, Offset(shelf, counted));
      assert shelf.owed[0] in shelf.owed;
    }
    var after := SurplusShelf(shelf, counted).owed;
    forall q | q in after ensures q > 0 {
      var i :| 0 <= i < |after| && after[i] == q;
      assert after == shelf.owed[1..] ==> q == shelf.owed[i + 1] && q in shelf.owed;
      assert |after| == |shelf.owed| && i > 0 ==> q == shelf.owed[i] && q in shelf.owed;
    }
  }

  lemma FirstRowNetted(owed: seq<nat>, offset: nat)
    requires owed != [] && offset <= owed[0]
    ensures Sum(owed[0 := owed[0] - offset]) == Sum(owed) - offset
    ensures Sum(owed) == owed[0] + Sum(owed[1..])
  {
    assert owed[0 := owed[0] - offset][1..] == owed[1..];
  }

  /**
   A line counted above expected ends with its net stock equal to the count exactly when nothing was owed on
   the option, or when a zero count finds as many items as the rows behind the first one owe. A zero count on
   a negative position drops the first row only, so it clears the position exactly when there was one row.
   */
  lemma SurplusLineEndsAtCountIff(catalog: Catalog, s: Shelves, lines: seq<Line>, i: nat)
    requires ValidLines(lines) && DistinctOptions(catalog, lines)
             && Fresh(catalog, s, lines) && NoneMisrouted(catalog, lines)
    requires i < |lines| && lines[i].counted > lines[i].expected
    requires PositiveRows(At(s, KeyOf(catalog, lines[i]).value))
    ensures var k := KeyOf(catalog, lines[i]).value;
            var before, after := At(s, k), At(Reconciled(catalog, s, lines), k);
            && (Net(after) == lines[i].counted <==>
                  before.owed == [] || (lines[i].counted == 0 && Available(before) == Sum(before.owed[1..])))
            && (if lines[i].counted == 0 && lines[i].expected < 0
                then before.owed != [] && after == before.(owed := before.owed[1..])
                     && (after.owed == [] <==> |before.owed| == 1)
                else after == SurplusShelf(before, lines[i].counted))
  {
    hide KeyOf, LineRefusal, FreshnessRefusal, Misrouted, SellMany, Reconciled, Sold, SaleQty, ThreePasses,
      SurplusShelf, DistinctOptions, Fresh, NoneMisrouted, ValidLines;
    SurplusLineShelf(catalog, s, lines, i);
    var k := KeyOf(catalog, lines[i]).value;
    SurplusLineNet(At(s, k), lines[i].counted);
    if lines[i].counted == 0 && Net(At(s, k)) < 0 {
      NetWithoutFirst(At(s, k));
    }
  }

  /** What a surplus line's option goes through: nothing is sold or wasted, then netting, then clearing. */
  lemma SurplusLineShelf(catalog: Catalog, s: Shelves, lines: seq<Line>, i: nat)
    requires ValidLines(lines) && DistinctOptions(catalog, lines)
             && Fresh(catalog, s, lines) && NoneMisrouted(catalog, lines)
    requires i < |lines| && lines[i].counted > lines[i].expected
    requires PositiveRows(At(s, KeyOf(catalog, lines[i]).value))
    ensures KeyOf(catalog, lines[i]).Some? && lines[i].counted >= 0
    ensures var k := KeyOf(catalog, lines[i]).value;
            var before, after := At(s, k), At(Reconciled(catalog, s, lines), k);
            && lines[i].expected == Net(before)
            && (if lines[i].counted == 0 && lines[i].expected < 0
                then before.owed != [] && after == before.(owed := before.owed[1..])
                else after == SurplusShelf(before, lines[i].counted))
  {
    hide KeyOf, LineRefusal, FreshnessRefusal, Misrouted, SellMany, Reconciled, Sold, SaleQty, SurplusShelf;
    var k, line := KeyOf(catalog, lines[i]).value, lines[i];
    var before := At(s, k);
    ReconciledAt(catalog, s, lines, i);
    LineFits(catalog, s, line);
    FreshLine(catalog, s, line);
    CountedNonNegative(line);
    UnitsOfLine(catalog, lines, i);
    SoldAt(s, AllUnits(catalog, lines), k);
    assert SellMany(before, 0, k.chip.None?) == before by { SellNone(before, k.chip.None?); }
    PositiveOwed(before);
    assert before.owed != [] ==> before.owed[0] in before.owed;
    if line.counted <= Available(before) { NothingToNet(before, line.counted); }
  }

  /** After netting, the net position is the count exactly when nothing was owed. */
  lemma SurplusLineNet(shelf: Shelf, counted: int)
    requires PositiveRows(shelf) && counted > Net(shelf)
    ensures Net(SurplusShelf(shelf, counted)) == counted <==> shelf.owed == []
  {
    hide SurplusShelf;
    SurplusNetsFirst(shelf, counted);
    PositiveOwed(shelf);
  }

  lemma NetWithoutFirst(shelf: Shelf)
    requires shelf.owed != []
    ensures Net(shelf.(owed := shelf.owed[1..])) == Available(shelf) - Sum(shelf.owed[1..])
  {
  }

  // ----- counts the source accepts that leave the stock off the count -----

  /** A pass with nothing to do leaves the stock alone. */
  lemma {:induction false} IdlePass(pass: Pass, catalog: Catalog, s: Shelves, lines: seq<Line>)
    requires forall j :: 0 <= j < |lines| ==> !Acts(pass, lines[j])
    ensures AfterPass(pass, catalog, s, lines) == s
    ensures pass == WastePass ==> WasteCovered(catalog, s, lines)
  {
    if lines == [] {
    } else {
      IdlePass(pass, catalog, s, lines[..|lines| - 1]);
    }
  }

  lemma OnlySales(catalog: Catalog, s: Shelves, lines: seq<Line>)
    requires forall j :: 0 <= j < |lines| ==> lines[j].wasteQty == 0 && 0 <= lines[j].counted <= lines[j].expected
    ensures Reconciled(catalog, s, lines) == Sold(s, AllUnits(catalog, lines))
    ensures WasteCovered(catalog, Sold(s, AllUnits(catalog, lines)), lines)
  {
    var sold := Sold(s, AllUnits(catalog, lines));
    IdlePass(WastePass, catalog, sold, lines);
    IdlePass(SurplusPass, catalog, sold, lines);
    IdlePass(ClearPass, catalog, sold, lines);
  }

  /** One sale row of one unit is one unit order. */
  lemma OneUnit(catalog: Catalog, k: StockKey, row: SaleRow)
    requires row.quantity == 1
    ensures RowsUnits(catalog, k, [row]) == [SaleKey(catalog, k, row.unitPrice)] && RowTotal([row]) == 1
  {
    assert [row][..0] == [];
    assert RowsUnits(catalog, k, [row][..0]) == [];
    assert RowTotal([row][..0]) == 0;
  }

  lemma OneLineUnits(catalog: Catalog, line: Line)
    ensures AllUnits(catalog, [line]) == LineUnits(catalog, line)
  {
    assert [line][..0] == [] && AllUnits(catalog, [line][..0]) == [];
  }

  lemma TwoLineUnits(catalog: Catalog, line: Line)
    ensures AllUnits(catalog, [line, line]) == LineUnits(catalog, line) + LineUnits(catalog, line)
  {
    OneLineUnits(catalog, line);
    assert [line, line][..1] == [line];
  }

  /** Lines that pass on their own and only sell are accepted together, repeated options or not. */
  lemma SalesAccepted(catalog: Catalog, s: Shelves, lines: seq<Line>)
    requires lines != []
    requires forall j :: 0 <= j < |lines| ==>
               LineRefusal(lines[j]).None? && FreshnessRefusal(catalog, s, lines[j]).None?
    requires forall j :: 0 <= j < |lines| ==> lines[j].wasteQty == 0 && 0 <= lines[j].counted <= lines[j].expected
    ensures Refusals(catalog, s, Submission(true, Cash, false, lines)).None?
  {
    hide LineRefusal, FreshnessRefusal, AllUnits, Sold, WasteCovered;
    OnlySales(catalog, s, lines);
  }

  /** Selling n units from one option lowers its net position by n and no other. */
  lemma UnitsSold(s: Shelves, n: nat, unit: StockKey, k: StockKey)
    ensures Net(At(Sold(s, seq(n, i => unit)), k)) == Net(At(s, k)) - if unit == k then n else 0
  {
    hide Sold, SellMany, Net, At, Count;
    SoldAt(s, seq(n, i => unit), k);
    CountSame(n, unit, k);
    SellManyEffect(At(s, k), if unit == k then n else 0, k.chip.None?);
  }

  /** Two base units oversold one at a time, so that two rows are owed. */
  function TwiceOversold(): Shelf {
    Shelf([], [1, 1])
  }

  /**
   A zero count for the position -2 is accepted and leaves one unit owed; a count of 3 restocks 2 and leaves one
   owed.
   */
  lemma SecondRowSurvives()
    ensures var catalog := map[1 := Product(true, 100, [])];
            var s := map[BASE_KEY := TwiceOversold()];
            var line := Line(1, None, None, -2, 0, 0, 0, None, false, []);
            && Refusals(catalog, s, Submission(true, Cash, false, [line])).None?
            && At(Reconciled(catalog, s, [line]), BASE_KEY) == Shelf([], [1])
            && SurplusShelf(TwiceOversold(), 3) == Shelf([2], [1])
  {
    var catalog := map[1 := Product(true, 100, [])];
    var s := map[BASE_KEY := TwiceOversold()];
    var line := Line(1, None, None, -2, 0, 0, 0, None, false, []);
    assert [1, 1][1..] == [1];
    assert [1][1..] == [];
    assert Net(TwiceOversold()) == -2;
    assert SurplusShelf(TwiceOversold(), 3) == Shelf([2], [1]);
    assert LineRefusal(line).None? && FreshnessRefusal(catalog, s, line).None?
           && KeyOf(catalog, line) == Some(BASE_KEY);
    assert LineUnits(catalog, line) == [];
    hide LineRefusal, FreshnessRefusal, KeyOf, LineUnits, SurplusShelf;
    NothingSoldOrWasted(catalog, s, line);
    SurplusLineShelf(catalog, s, [line], 0);
  }

  /** One line that neither sells nor wastes is refused only for itself. */
  lemma NothingSoldOrWasted(catalog: Catalog, s: Shelves, line: Line)
    requires LineRefusal(line).None? && FreshnessRefusal(catalog, s, line).None?
    requires line.wasteQty == 0 && line.saleQty == 0 && line.saleRows == []
    ensures Refusals(catalog, s, Submission(true, Cash, false, [line])).None?
    ensures !Misrouted(catalog, line)
  {
    hide LineRefusal, FreshnessRefusal, KeyOf, AllUnits, Sold;
    IdlePass(WastePass, catalog, Sold(s, AllUnits(catalog, [line])), [line]);
  }

  const BASE_KEY := StockKey(1, None)
  const CHIP_KEY := StockKey(1, Some(7))

  /** Product 1 at 100, or with a chip at 120; two on the base shelf, nothing on the chip's. */
  function ChipCatalog(): Catalog {
    map[1 := Product(true, 100, [Chip(7, 120)])]
  }

  function ChipStock(): Shelves {
    map[BASE_KEY := Shelf([2], [])]
  }

  /** One base unit missing, sold for 120. */
  function MisroutedLine(): Line {
    Line(1, None, None, 2, 1, 0, 0, None, false, [SaleRow(1, 120, Cash)])
  }

  lemma MisroutedLinePasses()
    ensures LineRefusal(MisroutedLine()).None? && FreshnessRefusal(ChipCatalog(), ChipStock(), MisroutedLine()).None?
    ensures LineUnits(ChipCatalog(), MisroutedLine()) == [CHIP_KEY]
    ensures Net(At(ChipStock(), BASE_KEY)) == 2 && Net(At(ChipStock(), CHIP_KEY)) == 0
  {
    assert [2][1..] == [];
    OneUnit(ChipCatalog(), BASE_KEY, SaleRow(1, 120, Cash));
    hide RowsUnits;
  }

  /** The line is accepted, yet its unit leaves the chip's shelf and the base shelf stays off the count. */
  lemma MisroutedSaleIsAccepted()
    ensures Refusals(ChipCatalog(), ChipStock(), Submission(true, Cash, false, [MisroutedLine()])).None?
    ensures MisroutedLine().counted == 1
    ensures Net(At(Reconciled(ChipCatalog(), ChipStock(), [MisroutedLine()]), BASE_KEY)) == 2
    ensures Net(At(Reconciled(ChipCatalog(), ChipStock(), [MisroutedLine()]), CHIP_KEY)) == -1
  {
    var line := MisroutedLine();
    MisroutedLinePasses();
    hide ChipCatalog, ChipStock, Net, At, Reconciled, Refusals, LineUnits, AllUnits, Sold, LineRefusal,
      FreshnessRefusal;
    SalesAccepted(ChipCatalog(), ChipStock(), [line]);
    OneLineUnits(ChipCatalog(), line);
    OnlySales(ChipCatalog(), ChipStock(), [line]);
    UnitsSold(ChipStock(), 1, CHIP_KEY, BASE_KEY);
    UnitsSold(ChipStock(), 1, CHIP_KEY, CHIP_KEY);
    assert seq(1, i => CHIP_KEY) == [CHIP_KEY];
  }

  /** One unit on the shelf; two lines for the same option each report it sold. */
  lemma RepeatedOptionOversells()
    ensures var catalog := map[1 := Product(true, 100, [])];
            var s := map[StockKey(1, None) := Shelf([1], [])];
            var line := Line(1, None, None, 1, 0, 1, 0, Some(100), false, []);
            && Refusals(catalog, s, Submission(true, Cash, false, [line, line])).None?
            && Net(At(Reconciled(catalog, s, [line, line]), StockKey(1, None))) == -1
  {
    hide FirstLineRefusal, FirstFreshnessRefusal, AllUnits, RowsUnits, Sold, SellMany, Reconciled, WasteCovered,
      Refusals;
    var catalog := map[1 := Product(true, 100, [])];
    var s := map[StockKey(1, None) := Shelf([1], [])];
    var line := Line(1, None, None, 1, 0, 1, 0, Some(100), false, []);
    var base, row := StockKey(1, None), SaleRow(1, 100, Cash);
    assert Net(At(s, base)) == 1 by { assert [1][1..] == []; }
    assert KeyOf(catalog, line) == Some(base) && SaleRowsOf(line) == [row];
    OneUnit(catalog, base, row);
    TwoLineUnits(catalog, line);
    assert AllUnits(catalog, [line, line]) == [base, base];
    OnlySales(catalog, s, [line, line]);
    UnitsSold(s, 2, base, base);
    assert seq(2, i => base) == [base, base];
    SalesAccepted(catalog, s, [line, line]);
  }
}
