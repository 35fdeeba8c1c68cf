/**
 Stock taken by an order, given back and taken again when the order is edited, and given back when it is
 cancelled. Every sale movement remembers the items it took, lot by lot, and what it oversold.
 */
module OrderStock {
  import opened Common
  import opened Inventory
  import Reconciliation

  datatype Source = PointOfSale | StockCount | OtherSource

  /** A line that is no gift; `product` is None when the line's product id matches no product. */
  datatype SoldItem = SoldItem(product: Option<nat>, chip: Option<nat>, unitPrice: int, quantity: int,
                               useInventory: Option<bool>)

  /** A sale movement: the items that carry its id, per lot of its option, and its negative_sale quantity. */
  datatype Movement = Movement(option: StockKey, quantity: int, taken: seq<nat>, deficit: nat)

  // ----- taking -----

  predicate Known(catalog: Catalog, item: SoldItem) {
    item.product.Some? && item.product.value in catalog
  }

  predicate ChipRefused(catalog: Catalog, item: SoldItem) {
    Known(catalog, item) && item.chip.Some? && !HasChip(catalog[item.product.value], item.chip.value)
  }

  /** The line gets a movement: its product is on display. */
  predicate Moves(catalog: Catalog, item: SoldItem) {
    Known(catalog, item) && catalog[item.product.value].displayed
  }

  function OptionOf(catalog: Catalog, item: SoldItem): StockKey
    requires Known(catalog, item)
  {
    Reconciliation.SaleKey(catalog, StockKey(item.product.value, item.chip), item.unitPrice)
  }

  /** Whether items are taken: as the line says, else for sales over the counter and stock counts only. */
  predicate Consumes(item: SoldItem, source: Source) {
    if item.useInventory.Some? then item.useInventory.value else source != OtherSource
  }

  /** What FIFO takes from each lot. */
  function Taken(lots: seq<nat>, quantity: nat): (taken: seq<nat>)
    ensures |taken| == |lots|
  {
    if lots == [] then []
    else [Min(lots[0], quantity)] + Taken(lots[1..], quantity - Min(lots[0], quantity))
  }

  /** Per lot nothing is lost, and in all the quantity is what was taken and what was missing. */
  lemma {:induction false} TakenAndLeft(lots: seq<nat>, quantity: nat)
    ensures forall i :: 0 <= i < |lots| ==> lots[i] == ConsumeFifo(lots, quantity).0[i] + Taken(lots, quantity)[i]
    ensures Sum(Taken(lots, quantity)) + ConsumeFifo(lots, quantity).1 == quantity
  {
    if lots == [] {
    } else {
      var take := Min(lots[0], quantity);
      TakenAndLeft(lots[1..], quantity - take);
      assert ([take] + Taken(lots[1..], quantity - take))[1..] == Taken(lots[1..], quantity - take);
    }
  }

  datatype Deduction = Deduction(shelves: Shelves, movements: seq<Movement>, ok: bool)

  /** One line's movement; where overselling is not allowed, a shortage stops with all items of the option taken. */
  function TakeLine(s: Shelves, k: StockKey, quantity: int, consumes: bool, mayOwe: bool): (Shelves, Movement, bool) {
    var shelf, n := At(s, k), if consumes then Max(0, quantity) else 0;
    var (left, missing) := ConsumeFifo(shelf.lots, n);
    var short := missing > 0 && !mayOwe;
    var deficit := if short then 0 else missing;
    (s[k := Shelf(left, UpsertOwed(shelf.owed, k.chip.None?, deficit))],
     Movement(k, quantity, Taken(shelf.lots, n), deficit), !short)
  }

  /** One line on top of the lines before it. */
  function DeductLine(catalog: Catalog, before: Deduction, item: SoldItem, source: Source): Deduction {
    if !before.ok || !Known(catalog, item) then before
    else if ChipRefused(catalog, item) then before.(ok := false)
    else if !Moves(catalog, item) then before
    else
      var (after, m, ok) :=
        TakeLine(before.shelves, OptionOf(catalog, item), item.quantity, Consumes(item, source), source != OtherSource);
      Deduction(after, before.movements + [m], ok)
  }

  /** The lines in order, up to the first that is refused. */
  function Deduct(catalog: Catalog, s: Shelves, items: seq<SoldItem>, source: Source): Deduction {
    if items == [] then Deduction(s, [], true)
    else DeductLine(catalog, Deduct(catalog, s, items[..|items| - 1], source), items[|items| - 1], source)
  }

  /** The items of an option that movements took. */
  function TakenAt(ms: seq<Movement>, k: StockKey): nat {
    if ms == [] then 0
    else TakenAt(ms[..|ms| - 1], k) + if ms[|ms| - 1].option == k then Sum(ms[|ms| - 1].taken) else 0
  }

  /** What movements oversold of an option. */
  function DeficitAt(ms: seq<Movement>, k: StockKey): nat {
    if ms == [] then 0
    else DeficitAt(ms[..|ms| - 1], k) + if ms[|ms| - 1].option == k then ms[|ms| - 1].deficit else 0
  }

  function LineUnits(catalog: Catalog, item: SoldItem, source: Source, k: StockKey): nat {
    if Moves(catalog, item) && OptionOf(catalog, item) == k && Consumes(item, source) then Max(0, item.quantity) else 0
  }

  /** The units of an option that the lines ask for. */
  function Units(catalog: Catalog, items: seq<SoldItem>, source: Source, k: StockKey): nat {
    if items == [] then 0
    else Units(catalog, items[..|items| - 1], source, k) + LineUnits(catalog, items[|items| - 1], source, k)
  }

  lemma TakeLineEffect(s: Shelves, k: StockKey, quantity: int, consumes: bool, mayOwe: bool)
    ensures var (after, m, ok) := TakeLine(s, k, quantity, consumes, mayOwe);
            var n := if consumes then Max(0, quantity) else 0;
            && Available(At(after, k)) == Available(At(s, k)) - Sum(m.taken)
            && Owed(At(after, k)) == Owed(At(s, k)) + m.deficit
            && (ok ==> Sum(m.taken) + m.deficit == n)
            && (ok <==> mayOwe || n <= Available(At(s, k)))
            && (!ok || m.deficit > 0 ==> Available(At(after, k)) == 0)
            && (!mayOwe ==> m.deficit == 0)
  {
    var n := if consumes then Max(0, quantity) else 0;
    ConsumeFifoTakes(At(s, k).lots, n);
    TakenAndLeft(At(s, k).lots, n);
    var missing := ConsumeFifo(At(s, k).lots, n).1;
    UpsertAddsDeficit(At(s, k).owed, k.chip.None?, missing);
    UpsertAddsDeficit(At(s, k).owed, k.chip.None?, 0);
  }

  lemma DeductLineMovesStock(catalog: Catalog, before: Deduction, item: SoldItem, source: Source, k: StockKey)
    ensures var after := DeductLine(catalog, before, item, source);
            var taken, deficit := TakenAt(after.movements, k) - TakenAt(before.movements, k),
                                  DeficitAt(after.movements, k) - DeficitAt(before.movements, k);
            && Available(At(after.shelves, k)) == Available(At(before.shelves, k)) - taken
            && Owed(At(after.shelves, k)) == Owed(At(before.shelves, k)) + deficit
            && (after.ok ==> before.ok && taken + deficit == LineUnits(catalog, item, source, k))
            && (source == OtherSource ==> deficit == 0)
  {
    hide TakeLine, OptionOf, Available, Owed, At, HasChip, Consumes;
    if before.ok && Moves(catalog, item) && !ChipRefused(catalog, item) {
      var option := OptionOf(catalog, item);
      var (after, m, ok) :=
        TakeLine(before.shelves, option, item.quantity, Consumes(item, source), source != OtherSource);
      TakeLineEffect(before.shelves, option, item.quantity, Consumes(item, source), source != OtherSource);
      TakeLineElsewhere(before.shelves, option, item.quantity, Consumes(item, source), source != OtherSource, k);
      assert (before.movements + [m])[..|before.movements|] == before.movements;
    }
  }

  /** Taking is conserved option by option: what the lots and the negative balance lose is in the movements. */
  lemma {:induction false} DeductMovesStock(catalog: Catalog, s: Shelves, items: seq<SoldItem>, source: Source,
                                            k: StockKey)
    ensures var d := Deduct(catalog, s, items, source);
            && Available(At(d.shelves, k)) == Available(At(s, k)) - TakenAt(d.movements, k)
            && Owed(At(d.shelves, k)) == Owed(At(s, k)) + DeficitAt(d.movements, k)
            && (d.ok ==> TakenAt(d.movements, k) + DeficitAt(d.movements, k) == Units(catalog, items, source, k))
            && (source == OtherSource ==> DeficitAt(d.movements, k) == 0)
  {
    hide DeductLine, LineUnits, Available, Owed, At;
    if items == [] {
    } else {
      var n := |items| - 1;
      DeductMovesStock(catalog, s, items[..n], source, k);
      DeductLineMovesStock(catalog, Deduct(catalog, s, items[..n], source), items[n], source, k);
    }
  }

  lemma TakeLineElsewhere(s: Shelves, option: StockKey, quantity: int, consumes: bool, mayOwe: bool, k: StockKey)
    ensures TakeLine(s, option, quantity, consumes, mayOwe).1.option == option
    ensures k != option ==> At(TakeLine(s, option, quantity, consumes, mayOwe).0, k) == At(s, k)
  {
  }

  lemma DeductLineOkIff(catalog: Catalog, before: Deduction, item: SoldItem, source: Source)
    ensures DeductLine(catalog, before, item, source).ok
       <==> before.ok && !ChipRefused(catalog, item)
            && (source == OtherSource ==>
                  forall k :: LineUnits(catalog, item, source, k) <= Available(At(before.shelves, k)))
  {
    hide TakeLine, OptionOf, Available, At, HasChip;
    if before.ok && Moves(catalog, item) && !ChipRefused(catalog, item) {
      var option := OptionOf(catalog, item);
      TakeLineEffect(before.shelves, option, item.quantity, Consumes(item, source), source != OtherSource);
      assert LineUnits(catalog, item, source, option) == if Consumes(item, source) then Max(0, item.quantity) else 0;
    }
  }

  /**
   Deduction is refused exactly for a chip of another product or, where overselling is not allowed, for an
   option with fewer items than the lines ask for in all.
   */
  lemma {:induction false} DeductOkIff(catalog: Catalog, s: Shelves, items: seq<SoldItem>, source: Source)
    ensures Deduct(catalog, s, items, source).ok
       <==> (forall i :: 0 <= i < |items| ==> !ChipRefused(catalog, items[i]))
            && (source == OtherSource ==> forall k :: Units(catalog, items, source, k) <= Available(At(s, k)))
  {
    hide DeductLine, LineUnits, Available, At, ChipRefused;
    if items == [] {
    } else {
      var n := |items| - 1;
      var before := Deduct(catalog, s, items[..n], source);
      DeductOkIff(catalog, s, items[..n], source);
      DeductLineOkIff(catalog, before, items[n], source);
      assert forall i :: 0 <= i < n ==> items[..n][i] == items[i];
      forall k ensures before.ok && source == OtherSource ==>
                         Available(At(before.shelves, k))
                         == Available(At(s, k)) - Units(catalog, items[..n], source, k) {
        DeductMovesStock(catalog, s, items[..n], source, k);
      }
      assert forall k :: Units(catalog, items, source, k)
                         == Units(catalog, items[..n], source, k) + LineUnits(catalog, items[n], source, k);
    }
  }

  /** A line of a product on display that takes stock: it says so, or says nothing in a counter sale or stock count. */
  predicate Asked(catalog: Catalog, item: SoldItem, source: Source) {
    && item.product.Some? && item.product.value in catalog && catalog[item.product.value].displayed
    && (item.useInventory == Some(true) || (item.useInventory.None? && source in {PointOfSale, StockCount}))
  }

  /** The lines that are asked for an option, added up. */
  function AskedOf(catalog: Catalog, items: seq<SoldItem>, source: Source, k: StockKey): nat {
    if items == [] then 0
    else
      AskedOf(catalog, items[1..], source, k)
      + if Asked(catalog, items[0], source) && Option(catalog, items[0], k) then Max(0, items[0].quantity) else 0
  }

  /**
   The option of a line: its chip if it has one; else base stock at the base price or a price no chip has, else the
   chip.
   */
  predicate Option(catalog: Catalog, item: SoldItem, k: StockKey)
    requires Known(catalog, item)
  {
    && k.product == item.product.value
    && var p := catalog[k.product];
    && (item.chip.Some? ==> k.chip == item.chip)
    && (item.chip.None? && k.chip.None? ==>
          item.unitPrice == p.basePrice || forall i :: 0 <= i < |p.chips| ==> p.chips[i].price != item.unitPrice)
    && (item.chip.None? && k.chip.Some? ==>
          item.unitPrice != p.basePrice
          && exists i :: 0 <= i < |p.chips| && p.chips[i] == Chip(k.chip.value, item.unitPrice)
                         && forall j :: 0 <= j < i ==> p.chips[j].price != item.unitPrice)
  }

  lemma OptionIs(catalog: Catalog, item: SoldItem, k: StockKey)
    requires Known(catalog, item)
    ensures OptionOf(catalog, item) == k <==> Option(catalog, item, k)
  {
    ResolvedPriceIsFirst(catalog[item.product.value], item.unitPrice);
  }

  /** The units a deduction takes or owes are those of the lines that ask for stock, and of no others. */
  lemma {:induction false} UnitsAreAsked(catalog: Catalog, items: seq<SoldItem>, source: Source, k: StockKey)
    ensures Units(catalog, items, source, k) == AskedOf(catalog, items, source, k)
  {
    hide OptionOf, Option;
    if items == [] {
    } else {
      var n := |items| - 1;
      UnitsAreAsked(catalog, items[..n], source, k);
      AskedOfLast(catalog, items, source, k);
      if Known(catalog, items[n]) {
        OptionIs(catalog, items[n], k);
      }
    }
  }

  lemma {:induction false} AskedOfLast(catalog: Catalog, items: seq<SoldItem>, source: Source, k: StockKey)
    requires items != []
    ensures var item := items[|items| - 1];
            AskedOf(catalog, items, source, k)
            == AskedOf(catalog, items[..|items| - 1], source, k)
               + if Asked(catalog, item, source) && Option(catalog, item, k) then Max(0, item.quantity) else 0
  {
    hide Asked, Option;
    if |items| == 1 {
      assert items[1..] == [] && items[..0] == [];
    } else {
      assert items[..|items| - 1][1..] == items[1..][..|items| - 2];
      AskedOfLast(catalog, items[1..], source, k);
    }
  }

  /** An accepted order takes or owes exactly what its asking lines say, option by option. */
  lemma DeductTakesAsked(catalog: Catalog, s: Shelves, items: seq<SoldItem>, source: Source, k: StockKey)
    requires Deduct(catalog, s, items, source).ok
    ensures var after := At(Deduct(catalog, s, items, source).shelves, k);
            && Net(after) == Net(At(s, k)) - AskedOf(catalog, items, source, k)
            && Available(after) == Max(0, Available(At(s, k)) - AskedOf(catalog, items, source, k))
  {
    hide Deduct, Units, AskedOf, Available, Owed;
    DeductMovesStock(catalog, s, items, source, k);
    UnitsAreAsked(catalog, items, source, k);
    OwesOnlyWhenEmpty(catalog, s, items, source, k);
  }

  /** Nothing is owed while items are left. */
  lemma {:induction false} OwesOnlyWhenEmpty(catalog: Catalog, s: Shelves, items: seq<SoldItem>, source: Source,
                                             k: StockKey)
    ensures var d := Deduct(catalog, s, items, source);
            DeficitAt(d.movements, k) > 0 ==> Available(At(d.shelves, k)) == 0
  {
    hide DeductLine, LineUnits, Available, Owed, At;
    if items == [] {
    } else {
      var n := |items| - 1;
      OwesOnlyWhenEmpty(catalog, s, items[..n], source, k);
      LineOwesOnlyWhenEmpty(catalog, Deduct(catalog, s, items[..n], source), items[n], source, k);
    }
  }

  lemma LineOwesOnlyWhenEmpty(catalog: Catalog, before: Deduction, item: SoldItem, source: Source, k: StockKey)
    requires DeficitAt(before.movements, k) > 0 ==> Available(At(before.shelves, k)) == 0
    ensures var after := DeductLine(catalog, before, item, source);
            DeficitAt(after.movements, k) > 0 ==> Available(At(after.shelves, k)) == 0
  {
    hide TakeLine, OptionOf, Available, Owed, At, HasChip, Consumes;
    if before.ok && Moves(catalog, item) && !ChipRefused(catalog, item) {
      var option := OptionOf(catalog, item);
      var (after, m, ok) :=
        TakeLine(before.shelves, option, item.quantity, Consumes(item, source), source != OtherSource);
      TakeLineEffect(before.shelves, option, item.quantity, Consumes(item, source), source != OtherSource);
      TakeLineElsewhere(before.shelves, option, item.quantity, Consumes(item, source), source != OtherSource, k);
      assert (before.movements + [m])[..|before.movements|] == before.movements;
    }
  }

  /** An order none of whose lines asks for stock leaves every shelf alone and is refused only for a foreign chip. */
  lemma UnaskedTakesNothing(catalog: Catalog, s: Shelves, items: seq<SoldItem>, source: Source)
    requires forall i :: 0 <= i < |items| ==> !Asked(catalog, items[i], source)
    ensures var d := Deduct(catalog, s, items, source);
            && (forall k :: At(d.shelves, k) == At(s, k))
            && (d.ok <==> forall i :: 0 <= i < |items| ==> !ChipRefused(catalog, items[i]))
  {
    hide Deduct, ChipRefused, Units, Available, At;
    forall k ensures AskedOf(catalog, items, source, k) == 0 {
      NobodyAsks(catalog, items, source, k);
    }
    forall k: StockKey ensures Units(catalog, items, source, k) == 0 {
      UnitsAreAsked(catalog, items, source, k);
    }
    DeductOkIff(catalog, s, items, source);
    forall k ensures At(Deduct(catalog, s, items, source).shelves, k) == At(s, k) {
      UnaskedShelf(catalog, s, items, source, k);
    }
  }

  lemma {:induction false} NobodyAsks(catalog: Catalog, items: seq<SoldItem>, source: Source, k: StockKey)
    requires forall i :: 0 <= i < |items| ==> !Asked(catalog, items[i], source)
    ensures AskedOf(catalog, items, source, k) == 0
  {
    hide Asked, Option;
    if items == [] {
    } else {
      NobodyAsks(catalog, items[1..], source, k);
    }
  }

  lemma {:induction false} UnaskedShelf(catalog: Catalog, s: Shelves, items: seq<SoldItem>, source: Source, k: StockKey)
    requires forall i :: 0 <= i < |items| ==> !Asked(catalog, items[i], source)
    ensures At(Deduct(catalog, s, items, source).shelves, k) == At(s, k)
  {
    hide TakeLine, OptionOf, At, HasChip;
    if items == [] {
    } else {
      var n, item := |items| - 1, items[|items| - 1];
      UnaskedShelf(catalog, s, items[..n], source, k);
      var before := Deduct(catalog, s, items[..n], source);
      if before.ok && Moves(catalog, item) && !ChipRefused(catalog, item) {
        assert !Consumes(item, source);
        TakesNothing(before.shelves, OptionOf(catalog, item), item.quantity, source != OtherSource, k);
      }
    }
  }

  lemma TakesNothing(s: Shelves, option: StockKey, quantity: int, mayOwe: bool, k: StockKey)
    ensures At(TakeLine(s, option, quantity, false, mayOwe).0, k) == At(s, k)
  {
    NothingToTake(At(s, option).lots);
  }

  /** A unit order of a stock count is an order of one such line: it takes what `Sold` says and is never refused. */
  lemma UnitOrderIsOneLine(catalog: Catalog, s: Shelves, k: StockKey, unitPrice: int)
    requires k.product in catalog && catalog[k.product].displayed
    requires k.chip.Some? ==> HasChip(catalog[k.product], k.chip.value)
    ensures var d := Deduct(catalog, s, [SoldItem(Some(k.product), k.chip, unitPrice, 1, None)], StockCount);
            d.ok && d.shelves == Reconciliation.Sold(s, [Reconciliation.SaleKey(catalog, k, unitPrice)])
  {
    var item := SoldItem(Some(k.product), k.chip, unitPrice, 1, None);
    var sold := Reconciliation.SaleKey(catalog, k, unitPrice);
    assert [item][..0] == [] && [sold][..0] == [];
    assert OptionOf(catalog, item) == sold;
  }

  // ----- giving back, for an edit -----

  /** The lots with the items of a movement available again. */
  function GiveBack(lots: seq<nat>, taken: seq<nat>): (r: seq<nat>)
    ensures |r| == |lots|
  {
    seq(|lots|, i requires 0 <= i < |lots| => lots[i] + if i < |taken| then taken[i] else 0)
  }

  /** The UPDATE that is meant to undo an oversold movement: every row of the option grows by it. */
  function RaiseAll(owed: seq<nat>, deficit: nat): (r: seq<nat>)
    ensures |r| == |owed|
  {
    seq(|owed|, i requires 0 <= i < |owed| => owed[i] + deficit)
  }

  function Untake(s: Shelves, m: Movement): Shelves {
    s[m.option := At(s, m.option).(lots := GiveBack(At(s, m.option).lots, m.taken))]
  }

  function Unowe(s: Shelves, m: Movement): Shelves {
    s[m.option := At(s, m.option).(owed := RaiseAll(At(s, m.option).owed, m.deficit))]
  }

  function UntakeAll(s: Shelves, ms: seq<Movement>): Shelves {
    if ms == [] then s else Untake(UntakeAll(s, ms[..|ms| - 1]), ms[|ms| - 1])
  }

  function UnoweAll(s: Shelves, ms: seq<Movement>): Shelves {
    if ms == [] then s else Unowe(UnoweAll(s, ms[..|ms| - 1]), ms[|ms| - 1])
  }

  /** The stock after `reverse_order_stock_for_edit`: first all items, then all negative balances. */
  function Reversed(s: Shelves, ms: seq<Movement>): Shelves {
    UnoweAll(UntakeAll(s, ms), ms)
  }

  /** Lots are never deleted, so the lots a movement took from are still there. */
  predicate LotsExist(s: Shelves, ms: seq<Movement>) {
    forall i :: 0 <= i < |ms| ==> |ms[i].taken| <= |At(s, ms[i].option).lots|
  }

  lemma {:induction false} GiveBackSum(lots: seq<nat>, taken: seq<nat>)
    requires |taken| <= |lots|
    ensures Sum(GiveBack(lots, taken)) == Sum(lots) + Sum(taken)
  {
    if lots == [] {
    } else {
      var rest := if taken == [] then [] else taken[1..];
      GiveBackSum(lots[1..], rest);
      assert GiveBack(lots, taken)[1..] == GiveBack(lots[1..], rest);
    }
  }

  lemma {:induction false} RaiseAllSum(owed: seq<nat>, deficit: nat)
    ensures Sum(RaiseAll(owed, deficit)) == Sum(owed) + |owed| * deficit
  {
    if owed == [] {
    } else {
      RaiseAllSum(owed[1..], deficit);
      assert RaiseAll(owed, deficit)[1..] == RaiseAll(owed[1..], deficit);
      assert |owed| * deficit == (|owed| - 1) * deficit + deficit;
    }
  }

  lemma {:induction false} UntakeAllEffect(s: Shelves, ms: seq<Movement>, k: StockKey)
    requires LotsExist(s, ms)
    ensures var shelf := At(UntakeAll(s, ms), k);
            && Available(shelf) == Available(At(s, k)) + TakenAt(ms, k)
            && shelf.owed == At(s, k).owed && |shelf.lots| == |At(s, k).lots|
  {
    if ms == [] {
    } else {
      var n := |ms| - 1;
      assert forall i :: 0 <= i < n ==> ms[..n][i] == ms[i];
      UntakeAllEffect(s, ms[..n], k);
      if ms[n].option == k {
        GiveBackSum(At(UntakeAll(s, ms[..n]), k).lots, ms[n].taken);
      }
    }
  }

  lemma {:induction false} UnoweAllEffect(s: Shelves, ms: seq<Movement>, k: StockKey)
    ensures var shelf := At(UnoweAll(s, ms), k);
            && Owed(shelf) == Owed(At(s, k)) + |At(s, k).owed| * DeficitAt(ms, k)
            && shelf.lots == At(s, k).lots && |shelf.owed| == |At(s, k).owed|
  {
    if ms == [] {
    } else {
      var n := |ms| - 1;
      UnoweAllEffect(s, ms[..n], k);
      if ms[n].option == k {
        var rows := At(UnoweAll(s, ms[..n]), k).owed;
        RaiseAllSum(rows, ms[n].deficit);
        assert |rows| * (DeficitAt(ms[..n], k) + ms[n].deficit)
               == |rows| * DeficitAt(ms[..n], k) + |rows| * ms[n].deficit;
      }
    }
  }

  /** The items come back; the negative balance grows once more, in every row, instead of shrinking. */
  lemma ReversedMovesStock(s: Shelves, ms: seq<Movement>, k: StockKey)
    requires LotsExist(s, ms)
    ensures var shelf := At(Reversed(s, ms), k);
            && Available(shelf) == Available(At(s, k)) + TakenAt(ms, k)
            && Owed(shelf) == Owed(At(s, k)) + |At(s, k).owed| * DeficitAt(ms, k)
  {
    UntakeAllEffect(s, ms, k);
    UnoweAllEffect(UntakeAll(s, ms), ms, k);
  }

  /** The stock after an edit: the old movements reversed, the new lines taken. */
  function Edited(catalog: Catalog, s: Shelves, ms: seq<Movement>, items: seq<SoldItem>, source: Source): Deduction {
    Deduct(catalog, Reversed(s, ms), items, source)
  }

  lemma CountedAgain(rows: nat, deficit: nat)
    ensures (1 + rows) * deficit == deficit + rows * deficit
    ensures (1 + rows) * deficit == 0 <==> deficit == 0
  {
  }

  /**
   An edit exchanges the old movements of an option for the new ones exactly when the old ones oversold nothing
   of it: whatever they oversold is counted again, once for itself and once for every negative-balance row.
   */
  lemma EditExchangesIff(catalog: Catalog, s: Shelves, ms: seq<Movement>, items: seq<SoldItem>, source: Source,
                         k: StockKey)
    requires LotsExist(s, ms)
    ensures var e := Edited(catalog, s, ms, items, source);
            var intended := Net(At(s, k)) + TakenAt(ms, k) + DeficitAt(ms, k)
                            - TakenAt(e.movements, k) - DeficitAt(e.movements, k);
            && Net(At(e.shelves, k)) == intended - (1 + |At(s, k).owed|) * DeficitAt(ms, k)
            && (Net(At(e.shelves, k)) == intended <==> DeficitAt(ms, k) == 0)
  {
    hide Deduct, Reversed, Available, Owed;
    ReversedMovesStock(s, ms, k);
    DeductMovesStock(catalog, Reversed(s, ms), items, source, k);
    CountedAgain(|At(s, k).owed|, DeficitAt(ms, k));
  }

  /**
   Saving an order again with the lines it has: wherever the stock stands by then, an option's net position stays
   exactly when the order had oversold nothing of it.
   */
  lemma ResaveKeepsNetIff(catalog: Catalog, s0: Shelves, s: Shelves, items: seq<SoldItem>, source: Source, k: StockKey)
    requires Deduct(catalog, s0, items, source).ok && LotsExist(s, Deduct(catalog, s0, items, source).movements)
    ensures var ms := Deduct(catalog, s0, items, source).movements;
            var e := Edited(catalog, s, ms, items, source);
            && e.ok
            && (Net(At(e.shelves, k)) == Net(At(s, k)) <==> DeficitAt(ms, k) == 0)
  {
    hide Deduct, Reversed, Available, Owed, Units, ChipRefused, Net, LotsExist;
    var ms := Deduct(catalog, s0, items, source).movements;
    DeductOkIff(catalog, s0, items, source);
    DeductOkIff(catalog, Reversed(s, ms), items, source);
    forall other: StockKey | source == OtherSource
      ensures Units(catalog, items, source, other) <= Available(At(Reversed(s, ms), other))
    {
      DeductMovesStock(catalog, s0, items, source, other);
      ReversedMovesStock(s, ms, other);
    }
    DeductMovesStock(catalog, s0, items, source, k);
    DeductMovesStock(catalog, Reversed(s, ms), items, source, k);
    EditExchangesIff(catalog, s, ms, items, source, k);
  }

  // ----- reversing at once -----

  /** What movements took from one lot. */
  function TakenFromLot(ms: seq<Movement>, k: StockKey, lot: nat): nat {
    if ms == [] then 0
    else
      var m := ms[|ms| - 1];
      TakenFromLot(ms[..|ms| - 1], k, lot) + if m.option == k && lot < |m.taken| then m.taken[lot] else 0
  }

  lemma TakeLineLots(s: Shelves, option: StockKey, quantity: int, consumes: bool, mayOwe: bool)
    ensures var (after, m, ok) := TakeLine(s, option, quantity, consumes, mayOwe);
            && m.quantity == quantity && |At(after, option).lots| == |m.taken| == |At(s, option).lots|
            && (forall i :: 0 <= i < |m.taken| ==> At(s, option).lots[i] == At(after, option).lots[i] + m.taken[i])
            && (m.deficit == 0 ==> At(after, option).owed == At(s, option).owed)
            && (m.deficit > 0 ==> Sum(m.taken) + m.deficit == Max(0, quantity))
  {
    TakenAndLeft(At(s, option).lots, if consumes then Max(0, quantity) else 0);
  }

  lemma DeductLineLots(catalog: Catalog, before: Deduction, item: SoldItem, source: Source, k: StockKey)
    ensures var after := DeductLine(catalog, before, item, source);
            && |At(after.shelves, k).lots| == |At(before.shelves, k).lots|
            && (forall i :: 0 <= i < |At(before.shelves, k).lots| ==>
                  At(before.shelves, k).lots[i] + TakenFromLot(before.movements, k, i)
                  == At(after.shelves, k).lots[i] + TakenFromLot(after.movements, k, i))
            && DeficitAt(before.movements, k) <= DeficitAt(after.movements, k)
            && (DeficitAt(before.movements, k) == DeficitAt(after.movements, k) ==>
                  At(after.shelves, k).owed == At(before.shelves, k).owed)
  {
    hide TakeLine, OptionOf, At, HasChip, Consumes;
    if before.ok && Moves(catalog, item) && !ChipRefused(catalog, item) {
      var option := OptionOf(catalog, item);
      var (after, m, ok) :=
        TakeLine(before.shelves, option, item.quantity, Consumes(item, source), source != OtherSource);
      TakeLineLots(before.shelves, option, item.quantity, Consumes(item, source), source != OtherSource);
      TakeLineElsewhere(before.shelves, option, item.quantity, Consumes(item, source), source != OtherSource, k);
      assert (before.movements + [m])[..|before.movements|] == before.movements;
    }
  }

  /** Lot by lot, what is gone is in the movements. */
  lemma {:induction false} DeductLots(catalog: Catalog, s: Shelves, items: seq<SoldItem>, source: Source, k: StockKey)
    ensures var d := Deduct(catalog, s, items, source);
            && |At(d.shelves, k).lots| == |At(s, k).lots|
            && (forall i :: 0 <= i < |At(s, k).lots| ==>
                  At(s, k).lots[i] == At(d.shelves, k).lots[i] + TakenFromLot(d.movements, k, i))
            && (DeficitAt(d.movements, k) == 0 ==> At(d.shelves, k).owed == At(s, k).owed)
  {
    hide DeductLine, At;
    if items == [] {
    } else {
      var n := |items| - 1;
      DeductLots(catalog, s, items[..n], source, k);
      DeductLineLots(catalog, Deduct(catalog, s, items[..n], source), items[n], source, k);
    }
  }

  /** The movement covers all lots of its option, and if it oversold it took the whole line. */
  predicate MovementFits(s: Shelves, m: Movement) {
    && |m.taken| == |At(s, m.option).lots|
    && (m.deficit > 0 ==> Sum(m.taken) + m.deficit == Max(0, m.quantity))
  }

  lemma LineFits(catalog: Catalog, s: Shelves, before: Deduction, item: SoldItem, source: Source)
    requires forall k :: |At(before.shelves, k).lots| == |At(s, k).lots|
    requires forall m :: m in before.movements ==> MovementFits(s, m)
    ensures forall m :: m in DeductLine(catalog, before, item, source).movements ==> MovementFits(s, m)
  {
    hide TakeLine, OptionOf, At, HasChip, Consumes;
    if before.ok && Moves(catalog, item) && !ChipRefused(catalog, item) {
      var option := OptionOf(catalog, item);
      TakeLineLots(before.shelves, option, item.quantity, Consumes(item, source), source != OtherSource);
      TakeLineElsewhere(before.shelves, option, item.quantity, Consumes(item, source), source != OtherSource, option);
    }
  }

  lemma {:induction false} MovementsFit(catalog: Catalog, s: Shelves, items: seq<SoldItem>, source: Source)
    ensures forall m :: m in Deduct(catalog, s, items, source).movements ==> MovementFits(s, m)
  {
    hide DeductLine, At, MovementFits;
    if items == [] {
    } else {
      var n := |items| - 1;
      MovementsFit(catalog, s, items[..n], source);
      forall k ensures |At(Deduct(catalog, s, items[..n], source).shelves, k).lots| == |At(s, k).lots| {
        DeductLots(catalog, s, items[..n], source, k);
      }
      LineFits(catalog, s, Deduct(catalog, s, items[..n], source), items[n], source);
    }
  }

  lemma DeductedLotsExist(catalog: Catalog, s: Shelves, items: seq<SoldItem>, source: Source)
    ensures var d := Deduct(catalog, s, items, source);
            LotsExist(d.shelves, d.movements)
  {
    hide Deduct;
    var d := Deduct(catalog, s, items, source);
    MovementsFit(catalog, s, items, source);
    forall i | 0 <= i < |d.movements| ensures |d.movements[i].taken| <= |At(d.shelves, d.movements[i].option).lots| {
      DeductLots(catalog, s, items, source, d.movements[i].option);
      assert MovementFits(s, d.movements[i]);
    }
  }

  lemma {:induction false} UntakeAllLots(s: Shelves, ms: seq<Movement>, k: StockKey)
    ensures |At(UntakeAll(s, ms), k).lots| == |At(s, k).lots|
    ensures forall i :: 0 <= i < |At(s, k).lots| ==>
              At(UntakeAll(s, ms), k).lots[i] == At(s, k).lots[i] + TakenFromLot(ms, k, i)
  {
    if ms == [] {
    } else {
      UntakeAllLots(s, ms[..|ms| - 1], k);
    }
  }

  lemma {:induction false} UnoweNothing(s: Shelves, ms: seq<Movement>, k: StockKey)
    requires DeficitAt(ms, k) == 0
    ensures At(UnoweAll(s, ms), k) == At(s, k)
  {
    if ms == [] {
    } else {
      UnoweNothing(s, ms[..|ms| - 1], k);
      assert RaiseAll(At(s, k).owed, 0) == At(s, k).owed;
    }
  }

  /**
   Reversing a deduction at once puts every item back into its lot; the shelf is as before exactly without
   oversale.
   */
  lemma ReverseUndoesIff(catalog: Catalog, s: Shelves, items: seq<SoldItem>, source: Source, k: StockKey)
    ensures var d := Deduct(catalog, s, items, source);
            && At(Reversed(d.shelves, d.movements), k).lots == At(s, k).lots
            && (At(Reversed(d.shelves, d.movements), k) == At(s, k) <==> DeficitAt(d.movements, k) == 0)
  {
    hide Deduct, At, UntakeAll, UnoweAll;
    var d := Deduct(catalog, s, items, source);
    DeductLots(catalog, s, items, source, k);
    UntakeAllLots(d.shelves, d.movements, k);
    UnoweAllEffect(UntakeAll(d.shelves, d.movements), d.movements, k);
    DeductedLotsExist(catalog, s, items, source);
    UntakeAllEffect(d.shelves, d.movements, k);
    if DeficitAt(d.movements, k) == 0 {
      UnoweNothing(UntakeAll(d.shelves, d.movements), d.movements, k);
    } else {
      DeductMovesStock(catalog, s, items, source, k);
    }
  }

  // ----- giving back, for a cancellation -----

  /** The first negative_sale quantity of the option. */
  function FirstDeficit(ms: seq<Movement>, k: StockKey): nat {
    if ms == [] then 0
    else if ms[0].option == k && ms[0].deficit > 0 then ms[0].deficit
    else FirstDeficit(ms[1..], k)
  }

  /** Every row shrinks by the quantity, and rows that are used up are deleted. */
  function ReduceAll(owed: seq<nat>, quantity: nat): seq<nat> {
    if owed == [] then []
    else (if owed[0] > quantity then [owed[0] - quantity] else []) + ReduceAll(owed[1..], quantity)
  }

  /** What the rows lose by that. */
  function Paid(owed: seq<nat>, quantity: nat): nat {
    if owed == [] then 0 else Min(owed[0], quantity) + Paid(owed[1..], quantity)
  }

  lemma {:induction false} ReduceAllPays(owed: seq<nat>, quantity: nat)
    ensures Sum(ReduceAll(owed, quantity)) + Paid(owed, quantity) == Sum(owed)
    ensures quantity == 0 ==> Paid(owed, quantity) == 0
  {
    if owed == [] {
    } else {
      ReduceAllPays(owed[1..], quantity);
      var rest := ReduceAll(owed[1..], quantity);
      if owed[0] > quantity {
        assert ([owed[0] - quantity] + rest)[1..] == rest;
      } else {
        assert [] + rest == rest;
      }
    }
  }

  /** With one row at most, what was oversold is paid back exactly when as much is still owed. */
  lemma PaidInFullIff(owed: seq<nat>, quantity: nat)
    requires |owed| <= 1
    ensures Paid(owed, quantity) == quantity <==> quantity <= Sum(owed)
  {
    if owed != [] {
      assert owed[1..] == [];
    }
  }

  function RestoredShelf(shelf: Shelf, quantity: int, deficit: nat): Shelf {
    Shelf(if quantity > deficit then shelf.lots + [quantity - deficit] else shelf.lots,
          if deficit > 0 then ReduceAll(shelf.owed, deficit) else shelf.owed)
  }

  /** The first `n` sale movements given back; each option only once. */
  function Cancelled(s: Shelves, ms: seq<Movement>, n: nat, restored: set<StockKey>): (Shelves, set<StockKey>)
    requires n <= |ms|
  {
    if n == 0 then (s, restored)
    else
      var before, k := Cancelled(s, ms, n - 1, restored), ms[n - 1].option;
      if k in before.1 then before
      else (before.0[k := RestoredShelf(At(before.0, k), ms[n - 1].quantity, FirstDeficit(ms, k))], before.1 + {k})
  }

  /** The first movement of the option among the first `n`, or `n`. */
  function FirstOf(ms: seq<Movement>, n: nat, k: StockKey): (j: nat)
    requires n <= |ms|
    ensures j <= n && (j < n ==> ms[j].option == k) && forall i :: 0 <= i < j ==> ms[i].option != k
  {
    if n == 0 then 0
    else
      var j := FirstOf(ms, n - 1, k);
      if j < n - 1 || ms[j].option == k then j else n
  }

  /** Only the first movement of an option is given back. */
  lemma {:induction false} CancelledAt(s: Shelves, ms: seq<Movement>, n: nat, restored: set<StockKey>, k: StockKey)
    requires n <= |ms|
    ensures var (after, done) := Cancelled(s, ms, n, restored);
            var j := FirstOf(ms, n, k);
            && (k in done <==> k in restored || j < n)
            && At(after, k) == if k in restored || j == n then At(s, k)
                               else RestoredShelf(At(s, k), ms[j].quantity, FirstDeficit(ms, k))
  {
    hide RestoredShelf, FirstDeficit;
    if n > 0 {
      CancelledAt(s, ms, n - 1, restored, k);
    }
  }

  lemma {:induction false} AllRestored(s: Shelves, ms: seq<Movement>, n: nat, restored: set<StockKey>)
    requires n <= |ms| && forall i :: 0 <= i < n ==> ms[i].option in restored
    ensures Cancelled(s, ms, n, restored) == (s, restored)
  {
    if n > 0 {
      AllRestored(s, ms, n - 1, restored);
    }
  }

  /** Cancelling an order again changes nothing. */
  lemma CancelTwice(s: Shelves, ms: seq<Movement>, restored: set<StockKey>)
    ensures var (after, done) := Cancelled(s, ms, |ms|, restored);
            Cancelled(after, ms, |ms|, done) == (after, done)
  {
    hide Cancelled;
    var (after, done) := Cancelled(s, ms, |ms|, restored);
    forall i | 0 <= i < |ms| ensures ms[i].option in done {
      CancelledAt(s, ms, |ms|, restored, ms[i].option);
    }
    AllRestored(after, ms, |ms|, done);
  }

  lemma RestoredShelfNet(shelf: Shelf, quantity: int, deficit: nat)
    ensures Net(RestoredShelf(shelf, quantity, deficit))
            == Net(shelf) + Max(0, quantity - deficit) + Paid(shelf.owed, deficit)
  {
    ReduceAllPays(shelf.owed, deficit);
    if quantity > deficit {
      SumAppend(shelf.lots, quantity - deficit);
    }
  }

  /** What a cancellation adds to an option's net position. */
  lemma CancelMovesNet(s: Shelves, ms: seq<Movement>, k: StockKey)
    ensures var after := Cancelled(s, ms, |ms|, {}).0;
            var j, d := FirstOf(ms, |ms|, k), FirstDeficit(ms, k);
            Net(At(after, k))
            == Net(At(s, k)) + if j == |ms| then 0 else Max(0, ms[j].quantity - d) + Paid(At(s, k).owed, d)
  {
    hide Net, RestoredShelf, Cancelled;
    CancelledAt(s, ms, |ms|, {}, k);
    var j := FirstOf(ms, |ms|, k);
    if j < |ms| {
      RestoredShelfNet(At(s, k), ms[j].quantity, FirstDeficit(ms, k));
    }
  }

  /** What cancelling should do: everything the movements hold comes back. */
  ghost predicate GivesBack(s: Shelves, ms: seq<Movement>, k: StockKey) {
    Net(At(Cancelled(s, ms, |ms|, {}).0, k)) == Net(At(s, k)) + TakenAt(ms, k) + DeficitAt(ms, k)
  }

  lemma {:induction false} OneMovement(ms: seq<Movement>, k: StockKey, j: nat)
    requires j < |ms| && ms[j].option == k && forall i :: 0 <= i < |ms| && i != j ==> ms[i].option != k
    ensures TakenAt(ms, k) == Sum(ms[j].taken) && DeficitAt(ms, k) == ms[j].deficit
  {
    var n := |ms| - 1;
    if j == n {
      NoMovement(ms[..n], k);
    } else {
      OneMovement(ms[..n], k, j);
    }
  }

  lemma {:induction false} NoMovement(ms: seq<Movement>, k: StockKey)
    requires forall i :: 0 <= i < |ms| ==> ms[i].option != k
    ensures TakenAt(ms, k) == DeficitAt(ms, k) == 0
  {
    if ms == [] {
    } else {
      NoMovement(ms[..|ms| - 1], k);
    }
  }

  lemma {:induction false} FirstDeficitIs(ms: seq<Movement>, k: StockKey, j: nat)
    requires j < |ms| && ms[j].option == k && forall i :: 0 <= i < |ms| && i != j ==> ms[i].option != k
    ensures FirstDeficit(ms, k) == ms[j].deficit
  {
    if j > 0 {
      FirstDeficitIs(ms[1..], k, j - 1);
    } else if ms[0].deficit == 0 {
      NoDeficit(ms[1..], k);
    }
  }

  lemma {:induction false} NoDeficit(ms: seq<Movement>, k: StockKey)
    requires forall i :: 0 <= i < |ms| && ms[i].option == k ==> ms[i].deficit == 0
    ensures FirstDeficit(ms, k) == 0
  {
    if ms == [] {
    } else {
      NoDeficit(ms[1..], k);
    }
  }

  /**
   An option sold on one line comes back exactly when the line took its items from stock in the first place and
   the negative balance still loses what it oversold.
   */
  lemma CancelOneLineIff(s: Shelves, ms: seq<Movement>, k: StockKey, j: nat)
    requires j < |ms| && ms[j].option == k && forall i :: 0 <= i < |ms| && i != j ==> ms[i].option != k
    requires ms[j].deficit > 0 ==> Sum(ms[j].taken) + ms[j].deficit == Max(0, ms[j].quantity)
    ensures GivesBack(s, ms, k)
       <==> Sum(ms[j].taken) + ms[j].deficit == Max(0, ms[j].quantity)
            && Paid(At(s, k).owed, ms[j].deficit) == ms[j].deficit
  {
    hide Cancelled, Net, Paid;
    CancelMovesNet(s, ms, k);
    OneMovement(ms, k, j);
    FirstDeficitIs(ms, k, j);
    assert FirstOf(ms, |ms|, k) == j;
    assert Paid(At(s, k).owed, 0) == 0 by { ReduceAllPays(At(s, k).owed, 0); }
  }

  /**
   An option sold on several lines from stock that was there comes back exactly when the lines after the first
   took nothing of it: the check against a second restore looks at the option and not at the line.
   */
  lemma CancelManyLinesIff(s: Shelves, ms: seq<Movement>, k: StockKey, j: nat)
    requires j == FirstOf(ms, |ms|, k) < |ms| && Sum(ms[j].taken) == Max(0, ms[j].quantity)
    requires forall i :: 0 <= i < |ms| && ms[i].option == k ==> ms[i].deficit == 0
    ensures GivesBack(s, ms, k) <==> TakenAt(ms, k) == Sum(ms[j].taken)
  {
    hide Cancelled, Net, Paid;
    CancelMovesNet(s, ms, k);
    NoDeficit(ms, k);
    NoneOversold(ms, k);
    assert Paid(At(s, k).owed, 0) == 0 by { ReduceAllPays(At(s, k).owed, 0); }
  }

  lemma {:induction false} NoneOversold(ms: seq<Movement>, k: StockKey)
    requires forall i :: 0 <= i < |ms| && ms[i].option == k ==> ms[i].deficit == 0
    ensures DeficitAt(ms, k) == 0
  {
    if ms == [] {
    } else {
      NoneOversold(ms[..|ms| - 1], k);
    }
  }

  // ----- the service -----

  /** The stock movements by the order they refer to: its sales, and the options restored for it. */
  class StockMovements {
    var sales: map<nat, seq<Movement>>
    var restored: map<nat, set<StockKey>>

    constructor ()
      ensures sales == map[] && restored == map[]
    {
      sales, restored := map[], map[];
    }

    function SalesOf(order: nat): seq<Movement>
      reads this`sales
    {
      if order in sales then sales[order] else []
    }

    function RestoredOf(order: nat): set<StockKey>
      reads this`restored
    {
      if order in restored then restored[order] else {}
    }

    method LogSale(order: nat, m: Movement)
      modifies this`sales
      ensures SalesOf(order) == old(SalesOf(order)) + [m]
      ensures forall other :: other != order ==> SalesOf(other) == old(SalesOf(other))
    {
      sales := sales[order := SalesOf(order) + [m]];
    }
  }

  /** Takes one line and logs its movement; on a shortage what was taken stays taken, and the answer is no. */
  method SellLine(db: StockDb, log: StockMovements, order: nat, k: StockKey, quantity: int, consumes: bool,
                  mayOwe: bool)
    returns (ok: bool)
    modifies db, log`sales
    ensures var (after, m, fine) := TakeLine(old(db.shelves), k, quantity, consumes, mayOwe);
            db.shelves == after && log.SalesOf(order) == old(log.SalesOf(order)) + [m] && ok == fine
    ensures forall other :: other != order ==> log.SalesOf(other) == old(log.SalesOf(other))
  {
    var n := if consumes then Max(0, quantity) else 0;
    var taken := Taken(At(db.shelves, k).lots, n);
    var missing := db.ConsumeFifoItems(k, n);
    ok := missing == 0 || mayOwe;
    var shelf, deficit := At(db.shelves, k), if ok then missing else 0;
    db.shelves := db.shelves[k := shelf.(owed := UpsertOwed(shelf.owed, k.chip.None?, deficit))];
    log.LogSale(order, Movement(k, quantity, taken, deficit));
  }

  /** `auto_decrement_stock`: nothing if the order has sale movements already. */
  method AutoDecrementStock(db: StockDb, log: StockMovements, order: nat, items: seq<SoldItem>, source: Source)
    returns (ok: bool)
    modifies db, log`sales
    ensures old(log.SalesOf(order)) != [] ==>
              ok && db.shelves == old(db.shelves) && log.SalesOf(order) == old(log.SalesOf(order))
    ensures old(log.SalesOf(order)) == [] ==>
              Deduction(db.shelves, log.SalesOf(order), ok) == Deduct(db.catalog, old(db.shelves), items, source)
    ensures forall other :: other != order ==> log.SalesOf(other) == old(log.SalesOf(other))
  {
    hide TakeLine, OptionOf, HasChip, Consumes;
    if log.SalesOf(order) != [] {
      return true;
    }
    for i := 0 to |items|
      invariant Deduction(db.shelves, log.SalesOf(order), true)
                == Deduct(db.catalog, old(db.shelves), items[..i], source)
      invariant forall other :: other != order ==> log.SalesOf(other) == old(log.SalesOf(other))
    {
      assert items[..i + 1][..i] == items[..i];
      if Known(db.catalog, items[i]) {
        if ChipRefused(db.catalog, items[i]) {
          DeductStops(db.catalog, old(db.shelves), items, i + 1, source);
          return false;
        }
        if Moves(db.catalog, items[i]) {
          ok := SellLine(db, log, order, OptionOf(db.catalog, items[i]), items[i].quantity, Consumes(items[i], source),
                         source != OtherSource);
          if !ok {
            DeductStops(db.catalog, old(db.shelves), items, i + 1, source);
            return;
          }
        }
      }
    }
    assert items[..|items|] == items;
    return true;
  }

  /** After a refused line nothing more happens. */
  lemma {:induction false} DeductStops(catalog: Catalog, s: Shelves, items: seq<SoldItem>, n: nat, source: Source)
    requires n <= |items| && !Deduct(catalog, s, items[..n], source).ok
    ensures Deduct(catalog, s, items, source) == Deduct(catalog, s, items[..n], source)
  {
    if n == |items| {
      assert items[..n] == items;
    } else {
      assert items[..|items| - 1][..n] == items[..n];
      DeductStops(catalog, s, items[..|items| - 1], n, source);
    }
  }

  /** `reverse_order_stock_for_edit`: all items back, then the negative balances, then the movements go. */
  method ReverseOrderStockForEdit(db: StockDb, log: StockMovements, order: nat)
    modifies db, log`sales
    ensures db.shelves == Reversed(old(db.shelves), old(log.SalesOf(order))) && log.SalesOf(order) == []
    ensures forall other :: other != order ==> log.SalesOf(other) == old(log.SalesOf(other))
  {
    hide Untake, Unowe;
    var ms := log.SalesOf(order);
    for i := 0 to |ms|
      modifies db
      invariant db.shelves == UntakeAll(old(db.shelves), ms[..i])
    {
      assert ms[..i + 1][..i] == ms[..i];
      db.shelves := Untake(db.shelves, ms[i]);
    }
    assert ms[..|ms|] == ms;
    ghost var untaken := db.shelves;
    for i := 0 to |ms|
      modifies db
      invariant db.shelves == UnoweAll(untaken, ms[..i])
    {
      assert ms[..i + 1][..i] == ms[..i];
      db.shelves := Unowe(db.shelves, ms[i]);
    }
    log.sales := log.sales - {order};
  }

  /** The stock part of an edit of a confirmed order; a failing deduction is only logged, so its writes stay. */
  method EditOrderStock(db: StockDb, log: StockMovements, order: nat, items: seq<SoldItem>, source: Source)
    returns (warned: bool)
    modifies db, log`sales
    ensures Deduction(db.shelves, log.SalesOf(order), !warned)
         == Edited(db.catalog, old(db.shelves), old(log.SalesOf(order)), items, source)
    ensures forall other :: other != order ==> log.SalesOf(other) == old(log.SalesOf(other))
  {
    hide Deduct, Reversed;
    ReverseOrderStockForEdit(db, log, order);
    var ok := AutoDecrementStock(db, log, order, items, source);
    return !ok;
  }

  /** One sale movement given back: a new lot for what was taken, the negative balance reduced by what was not. */
  method RestoreLine(db: StockDb, k: StockKey, quantity: int, deficit: nat)
    modifies db
    ensures db.shelves == old(db.shelves)[k := RestoredShelf(At(old(db.shelves), k), quantity, deficit)]
  {
    if quantity - deficit > 0 {
      db.CreateLot(k, quantity - deficit);
    }
    var shelf := At(db.shelves, k);
    db.shelves := db.shelves[k := shelf.(owed := if deficit > 0 then ReduceAll(shelf.owed, deficit) else shelf.owed)];
  }

  /** `restore_stock_for_order`: an option is skipped once it has been restored. */
  method RestoreStockForOrder(db: StockDb, log: StockMovements, order: nat)
    modifies db, log`restored
    ensures (db.shelves, log.RestoredOf(order))
         == Cancelled(old(db.shelves), log.SalesOf(order), |log.SalesOf(order)|, old(log.RestoredOf(order)))
    ensures forall other :: other != order ==> log.RestoredOf(other) == old(log.RestoredOf(other))
  {
    hide FirstDeficit, RestoredShelf;
    var ms := log.SalesOf(order);
    for i := 0 to |ms|
      invariant (db.shelves, log.RestoredOf(order)) == Cancelled(old(db.shelves), ms, i, old(log.RestoredOf(order)))
      invariant forall other :: other != order ==> log.RestoredOf(other) == old(log.RestoredOf(other))
    {
      var m := ms[i];
      if m.option !in log.RestoredOf(order) {
        RestoreLine(db, m.option, m.quantity, FirstDeficit(ms, m.option));
        log.restored := log.restored[order := log.RestoredOf(order) + {m.option}];
      }
    }
  }

  // ----- concrete orders -----

  const PIE := StockKey(7, None)
  const SHOWN: Catalog := map[7 := Product(true, 100, [])]

  function Pies(quantity: int, useInventory: bool): SoldItem {
    SoldItem(Some(7), None, 100, quantity, Some(useInventory))
  }

  lemma Sums(a: nat, b: nat)
    ensures Sum([a]) == a && Sum([a, b]) == a + b
  {
    assert [a][1..] == [] && [a, b][1..] == [b] && [b][1..] == [];
  }

  /** One line of pies from a shelf with one lot and at most one owed row. */
  lemma TakePies(shelf: Shelf, item: SoldItem, source: Source, ms: seq<Movement>)
    requires |shelf.lots| == 1 && item.product == Some(7) && item.chip.None? && item.quantity >= 0
    ensures var n := if Consumes(item, source) then item.quantity else 0;
            var take := Min(n, shelf.lots[0]);
            var short := take < n && source == OtherSource;
            var deficit := if short then 0 else n - take;
            DeductLine(SHOWN, Deduction(map[PIE := shelf], ms, true), item, source)
            == Deduction(map[PIE := Shelf([shelf.lots[0] - take], UpsertOwed(shelf.owed, true, deficit))],
                         ms + [Movement(PIE, item.quantity, [take], deficit)], !short)
  {
    hide UpsertOwed;
    var n := if Consumes(item, source) then item.quantity else 0;
    var take := Min(n, shelf.lots[0]);
    assert shelf.lots == [shelf.lots[0]] && shelf.lots[1..] == [];
    assert ConsumeFifo(shelf.lots[1..], n - take) == ([], n - take) && Taken(shelf.lots[1..], n - take) == [];
    var left: seq<nat> := [shelf.lots[0] - take];
    assert left + [] == left;
    assert ConsumeFifo(shelf.lots, n) == ([shelf.lots[0] - take], n - take);
    assert Taken(shelf.lots, n) == [take];
    assert OptionOf(SHOWN, item) == PIE;
    var s: Shelves := map[PIE := shelf];
    assert forall after: Shelf :: s[PIE := after] == map[PIE := after];
  }

  /** An order of one line of pies. */
  lemma OneLine(shelf: Shelf, item: SoldItem, source: Source)
    requires |shelf.lots| == 1 && item.product == Some(7) && item.chip.None? && item.quantity >= 0
    ensures var n := if Consumes(item, source) then item.quantity else 0;
            var take := Min(n, shelf.lots[0]);
            var short := take < n && source == OtherSource;
            var deficit := if short then 0 else n - take;
            Deduct(SHOWN, map[PIE := shelf], [item], source)
            == Deduction(map[PIE := Shelf([shelf.lots[0] - take], UpsertOwed(shelf.owed, true, deficit))],
                         [Movement(PIE, item.quantity, [take], deficit)], !short)
  {
    hide DeductLine, UpsertOwed;
    assert [item][..0] == [];
    TakePies(shelf, item, source, []);
    assert forall m: Movement :: [] + [m] == [m];
  }

  lemma TwoLines(s: Shelves, a: SoldItem, b: SoldItem, source: Source)
    ensures Deduct(SHOWN, s, [a, b], source) == DeductLine(SHOWN, Deduct(SHOWN, s, [a], source), b, source)
  {
    assert [a, b][..1] == [a];
  }

  /** Reversing the one movement of pies. */
  lemma ReversePies(lot: nat, owed: seq<nat>, m: Movement)
    requires m.option == PIE && |m.taken| == 1
    ensures Reversed(map[PIE := Shelf([lot], owed)], [m])
            == map[PIE := Shelf([lot + m.taken[0]], RaiseAll(owed, m.deficit))]
  {
    var s: Shelves := map[PIE := Shelf([lot], owed)];
    var back: Shelves := map[PIE := Shelf([lot + m.taken[0]], owed)];
    assert [m][..0] == [];
    assert GiveBack([lot], m.taken) == [lot + m.taken[0]];
    assert UntakeAll(s, [m]) == Untake(s, m) == back;
    assert UnoweAll(back, [m]) == Unowe(back, m);
  }

  /** One pie sold with none left is one owed; saving that order again without a change makes it three. */
  lemma ResavedOversaleGrows()
    ensures var d := Deduct(SHOWN, map[PIE := Shelf([0], [])], [Pies(1, true)], PointOfSale);
            d.ok && Net(At(d.shelves, PIE)) == -1
            && Net(At(Edited(SHOWN, d.shelves, d.movements, [Pies(1, true)], PointOfSale).shelves, PIE)) == -3
  {
    hide Deduct, Reversed;
    OneLine(Shelf([0], []), Pies(1, true), PointOfSale);
    var d := Deduct(SHOWN, map[PIE := Shelf([0], [])], [Pies(1, true)], PointOfSale);
    assert d.shelves[PIE].owed == [1];
    ReversePies(0, [1], d.movements[0]);
    assert RaiseAll([1], 1) == [2];
    OneLine(Shelf([0], [2]), Pies(1, true), PointOfSale);
    Sums(0, 0);
    Sums(1, 0);
    Sums(2, 1);
  }

  /** An edit from one pie to three with two there is saved, yet its deduction stops with the shelf empty. */
  lemma ShortEditEmptiesTheShelf()
    ensures var d := Deduct(SHOWN, map[PIE := Shelf([2], [])], [Pies(1, true)], OtherSource);
            var e := Edited(SHOWN, d.shelves, d.movements, [Pies(3, true)], OtherSource);
            d.ok && !e.ok && Available(At(d.shelves, PIE)) == 1 && Available(At(e.shelves, PIE)) == 0
  {
    hide Deduct, Reversed;
    OneLine(Shelf([2], []), Pies(1, true), OtherSource);
    var d := Deduct(SHOWN, map[PIE := Shelf([2], [])], [Pies(1, true)], OtherSource);
    ReversePies(1, [], d.movements[0]);
    assert RaiseAll([], 0) == [];
    OneLine(Shelf([2], []), Pies(3, true), OtherSource);
    Sums(0, 0);
    Sums(1, 0);
  }

  /** Two lines of one pie each take both pies; cancelling the order gives one back. */
  lemma SecondLineIsLost()
    ensures var d := Deduct(SHOWN, map[PIE := Shelf([2], [])], [Pies(1, true), Pies(1, true)], OtherSource);
            d.ok && Available(At(d.shelves, PIE)) == 0
            && Available(At(Cancelled(d.shelves, d.movements, |d.movements|, {}).0, PIE)) == 1
  {
    hide Deduct, DeductLine;
    OneLine(Shelf([2], []), Pies(1, true), OtherSource);
    TwoLines(map[PIE := Shelf([2], [])], Pies(1, true), Pies(1, true), OtherSource);
    var m := Movement(PIE, 1, [1], 0);
    TakePies(Shelf([1], []), Pies(1, true), OtherSource, [m]);
    assert [m] + [m] == [m, m];
    NoDeficit([m, m], PIE);
    CancelledAt(map[PIE := Shelf([0], [])], [m, m], 2, {}, PIE);
    assert [0] + [1] == [0, 1];
    Sums(0, 1);
  }

  /** An order that took nothing from stock adds its quantity to the stock when it is cancelled. */
  lemma UntakenOrderAddsStock()
    ensures var d := Deduct(SHOWN, map[PIE := Shelf([5], [])], [Pies(2, false)], OtherSource);
            d.ok && Available(At(d.shelves, PIE)) == 5
            && Available(At(Cancelled(d.shelves, d.movements, |d.movements|, {}).0, PIE)) == 7
  {
    hide Deduct;
    OneLine(Shelf([5], []), Pies(2, false), OtherSource);
    var m := Movement(PIE, 2, [0], 0);
    NoDeficit([m], PIE);
    CancelledAt(map[PIE := Shelf([5], [])], [m], 1, {}, PIE);
    assert [5] + [2] == [5, 2];
    Sums(5, 2);
  }
}
