/**
 Stock by option: for each product and price chip, the available items of its lots in FIFO order and
 the rows of its negative balance in id order. Base-price stock is the option without a chip.
 */
module Inventory {
  import opened Common

  datatype StockKey = StockKey(product: nat, chip: Option<nat>)

  /** `lots`: available items per lot, oldest first. `owed`: the quantities of the negative_balance rows. */
  datatype Shelf = Shelf(lots: seq<nat>, owed: seq<nat>)

  type Shelves = map<StockKey, Shelf>

  /** Prices are already normalized to whole VND; chips are in display order. */
  datatype Chip = Chip(id: nat, price: int)

  datatype Product = Product(displayed: bool, basePrice: int, chips: seq<Chip>)

  type Catalog = map<nat, Product>

  function At(s: Shelves, k: StockKey): Shelf {
    if k in s then s[k] else Shelf([], [])
  }

  function Sum(xs: seq<nat>): nat {
    if xs == [] then 0 else xs[0] + Sum(xs[1..])
  }

  lemma {:induction false} SumAppend(xs: seq<nat>, x: nat)
    ensures Sum(xs + [x]) == Sum(xs) + x
  {
    if xs == [] {
      assert xs + [x] == [x] && [x][1..] == [];
    } else {
      assert (xs + [x])[1..] == xs[1..] + [x];
      SumAppend(xs[1..], x);
    }
  }

  function Available(shelf: Shelf): nat {
    Sum(shelf.lots)
  }

  function Owed(shelf: Shelf): nat {
    Sum(shelf.owed)
  }

  /** Net position: available items minus everything owed. */
  function Net(shelf: Shelf): int {
    Available(shelf) - Owed(shelf)
  }

  // ----- FIFO consumption -----

  /** Takes `quantity` items, oldest lot first; what could not be taken is the second component. */
  function ConsumeFifo(lots: seq<nat>, quantity: nat): (r: (seq<nat>, nat))
    ensures |r.0| == |lots|
  {
    if lots == [] then ([], quantity)
    else
      var take := Min(lots[0], quantity);
      var rest := ConsumeFifo(lots[1..], quantity - take);
      ([lots[0] - take] + rest.0, rest.1)
  }

  /** Exactly the requested items go, or all there are, and the rest is reported as missing. */
  lemma {:induction false} ConsumeFifoTakes(lots: seq<nat>, quantity: nat)
    ensures var (left, missing) := ConsumeFifo(lots, quantity);
            && Sum(left) == Max(0, Sum(lots) - quantity)
            && missing == Max(0, quantity - Sum(lots))
  {
    if lots == [] {
    } else {
      var take := Min(lots[0], quantity);
      ConsumeFifoTakes(lots[1..], quantity - take);
      var rest := ConsumeFifo(lots[1..], quantity - take).0;
      assert ([lots[0] - take] + rest)[1..] == rest;
    }
  }

  /** First in, first out: a lot is touched only once every older lot is empty. */
  lemma {:induction false} OlderLotsFirst(lots: seq<nat>, quantity: nat, older: nat, newer: nat)
    requires older < newer < |lots| && ConsumeFifo(lots, quantity).0[newer] != lots[newer]
    ensures ConsumeFifo(lots, quantity).0[older] == 0
  {
    var take := Min(lots[0], quantity);
    if older > 0 {
      OlderLotsFirst(lots[1..], quantity - take, older - 1, newer - 1);
    } else if quantity <= lots[0] {
      NothingToTake(lots[1..]);
    }
  }

  lemma NoLots(quantity: nat)
    ensures ConsumeFifo([], quantity) == ([], quantity)
  {
  }

  /** Taking from one lot leaves the rest of the work to the lots behind it. */
  lemma FifoStep(all: seq<nat>, lots: seq<nat>, i: nat, missing: nat)
    requires i < |lots| == |all| && lots[i..] == all[i..]
    ensures var take := Min(lots[i], missing);
            var after := lots[i := lots[i] - take];
            && after[i + 1..] == all[i + 1..]
            && after[..i + 1] + ConsumeFifo(all[i + 1..], missing - take).0
               == lots[..i] + ConsumeFifo(all[i..], missing).0
            && ConsumeFifo(all[i + 1..], missing - take).1 == ConsumeFifo(all[i..], missing).1
  {
    var take := Min(lots[i], missing);
    var after := lots[i := lots[i] - take];
    assert all[i..][1..] == all[i + 1..] && all[i..][0] == lots[i];
    assert after[..i + 1] == lots[..i] + [lots[i] - take];
  }

  lemma {:induction false} NothingToTake(lots: seq<nat>)
    ensures ConsumeFifo(lots, 0) == (lots, 0)
  {
    if lots == [] {
    } else {
      NothingToTake(lots[1..]);
      assert [lots[0]] + lots[1..] == lots;
    }
  }

  // ----- negative balance -----

  /**
   Adds an oversold quantity to the negative balance of an option. The unique index treats missing chips
   as different from one another, so a base-price option gets a new row every time.
   */
  function UpsertOwed(owed: seq<nat>, base: bool, deficit: nat): seq<nat> {
    if deficit == 0 then owed
    else if base || owed == [] then owed + [deficit]
    else owed[0 := owed[0] + deficit]
  }

  lemma UpsertAddsDeficit(owed: seq<nat>, base: bool, deficit: nat)
    ensures Sum(UpsertOwed(owed, base, deficit)) == Sum(owed) + deficit
  {
    SumAppend(owed, deficit);
    if owed != [] {
      assert owed[0 := owed[0] + deficit][1..] == owed[1..];
    }
  }

  /** No row of the negative balance is empty: an upsert adds something, and a row netted to zero is deleted. */
  predicate PositiveRows(shelf: Shelf) {
    forall q :: q in shelf.owed ==> q > 0
  }

  lemma PositiveOwed(shelf: Shelf)
    requires PositiveRows(shelf)
    ensures shelf.owed == [] <==> Owed(shelf) == 0
  {
    if shelf.owed != [] {
      assert shelf.owed[0] in shelf.owed;
    }
  }

  /** Selling past zero keeps a single row exactly when the option has a chip or owed nothing yet. */
  lemma UpsertKeepsOneRowIff(owed: seq<nat>, base: bool, deficit: nat)
    requires |owed| <= 1 && deficit > 0
    ensures |UpsertOwed(owed, base, deficit)| <= 1 <==> !base || owed == []
  {
  }

  // ----- what one movement does to a shelf -----

  /** One unit of a sale that may go negative. */
  function SellUnit(shelf: Shelf, base: bool): Shelf {
    var (left, missing) := ConsumeFifo(shelf.lots, 1);
    Shelf(left, UpsertOwed(shelf.owed, base, missing))
  }

  lemma SellUnitEffect(shelf: Shelf, base: bool)
    ensures Net(SellUnit(shelf, base)) == Net(shelf) - 1
    ensures Available(shelf) > 0 ==>
              Available(SellUnit(shelf, base)) == Available(shelf) - 1 && SellUnit(shelf, base).owed == shelf.owed
  {
    ConsumeFifoTakes(shelf.lots, 1);
    UpsertAddsDeficit(shelf.owed, base, ConsumeFifo(shelf.lots, 1).1);
  }

  function Restocked(shelf: Shelf, quantity: nat): Shelf {
    shelf.(lots := shelf.lots + [quantity])
  }

  /** A new lot is taken last: as long as the older stock suffices it is not touched. */
  lemma {:induction false} NewLotSellsLast(lots: seq<nat>, lot: nat, quantity: nat)
    requires quantity <= Sum(lots)
    ensures var left := ConsumeFifo(Restocked(Shelf(lots, []), lot).lots, quantity).0;
            |left| == |lots| + 1 && left[|lots|] == lot
  {
    if lots == [] {
      NothingToTake([lot]);
      assert [] + [lot] == [lot];
    } else {
      var take := Min(lots[0], quantity);
      assert (lots + [lot])[1..] == lots[1..] + [lot];
      NewLotSellsLast(lots[1..], lot, quantity - take);
    }
  }

  // ----- the option a request names -----

  function ChipPrices(chips: seq<Chip>): (prices: seq<int>)
    ensures |prices| == |chips| && forall i :: 0 <= i < |chips| ==> prices[i] == chips[i].price
  {
    seq(|chips|, i requires 0 <= i < |chips| => chips[i].price)
  }

  predicate HasChip(p: Product, chip: nat) {
    exists i :: 0 <= i < |p.chips| && p.chips[i].id == chip
  }

  /** The option a price means: the base price, else the first chip with that price. */
  function ResolvePrice(p: Product, price: int): Option<Option<nat>> {
    if price == p.basePrice then Some(None)
    else
      var i := IndexOf(ChipPrices(p.chips), price);
      if i < |p.chips| then Some(Some(p.chips[i].id)) else None
  }

  function PriceOf(p: Product, chip: nat): (price: int)
    requires HasChip(p, chip)
    ensures exists i :: 0 <= i < |p.chips| && p.chips[i] == Chip(chip, price)
  {
    PriceIn(p.chips, chip)
  }

  function PriceIn(chips: seq<Chip>, chip: nat): (price: int)
    requires exists i :: 0 <= i < |chips| && chips[i].id == chip
    ensures exists i :: 0 <= i < |chips| && chips[i] == Chip(chip, price)
  {
    if chips[0].id == chip then assert chips[0] == Chip(chip, chips[0].price); chips[0].price
    else PriceIn(chips[1..], chip)
  }

  /** The option named by a chip, by a price, by both if they agree, or by neither (base). None: refused. */
  function ResolveOption(catalog: Catalog, product: nat, price: Option<int>, chip: Option<nat>): Option<StockKey> {
    if product !in catalog then None
    else
      var p := catalog[product];
      match chip
      case Some(c) =>
        if !HasChip(p, c) || (price.Some? && price.value != PriceOf(p, c)) then None else Some(StockKey(product, chip))
      case None =>
        if price.None? then Some(StockKey(product, None))
        else
          match ResolvePrice(p, price.value)
          case Some(resolved) => Some(StockKey(product, resolved))
          case None => None
  }

  predicate OptionHasPrice(p: Product, chip: Option<nat>, price: int) {
    match chip
    case None => p.basePrice == price
    case Some(c) => exists i :: 0 <= i < |p.chips| && p.chips[i] == Chip(c, price)
  }

  /** The base price wins over chips of the same price, and of the chips the first in display order. */
  lemma ResolvedPriceIsFirst(p: Product, price: int)
    ensures match ResolvePrice(p, price)
            case Some(None) => price == p.basePrice
            case Some(Some(chip)) =>
              price != p.basePrice
              && exists i :: 0 <= i < |p.chips| && p.chips[i] == Chip(chip, price)
                             && forall j :: 0 <= j < i ==> p.chips[j].price != price
            case None => price != p.basePrice && forall i :: 0 <= i < |p.chips| ==> p.chips[i].price != price
  {
    var prices := ChipPrices(p.chips);
    var i := IndexOf(prices, price);
    assert forall j :: 0 <= j < |p.chips| ==> prices[j] == p.chips[j].price;
    if i < |p.chips| {
      assert p.chips[i] == Chip(p.chips[i].id, price);
    }
  }

  /**
   A resolved option belongs to the product, is the chip that was asked for and has the price that was asked
   for. A request is refused only for an unknown product, a chip of another product, a price that is not the
   chip's, or a price that no option of the product has.
   */
  lemma ResolvedOptionMatches(catalog: Catalog, product: nat, price: Option<int>, chip: Option<nat>)
    ensures match ResolveOption(catalog, product, price, chip)
            case Some(k) => product in catalog && k.product == product
                            && (chip.Some? ==> k.chip == chip && HasChip(catalog[product], chip.value))
                            && (price.Some? ==> OptionHasPrice(catalog[product], k.chip, price.value))
                            && (price.None? && chip.None? ==> k.chip.None?)
                            && (chip.None? && price.Some? ==>
                                  ResolvePrice(catalog[product], price.value) == Some(k.chip))
            case None => product !in catalog
                         || (chip.Some? && !HasChip(catalog[product], chip.value))
                         || (chip.Some? && price.Some? && PriceOf(catalog[product], chip.value) != price.value)
                         || (chip.None? && price.Some? && forall c :: !OptionHasPrice(catalog[product], c, price.value))
  {
    if product in catalog && chip.None? && price.Some? {
      ResolvedPriceIsFirst(catalog[product], price.value);
    }
  }

  // ----- the stock tables and their endpoints -----

  datatype StockOutcome = StockSet(available: nat) | BadRequest | ProductNotFound | OptionInvalid | OutOfStock

  class StockDb {
    const catalog: Catalog
    var shelves: Shelves

    constructor (catalog: Catalog)
      ensures this.catalog == catalog && shelves == map[]
    {
      this.catalog := catalog;
      shelves := map[];
    }

    method CreateLot(k: StockKey, quantity: nat)
      modifies this
      ensures shelves == old(shelves)[k := Restocked(At(old(shelves), k), quantity)]
    {
      var shelf := At(shelves, k);
      shelves := shelves[k := shelf.(lots := shelf.lots + [quantity])];
    }

    /** Walks the lots oldest first; returns what could not be taken. */
    method ConsumeFifoItems(k: StockKey, quantity: nat) returns (missing: nat)
      modifies this
      ensures shelves
              == old(shelves)[k := At(old(shelves), k).(lots := ConsumeFifo(At(old(shelves), k).lots, quantity).0)]
      ensures missing == ConsumeFifo(At(old(shelves), k).lots, quantity).1
    {
      var shelf := At(shelves, k);
      var lots: seq<nat> := shelf.lots;
      hide ConsumeFifo;
      missing := quantity;
      for i := 0 to |lots|
        invariant shelves == old(shelves) && |lots| == |shelf.lots| && lots[i..] == shelf.lots[i..]
        invariant lots[..i] + ConsumeFifo(shelf.lots[i..], missing).0 == ConsumeFifo(shelf.lots, quantity).0
        invariant ConsumeFifo(shelf.lots[i..], missing).1 == ConsumeFifo(shelf.lots, quantity).1
      {
        var take := Min(lots[i], missing);
        FifoStep(shelf.lots, lots, i, missing);
        lots := lots[i := lots[i] - take];
        missing := missing - take;
      }
      assert lots[..|lots|] == lots && shelf.lots[|lots|..] == [];
      NoLots(missing);
      assert lots == ConsumeFifo(shelf.lots, quantity).0;
      shelves := shelves[k := shelf.(lots := lots)];
    }

    method RestockProduct(product: nat, quantity: int, price: Option<int>, chip: Option<nat>)
      returns (outcome: StockOutcome)
      modifies this
      ensures !outcome.StockSet? ==> shelves == old(shelves)
      ensures outcome.StockSet? <==> quantity > 0 && ResolveOption(catalog, product, price, chip).Some?
      ensures outcome.StockSet? ==>
                var k := ResolveOption(catalog, product, price, chip).value;
                && shelves == old(shelves)[k := Restocked(At(old(shelves), k), quantity)]
                && outcome.available == Available(At(shelves, k)) == Available(At(old(shelves), k)) + quantity
    {
      if quantity <= 0 {
        return BadRequest;
      }
      if product !in catalog {
        return ProductNotFound;
      }
      var option := ResolveOption(catalog, product, price, chip);
      if option.None? {
        return OptionInvalid;
      }
      CreateLot(option.value, quantity);
      SumAppend(At(old(shelves), option.value).lots, quantity);
      return StockSet(Available(At(shelves, option.value)));
    }

    /** Waste never goes negative: without enough stock the request is rolled back. */
    method WasteStock(product: nat, quantity: int, reason: bool, price: Option<int>, chip: Option<nat>)
      returns (outcome: StockOutcome)
      modifies this
      ensures !outcome.StockSet? ==> shelves == old(shelves)
      ensures outcome.OutOfStock? ==>
                var option := ResolveOption(catalog, product, price, chip);
                option.Some? && quantity > Available(At(old(shelves), option.value))
      ensures outcome.StockSet? <==>
                var option := ResolveOption(catalog, product, price, chip);
                quantity > 0 && reason && option.Some? && quantity <= Available(At(old(shelves), option.value))
      ensures outcome.StockSet? ==>
                var option := ResolveOption(catalog, product, price, chip);
                && option.Some? && 0 < quantity <= Available(At(old(shelves), option.value))
                && outcome.available == Available(At(shelves, option.value))
                   == Available(At(old(shelves), option.value)) - quantity
                && At(shelves, option.value).owed == At(old(shelves), option.value).owed
                && |At(shelves, option.value).lots| == |At(old(shelves), option.value).lots|
                && forall other :: other != option.value ==> At(shelves, other) == At(old(shelves), other)
    {
      if quantity <= 0 || !reason {
        return BadRequest;
      }
      if product !in catalog {
        return ProductNotFound;
      }
      var option := ResolveOption(catalog, product, price, chip);
      if option.None? {
        return OptionInvalid;
      }
      var before := shelves;
      ConsumeFifoTakes(At(shelves, option.value).lots, quantity);
      var missing := ConsumeFifoItems(option.value, quantity);
      if missing > 0 {
        shelves := before;
        return OutOfStock;
      }
      return StockSet(Available(At(shelves, option.value)));
    }

    /** Whatever the lots held, an accepted adjustment leaves exactly the requested quantity. */
    method AdjustStock(product: nat, quantity: int, reason: bool, price: Option<int>, chip: Option<nat>)
      returns (outcome: StockOutcome)
      modifies this
      ensures !outcome.StockSet? ==> shelves == old(shelves)
      ensures outcome.StockSet? <==> quantity >= 0 && reason && ResolveOption(catalog, product, price, chip).Some?
      ensures outcome.StockSet? ==>
                var k := ResolveOption(catalog, product, price, chip).value;
                && outcome.available == Available(At(shelves, k)) == quantity
                && At(shelves, k).owed == At(old(shelves), k).owed
                && |At(shelves, k).lots| >= |At(old(shelves), k).lots|
                && forall other :: other != k ==> At(shelves, other) == At(old(shelves), other)
    {
      if quantity < 0 || !reason {
        return BadRequest;
      }
      if product !in catalog {
        return ProductNotFound;
      }
      var option := ResolveOption(catalog, product, price, chip);
      if option.None? {
        return OptionInvalid;
      }
      var k := option.value;
      var delta := quantity - Available(At(shelves, k));
      if delta > 0 {
        SumAppend(At(shelves, k).lots, delta);
        CreateLot(k, delta);
      } else if delta < 0 {
        ConsumeFifoTakes(At(shelves, k).lots, -delta);
        var _ := ConsumeFifoItems(k, -delta);
      }
      return StockSet(Available(At(shelves, k)));
    }
  }
}
