/**
 The day's stock count: validation of the counted lines, unit-by-unit sales, waste, surplus inflow and
 clearing of negative balances, and what that does to each counted option.
 */
module Reconciliation {
  import opened Common
  import opened Inventory

  datatype Payment = Cash | BankTransfer | OtherPayment

  datatype SaleRow = SaleRow(quantity: int, unitPrice: int, payment: Payment)

  /** A counted line; the flags say whether a non-blank reason was given. */
  datatype Line = Line(product: nat, price: Option<int>, chip: Option<nat>, expected: int, counted: int,
                       saleQty: int, wasteQty: int, manualPrice: Option<int>, wasteReason: bool, saleRows: seq<SaleRow>)

  datatype Submission = Submission(staffNamed: bool, payment: Payment, wasteReason: bool, lines: seq<Line>)

  datatype Refusal = StaffMissing | NoLines | NegativeCount | NegativeQuantity | BadSaleRow | WasteExceedsMissing
                   | SplitMismatch | NothingMissing | SaleOnSurplus | SalePriceMissing | PaymentMissing
                   | WasteReasonMissing | OptionUnknown | NotDisplayed | CountOutdated | StockExhausted

  // ----- validation -----

  function RowTotal(rows: seq<SaleRow>): int {
    if rows == [] then 0 else RowTotal(rows[..|rows| - 1]) + rows[|rows| - 1].quantity
  }

  /** The sale quantity of a line: its rows when there are any. */
  function SaleQty(line: Line): int {
    if line.saleRows != [] then RowTotal(line.saleRows) else line.saleQty
  }

  predicate BadRow(row: SaleRow) {
    row.quantity <= 0 || row.unitPrice <= 0 || row.payment == OtherPayment
  }

  function LineRefusal(line: Line): Option<Refusal> {
    var missing := line.expected - line.counted;
    if line.counted < 0 then Some(NegativeCount)
    else if line.saleQty < 0 || line.wasteQty < 0 then Some(NegativeQuantity)
    else if exists i :: 0 <= i < |line.saleRows| && BadRow(line.saleRows[i]) then Some(BadSaleRow)
    else if missing > 0 && line.wasteQty > missing then Some(WasteExceedsMissing)
    else if missing > 0 && SaleQty(line) + line.wasteQty != missing then Some(SplitMismatch)
    else if missing == 0 && (SaleQty(line) > 0 || line.wasteQty > 0) then Some(NothingMissing)
    else if missing < 0 && (SaleQty(line) > 0 || line.wasteQty > 0) then Some(SaleOnSurplus)
    else if SaleQty(line) > 0 && line.saleRows == [] && (line.manualPrice.None? || line.manualPrice.value <= 0) then
      Some(SalePriceMissing)
    else None
  }

  function FirstLineRefusal(lines: seq<Line>): (r: Option<Refusal>)
    ensures r.None? <==> forall i :: 0 <= i < |lines| ==> LineRefusal(lines[i]).None?
  {
    if lines == [] then None
    else if LineRefusal(lines[0]).Some? then LineRefusal(lines[0])
    else
      assert forall i :: 1 <= i < |lines| ==> lines[i] == lines[1..][i - 1];
      FirstLineRefusal(lines[1..])
  }

  function SubmissionRefusal(s: Submission): Option<Refusal> {
    if !s.staffNamed then Some(StaffMissing)
    else if s.lines == [] then Some(NoLines)
    else if FirstLineRefusal(s.lines).Some? then FirstLineRefusal(s.lines)
    else if (exists i :: 0 <= i < |s.lines| && SaleQty(s.lines[i]) > 0)
            && (forall i :: 0 <= i < |s.lines| ==> s.lines[i].saleRows == [])
            && s.payment == OtherPayment then Some(PaymentMissing)
    else if (exists i :: 0 <= i < |s.lines| && s.lines[i].wasteQty > 0 && !s.lines[i].wasteReason)
            && !s.wasteReason then
      Some(WasteReasonMissing)
    else None
  }

  // ----- what is accepted -----

  /** What is sold on a line: the sum of its rows when it has any, else its sale quantity. */
  ghost predicate Sells(line: Line, quantity: int) {
    quantity == if line.saleRows == [] then line.saleQty else RowTotal(line.saleRows)
  }

  lemma {:induction false} RowTotalAddsUp(row: SaleRow, rows: seq<SaleRow>)
    ensures RowTotal([]) == 0 && RowTotal([row] + rows) == row.quantity + RowTotal(rows)
  {
    if rows == [] {
      assert [row] + rows == [row] && [row][..0] == [];
    } else {
      assert ([row] + rows)[..|rows|] == [row] + rows[..|rows| - 1];
      RowTotalAddsUp(row, rows[..|rows| - 1]);
    }
  }

  /**
   A line passes exactly when its quantities are not negative, every sale row has a positive quantity, a positive
   price and a way to pay, a shortage is split into sale and waste and anything else sells and wastes nothing, and
   a sale without rows has a positive price.
   */
  lemma LineAcceptedIff(line: Line, sold: int)
    requires Sells(line, sold)
    ensures LineRefusal(line).None? <==>
              && line.counted >= 0 && line.saleQty >= 0 && line.wasteQty >= 0
              && (forall i :: 0 <= i < |line.saleRows| ==>
                    && line.saleRows[i].quantity > 0 && line.saleRows[i].unitPrice > 0
                    && line.saleRows[i].payment in {Cash, BankTransfer})
              && (if line.counted < line.expected then sold + line.wasteQty == line.expected - line.counted
                  else sold <= 0 && line.wasteQty == 0)
              && (line.saleRows == [] && sold > 0 ==> line.manualPrice.Some? && line.manualPrice.value > 0)
  {
    if forall i :: 0 <= i < |line.saleRows| ==> line.saleRows[i].quantity > 0 {
      RowTotalPositive(line.saleRows);
    }
  }

  lemma {:induction false} RowTotalPositive(rows: seq<SaleRow>)
    requires forall i :: 0 <= i < |rows| ==> rows[i].quantity > 0
    ensures RowTotal(rows) >= 0 && (rows != [] ==> RowTotal(rows) > 0)
  {
    if rows == [] {
    } else {
      RowTotalPositive(rows[..|rows| - 1]);
    }
  }

  /** The reason given for refusing a line is true of it. */
  lemma LineRefusalIsTrue(line: Line, sold: int)
    requires Sells(line, sold)
    ensures var missing := line.expected - line.counted;
            match LineRefusal(line)
            case None => true
            case Some(NegativeCount) => line.counted < 0
            case Some(NegativeQuantity) => line.saleQty < 0 || line.wasteQty < 0
            case Some(BadSaleRow) =>
              exists row :: row in line.saleRows
                            && (row.quantity <= 0 || row.unitPrice <= 0 || row.payment == OtherPayment)
            case Some(WasteExceedsMissing) => 0 < missing < line.wasteQty
            case Some(SplitMismatch) => 0 < missing != sold + line.wasteQty && line.wasteQty <= missing
            case Some(NothingMissing) => missing == 0 && (sold > 0 || line.wasteQty > 0)
            case Some(SaleOnSurplus) => missing < 0 && (sold > 0 || line.wasteQty > 0)
            case Some(SalePriceMissing) =>
              sold > 0 && line.saleRows == [] && !(line.manualPrice.Some? && line.manualPrice.value > 0)
            case Some(_) => false
  {
  }

  /** Whatever an accepted line sells, it sells at a positive price and in positive quantities. */
  lemma AcceptedSalesArePriced(line: Line)
    requires LineRefusal(line).None?
    ensures forall j :: 0 <= j < |SaleRowsOf(line)| ==>
              SaleRowsOf(line)[j].unitPrice > 0 && SaleRowsOf(line)[j].quantity > 0
    ensures line.saleRows != [] ==> SaleRowsOf(line) == line.saleRows
    ensures line.saleRows == [] ==>
              |SaleRowsOf(line)| == (if line.saleQty > 0 then 1 else 0)
              && (line.saleQty > 0 ==> SaleRowsOf(line)[0].quantity == line.saleQty
                                       && line.manualPrice == Some(SaleRowsOf(line)[0].unitPrice))
  {
  }

  predicate SellsAnything(lines: seq<Line>) {
    exists i :: 0 <= i < |lines|
                && (if lines[i].saleRows == [] then lines[i].saleQty else RowTotal(lines[i].saleRows)) > 0
  }

  /**
   A submission passes exactly when somebody counted something, every line passes, sales without any row name a
   way to pay, and every waste has a reason of its own or of the submission.
   */
  lemma SubmissionAcceptedIff(s: Submission)
    ensures SubmissionRefusal(s).None? <==>
              && s.staffNamed && s.lines != []
              && (forall i :: 0 <= i < |s.lines| ==> LineRefusal(s.lines[i]).None?)
              && (SellsAnything(s.lines) ==>
                    s.payment in {Cash, BankTransfer} || exists i :: 0 <= i < |s.lines| && s.lines[i].saleRows != [])
              && (forall i :: 0 <= i < |s.lines| && s.lines[i].wasteQty > 0 ==> s.lines[i].wasteReason || s.wasteReason)
  {
    hide LineRefusal, RowTotal;
    assert forall i :: 0 <= i < |s.lines| ==>
             SaleQty(s.lines[i])
             == if s.lines[i].saleRows == [] then s.lines[i].saleQty else RowTotal(s.lines[i].saleRows);
  }

  const PLAIN_SALE := Line(1, None, None, 1, 0, 1, 0, Some(100), false, [])
  const SALE_BY_ROW := Line(2, None, None, 1, 0, 0, 0, None, false, [SaleRow(1, 100, Cash)])

  lemma BothSalesPass()
    ensures LineRefusal(PLAIN_SALE).None? && LineRefusal(SALE_BY_ROW).None? && SaleQty(PLAIN_SALE) == 1
  {
    assert RowTotal([SaleRow(1, 100, Cash)]) == 1 by { assert [SaleRow(1, 100, Cash)][..0] == []; }
    LineAcceptedIff(PLAIN_SALE, 1);
    LineAcceptedIff(SALE_BY_ROW, 1);
  }

  /** A plain sale without a way to pay is refused, and passes as soon as another line has rows. */
  lemma UnpaidSalePasses()
    ensures SubmissionRefusal(Submission(true, OtherPayment, false, [PLAIN_SALE])).Some?
    ensures SubmissionRefusal(Submission(true, OtherPayment, false, [PLAIN_SALE, SALE_BY_ROW])).None?
  {
    hide LineRefusal, RowTotal, SubmissionRefusal;
    BothSalesPass();
    var alone, both := [PLAIN_SALE], [PLAIN_SALE, SALE_BY_ROW];
    SubmissionAcceptedIff(Submission(true, OtherPayment, false, alone));
    SubmissionAcceptedIff(Submission(true, OtherPayment, false, both));
    assert alone[0].saleQty == 1 && both[1].saleRows != [];
  }

  /** The reason given for refusing a submission is true of it, and the first bad line gives its own. */
  lemma SubmissionRefusalIsTrue(s: Submission)
    ensures match SubmissionRefusal(s)
            case None => true
            case Some(StaffMissing) => !s.staffNamed
            case Some(NoLines) => s.lines == []
            case Some(PaymentMissing) => SellsAnything(s.lines) && s.payment == OtherPayment
            case Some(WasteReasonMissing) => !s.wasteReason && exists i :: 0 <= i < |s.lines| && s.lines[i].wasteQty > 0
            case Some(r) => exists i: nat :: IsFirstBad(s.lines, i) && LineRefusal(s.lines[i]) == Some(r)
  {
    hide LineRefusal, RowTotal;
    if FirstLineRefusal(s.lines).Some? {
      FirstBad(s.lines);
      var i: nat :| IsFirstBad(s.lines, i) && LineRefusal(s.lines[i]) == FirstLineRefusal(s.lines);
      LineRefusalIsTrue(s.lines[i], SaleQty(s.lines[i]));
    }
  }

  predicate IsFirstBad(lines: seq<Line>, i: nat) {
    i < |lines| && LineRefusal(lines[i]).Some? && forall j :: 0 <= j < i ==> LineRefusal(lines[j]).None?
  }

  lemma {:induction false} FirstBad(lines: seq<Line>)
    requires FirstLineRefusal(lines).Some?
    ensures exists i: nat :: IsFirstBad(lines, i) && LineRefusal(lines[i]) == FirstLineRefusal(lines)
  {
    hide LineRefusal;
    if LineRefusal(lines[0]).Some? {
      assert IsFirstBad(lines, 0);
    } else {
      FirstBad(lines[1..]);
      var i: nat :| IsFirstBad(lines[1..], i) && LineRefusal(lines[1..][i]) == FirstLineRefusal(lines[1..]);
      assert lines[1..][i] == lines[i + 1];
      assert forall j :: 0 < j < i + 1 ==> lines[j] == lines[1..][j - 1];
      assert IsFirstBad(lines, i + 1);
    }
  }

  // ----- options and freshness -----

  function KeyOf(catalog: Catalog, line: Line): Option<StockKey> {
    ResolveOption(catalog, line.product, line.price, line.chip)
  }

  /** The expected quantity the draft shows for an option, if it shows the option at all. */
  function DraftExpected(catalog: Catalog, shelves: Shelves, k: StockKey): Option<int> {
    if k.product !in catalog || !catalog[k.product].displayed then None
    else if k.chip.Some? then
      if HasChip(catalog[k.product], k.chip.value) then Some(Net(At(shelves, k))) else None
    else if catalog[k.product].chips == [] || Net(At(shelves, k)) != 0 then Some(Net(At(shelves, k)))
    else None
  }

  function FreshnessRefusal(catalog: Catalog, shelves: Shelves, line: Line): Option<Refusal> {
    var k := KeyOf(catalog, line);
    if k.None? then Some(OptionUnknown)
    else
      var expected := DraftExpected(catalog, shelves, k.value);
      if expected.None? then Some(NotDisplayed)
      else if expected.value != line.expected then Some(CountOutdated)
      else None
  }

  /**
   A line passes exactly when its option is one of a product on display, is a chip, the only option or a base
   option that is not at zero, and was counted against its net position.
   */
  lemma FreshLineIff(catalog: Catalog, shelves: Shelves, line: Line)
    ensures FreshnessRefusal(catalog, shelves, line).None? <==>
              var k := ResolveOption(catalog, line.product, line.price, line.chip);
              && k.Some? && catalog[line.product].displayed
              && line.expected == Available(At(shelves, k.value)) - Owed(At(shelves, k.value))
              && (k.value.chip.None? ==> catalog[line.product].chips == [] || line.expected != 0)
    ensures FreshnessRefusal(catalog, shelves, line) == Some(OptionUnknown) <==>
              ResolveOption(catalog, line.product, line.price, line.chip).None?
    ensures FreshnessRefusal(catalog, shelves, line) == Some(CountOutdated) ==>
              line.expected != Net(At(shelves, ResolveOption(catalog, line.product, line.price, line.chip).value))
    ensures FreshnessRefusal(catalog, shelves, line) in {None, Some(OptionUnknown),
                                                         Some(NotDisplayed), Some(CountOutdated)}
  {
    hide Available, Owed, ResolveOption;
    ResolvedOptionMatches(catalog, line.product, line.price, line.chip);
  }

  function FirstFreshnessRefusal(catalog: Catalog, shelves: Shelves, lines: seq<Line>): (r: Option<Refusal>)
    ensures r.None? <==> forall i :: 0 <= i < |lines| ==> FreshnessRefusal(catalog, shelves, lines[i]).None?
  {
    if lines == [] then None
    else if FreshnessRefusal(catalog, shelves, lines[0]).Some? then FreshnessRefusal(catalog, shelves, lines[0])
    else
      assert forall i :: 1 <= i < |lines| ==> lines[i] == lines[1..][i - 1];
      FirstFreshnessRefusal(catalog, shelves, lines[1..])
  }

  predicate IsFirstStale(catalog: Catalog, shelves: Shelves, lines: seq<Line>, i: nat) {
    && i < |lines| && FreshnessRefusal(catalog, shelves, lines[i]).Some?
    && forall j :: 0 <= j < i ==> FreshnessRefusal(catalog, shelves, lines[j]).None?
  }

  /** The first line that does not pass gives its reason. */
  lemma {:induction false} FirstStale(catalog: Catalog, shelves: Shelves, lines: seq<Line>)
    requires FirstFreshnessRefusal(catalog, shelves, lines).Some?
    ensures exists i: nat :: IsFirstStale(catalog, shelves, lines, i)
              && FreshnessRefusal(catalog, shelves, lines[i]) == FirstFreshnessRefusal(catalog, shelves, lines)
  {
    hide FreshnessRefusal;
    if FreshnessRefusal(catalog, shelves, lines[0]).Some? {
      assert IsFirstStale(catalog, shelves, lines, 0);
    } else {
      FirstStale(catalog, shelves, lines[1..]);
      var i: nat :| IsFirstStale(catalog, shelves, lines[1..], i)
        && FreshnessRefusal(catalog, shelves, lines[1..][i]) == FirstFreshnessRefusal(catalog, shelves, lines[1..]);
      assert lines[1..][i] == lines[i + 1];
      assert forall j :: 0 < j < i + 1 ==> lines[j] == lines[1..][j - 1];
      assert IsFirstStale(catalog, shelves, lines, i + 1);
    }
  }

  // ----- sales, one unit order at a time -----

  /** What is sold on a line: its rows, else its quantity at the manual price. */
  function SaleRowsOf(line: Line): seq<SaleRow> {
    if line.saleRows != [] then line.saleRows
    else if line.saleQty > 0
      then [SaleRow(line.saleQty, if line.manualPrice.Some? then line.manualPrice.value else 0, Cash)]
    else []
  }

  /**
   The option a delivered unit order is taken from. An order with a chip uses that chip; one without is
   looked up by its unit price, so a base-price sale at some chip's price is taken from that chip.
   */
  function SaleKey(catalog: Catalog, k: StockKey, unitPrice: int): StockKey {
    if k.chip.Some? || k.product !in catalog then k
    else
      match ResolvePrice(catalog[k.product], unitPrice)
      case Some(chip) => StockKey(k.product, chip)
      case None => k
  }

  function RowUnits(catalog: Catalog, k: StockKey, row: SaleRow): seq<StockKey> {
    seq(Max(0, row.quantity), i => SaleKey(catalog, k, row.unitPrice))
  }

  function RowsUnits(catalog: Catalog, k: StockKey, rows: seq<SaleRow>): seq<StockKey> {
    if rows == [] then [] else RowsUnits(catalog, k, rows[..|rows| - 1]) + RowUnits(catalog, k, rows[|rows| - 1])
  }

  /** The options the unit orders of a line are taken from, in order. */
  function LineUnits(catalog: Catalog, line: Line): seq<StockKey> {
    match KeyOf(catalog, line)
    case Some(k) => RowsUnits(catalog, k, SaleRowsOf(line))
    case None => []
  }

  function AllUnits(catalog: Catalog, lines: seq<Line>): seq<StockKey> {
    if lines == [] then [] else AllUnits(catalog, lines[..|lines| - 1]) + LineUnits(catalog, lines[|lines| - 1])
  }

  /** The stock after selling one unit from each listed option, in order. */
  function Sold(s: Shelves, units: seq<StockKey>): Shelves {
    if units == [] then s
    else
      var before, k := Sold(s, units[..|units| - 1]), units[|units| - 1];
      before[k := SellUnit(At(before, k), k.chip.None?)]
  }

  lemma {:induction false} SoldConcat(s: Shelves, a: seq<StockKey>, b: seq<StockKey>)
    ensures Sold(s, a + b) == Sold(Sold(s, a), b)
  {
    if b == [] {
      assert a + b == a;
    } else {
      assert (a + b)[..|a + b| - 1] == a + b[..|b| - 1];
      SoldConcat(s, a, b[..|b| - 1]);
    }
  }

  // ----- waste, surplus, clearing -----

  /** How much of a surplus nets against the first row of the negative balance. */
  function Offset(shelf: Shelf, counted: int): nat {
    var surplus := counted - Available(shelf);
    if surplus > 0 && shelf.owed != [] then Min(surplus, shelf.owed[0]) else 0
  }

  function RestockQty(shelf: Shelf, counted: int): nat {
    Max(0, counted - Available(shelf)) - Offset(shelf, counted)
  }

  /** Surplus over the available items: the negative balance is reduced first, the rest becomes a new lot. */
  function SurplusShelf(shelf: Shelf, counted: int): Shelf {
    var offset, restock := Offset(shelf, counted), RestockQty(shelf, counted);
    Shelf(if restock > 0 then shelf.lots + [restock] else shelf.lots,
          if offset == 0 then shelf.owed
          else if shelf.owed[0] == offset then shelf.owed[1..]
          else shelf.owed[0 := shelf.owed[0] - offset])
  }

  /** A count of zero on a negative position drops the first row of the negative balance. */
  function ClearedShelf(shelf: Shelf): Shelf {
    if shelf.owed != [] && shelf.owed[0] > 0 then shelf.(owed := shelf.owed[1..]) else shelf
  }

  /** The three passes over the lines that follow the sales. */
  datatype Pass = WastePass | SurplusPass | ClearPass

  predicate Acts(pass: Pass, line: Line) {
    match pass
    case WastePass => line.wasteQty > 0
    case SurplusPass => line.counted > line.expected
    case ClearPass => line.expected < 0 && line.counted == 0
  }

  /** What a pass does to the shelf of a line it acts on. */
  function LineEffect(pass: Pass, line: Line, shelf: Shelf): Shelf
    requires Acts(pass, line)
  {
    match pass
    case WastePass => shelf.(lots := ConsumeFifo(shelf.lots, line.wasteQty).0)
    case SurplusPass => SurplusShelf(shelf, line.counted)
    case ClearPass => ClearedShelf(shelf)
  }

  function AfterPass(pass: Pass, catalog: Catalog, s: Shelves, lines: seq<Line>): Shelves {
    if lines == [] then s
    else
      var last := lines[|lines| - 1];
      var before := AfterPass(pass, catalog, s, lines[..|lines| - 1]);
      var k := KeyOf(catalog, last);
      if k.None? || !Acts(pass, last) then before
      else before[k.value := LineEffect(pass, last, At(before, k.value))]
  }

  /** No line wastes more than is there when its turn comes. */
  predicate WasteCovered(catalog: Catalog, s: Shelves, lines: seq<Line>) {
    lines == []
    || (var init, last := lines[..|lines| - 1], lines[|lines| - 1];
        && WasteCovered(catalog, s, init)
        && var k := KeyOf(catalog, last);
           k.Some? && Acts(WastePass, last) ==>
             last.wasteQty <= Available(At(AfterPass(WastePass, catalog, s, init), k.value)))
  }

  // ----- the submission -----

  function Refusals(catalog: Catalog, s: Shelves, submission: Submission): Option<Refusal> {
    if SubmissionRefusal(submission).Some? then SubmissionRefusal(submission)
    else if FirstFreshnessRefusal(catalog, s, submission.lines).Some?
      then FirstFreshnessRefusal(catalog, s, submission.lines)
    else if !WasteCovered(catalog, Sold(s, AllUnits(catalog, submission.lines)), submission.lines)
      then Some(StockExhausted)
    else None
  }

  /** Accepted means well formed, every line fresh, and the waste covered once the sales are booked. */
  lemma AcceptedIff(catalog: Catalog, s: Shelves, submission: Submission)
    ensures var lines := submission.lines;
            Refusals(catalog, s, submission).None? <==>
              && SubmissionRefusal(submission).None?
              && (forall i :: 0 <= i < |lines| ==> FreshnessRefusal(catalog, s, lines[i]).None?)
              && WasteCovered(catalog, Sold(s, AllUnits(catalog, lines)), lines)
    ensures Refusals(catalog, s, submission) == Some(StockExhausted) <==>
              && SubmissionRefusal(submission).None?
              && (forall i :: 0 <= i < |submission.lines| ==> FreshnessRefusal(catalog, s, submission.lines[i]).None?)
              && !WasteCovered(catalog, Sold(s, AllUnits(catalog, submission.lines)), submission.lines)
    ensures SubmissionRefusal(submission).Some? ==> Refusals(catalog, s, submission) == SubmissionRefusal(submission)
    ensures Refusals(catalog, s, submission).None? ==> AllPriced(submission.lines)
  {
    hide WasteCovered, Sold, AllUnits, LineRefusal, FreshnessRefusal, SaleRowsOf;
    SubmissionAcceptedIff(submission);
    SubmissionRefusalIsTrue(submission);
    if SubmissionRefusal(submission) == Some(StockExhausted) {
      var i: nat :| IsFirstBad(submission.lines, i) && LineRefusal(submission.lines[i]) == Some(StockExhausted);
      LineRefusalIsTrue(submission.lines[i], SaleQty(submission.lines[i]));
    }
    if FirstFreshnessRefusal(catalog, s, submission.lines).Some? {
      FirstStale(catalog, s, submission.lines);
      var i: nat :| IsFirstStale(catalog, s, submission.lines, i)
        && FreshnessRefusal(catalog, s, submission.lines[i]) == FirstFreshnessRefusal(catalog, s, submission.lines);
      FreshLineIff(catalog, s, submission.lines[i]);
    }
    if Refusals(catalog, s, submission).None? {
      forall i | 0 <= i < |submission.lines| ensures Priced(submission.lines[i]) {
        AcceptedSalesArePriced(submission.lines[i]);
      }
    }
  }

  /** Everything the line sells has a positive price. */
  ghost predicate Priced(line: Line) {
    forall row :: row in SaleRowsOf(line) ==> row.unitPrice > 0
  }

  ghost predicate AllPriced(lines: seq<Line>) {
    forall i :: 0 <= i < |lines| ==> Priced(lines[i])
  }

  /** The stock an accepted submission leaves: sales, then waste, then surplus, then clearing. */
  function Reconciled(catalog: Catalog, s: Shelves, lines: seq<Line>): Shelves {
    var sold := Sold(s, AllUnits(catalog, lines));
    var wasted := AfterPass(WastePass, catalog, sold, lines);
    AfterPass(ClearPass, catalog, AfterPass(SurplusPass, catalog, wasted, lines), lines)
  }
}
