/**
 The cash drawer's rules over plain values: what each request decides and which books it
 leaves behind. `CashDrawerApi` holds the endpoints that mutate a database and are proved
 against these functions; `CashDrawerProofs` proves what the rules guarantee over every run.
 */
module CashDrawer {
  import opened Common
  import opened Ledger

  /** The columns a closing UPDATE sets in one go; a drawer is open as long as it has none. */
  datatype Closing = Closing(closedAt: int, closingBalance: int, countedAmount: int, discrepancy: int)

  datatype Drawer = Drawer(openedAt: int, openingBalance: int, countedOpening: int, closing: Option<Closing>) {
    predicate Open() { closing.None? }
  }

  /** The tables a drawer request touches. A drawer's id is its index; `staff` lists the 23XX sub-accounts. */
  datatype Books = Books(drawers: seq<Drawer>, entries: seq<Entry>, staff: seq<string>)

  /** Now, and the start of the current local day, both as UTC instants. */
  datatype Clock = Clock(now: int, midnight: int)

  datatype SurplusSource = OwnerAddedCash | UnidentifiedSale
  datatype ShortageSource = OwnerWithdraw | EquityLoss
  datatype CashInSource = FromOwner | FromEmployee | FromEquity
  datatype CashOutDestination = ToOwner | ToEmployee

  datatype OpenRequest = OpenRequest(opening: nat, carryOverConfirmed: bool,
                                     surplusConfirmed: bool, surplusSource: Option<SurplusSource>,
                                     shortageConfirmed: bool, shortageSource: Option<ShortageSource>)

  datatype CloseRequest = CloseRequest(counted: nat,
                                       surplusConfirmed: bool, surplusSource: Option<SurplusSource>,
                                       shortageConfirmed: bool, shortageSource: Option<ShortageSource>)

  datatype OpenOutcome =
    | Opened(drawer: nat)
    | CarryOverProposal(amount: int, fromDrawer: nat)
    | AlreadyOpen
    | OpenSurplusProposal(reference: int, opening: int, surplus: int)
    | OpenShortageProposal(reference: int, opening: int, shortage: int)

  datatype MoveOutcome = Moved(drawer: nat) | StaffNameMissing | NoActiveDrawer

  datatype CloseOutcome =
    | Closed(drawer: nat, discrepancy: int)
    | NothingOpen
    | CloseSurplusProposal(expected: int, counted: int, surplus: int)
    | CloseShortageProposal(expected: int, counted: int, shortage: int)

  // ----- reading the books -----

  function Balance1101(b: Books): int {
    DrawerCash(Everything, b.entries)
  }

  /** The stored closing balance of a closed drawer, else the opening balance plus the linked 1101 lines. */
  function Expected(b: Books, d: nat): int
    requires d < |b.drawers|
  {
    match b.drawers[d].closing
    case Some(c) => c.closingBalance
    case None => b.drawers[d].openingBalance + DrawerCash(OfDrawer(d), b.entries)
  }

  /** The open drawer with the highest id. */
  function Active(drawers: seq<Drawer>): (d: Option<nat>)
    ensures d.Some? ==> d.value < |drawers| && drawers[d.value].Open()
    ensures d.None? ==> forall i :: 0 <= i < |drawers| ==> !drawers[i].Open()
  {
    if drawers == [] then None
    else if drawers[|drawers| - 1].Open() then Some(|drawers| - 1)
    else Active(drawers[..|drawers| - 1])
  }

  predicate Stale(d: Drawer, midnight: int) {
    d.Open() && d.openedAt < midnight
  }

  /** The last row of the stale drawers in the order (opened at, id). */
  function LatestStale(drawers: seq<Drawer>, midnight: int): (d: Option<nat>)
    ensures d.Some? ==> d.value < |drawers| && Stale(drawers[d.value], midnight)
    ensures d.Some? ==> forall i :: 0 <= i < |drawers| && Stale(drawers[i], midnight) ==>
                          drawers[i].openedAt < drawers[d.value].openedAt
                          || (drawers[i].openedAt == drawers[d.value].openedAt && i <= d.value)
    ensures d.None? ==> forall i :: 0 <= i < |drawers| ==> !Stale(drawers[i], midnight)
  {
    if drawers == [] then None
    else
      var last := |drawers| - 1;
      var prev := LatestStale(drawers[..last], midnight);
      if Stale(drawers[last], midnight)
         && (prev.None? || drawers[prev.value].openedAt <= drawers[last].openedAt) then Some(last)
      else prev
  }

  // ----- lazy auto-close -----

  /** A drawer after the lazy auto-close: a stale one is closed at its expected balance. */
  function AutoClosedDrawer(b: Books, d: nat, clock: Clock): Drawer
    requires d < |b.drawers|
  {
    if Stale(b.drawers[d], clock.midnight)
    then b.drawers[d].(closing := Some(Closing(clock.now, Expected(b, d), Expected(b, d), 0)))
    else b.drawers[d]
  }

  function AutoClosed(b: Books, clock: Clock): (r: Books)
    ensures r.entries == b.entries && r.staff == b.staff && |r.drawers| == |b.drawers|
    ensures forall d :: 0 <= d < |b.drawers| ==> r.drawers[d] == AutoClosedDrawer(b, d, clock)
  {
    b.(drawers := seq(|b.drawers|, d requires 0 <= d < |b.drawers| => AutoClosedDrawer(b, d, clock)))
  }

  // ----- bookings -----

  function SurplusLines(amount: int, source: SurplusSource): (lines: seq<Line>)
    requires 0 <= amount
    ensures Balanced(lines) && Net(lines, CASH_IN_DRAWER) == amount
    ensures source == OwnerAddedCash ==> Net(lines, OWNER_CASH) == -amount
    ensures source == UnidentifiedSale ==>
              Net(lines, ORDER_REVENUE) == -amount && Net(lines, COGS) == -Net(lines, INVENTORY) == amount / 2
  {
    match source
    case OwnerAddedCash => Transfer(CASH_IN_DRAWER, OWNER_CASH, amount)
    case UnidentifiedSale =>
      var sale, cost := Transfer(CASH_IN_DRAWER, ORDER_REVENUE, amount), Transfer(COGS, INVENTORY, amount / 2);
      LinesConcat(sale, cost, CASH_IN_DRAWER);
      LinesConcat(sale, cost, ORDER_REVENUE);
      LinesConcat(sale, cost, COGS);
      LinesConcat(sale, cost, INVENTORY);
      sale + cost
  }

  function ShortageLines(amount: int, source: ShortageSource): (lines: seq<Line>)
    ensures Balanced(lines) && Net(lines, CASH_IN_DRAWER) == -amount
    ensures Net(lines, if source == OwnerWithdraw then OWNER_CASH else OWNER_EQUITY) == amount
  {
    match source
    case OwnerWithdraw => Transfer(OWNER_CASH, CASH_IN_DRAWER, amount)
    case EquityLoss => Transfer(OWNER_EQUITY, CASH_IN_DRAWER, amount)
  }

  function Post(b: Books, e: Entry): Books {
    b.(entries := b.entries + [e])
  }

  // ----- open -----

  /** The balance the new drawer starts from: the stale drawer's expected balance, else global 1101. */
  function OpenReference(b: Books, clock: Clock): int {
    match LatestStale(b.drawers, clock.midnight)
    case Some(d) => Expected(b, d)
    case None => Balance1101(b)
  }

  function OpenDecision(b: Books, req: OpenRequest, clock: Clock): OpenOutcome {
    var stale := LatestStale(b.drawers, clock.midnight);
    var reference := OpenReference(b, clock);
    if stale.Some? && !req.carryOverConfirmed then CarryOverProposal(reference, stale.value)
    else if Active(AutoClosed(b, clock).drawers).Some? then AlreadyOpen
    else if stale.None? && reference != 0 && reference < req.opening && !req.surplusConfirmed then
      OpenSurplusProposal(reference, req.opening, req.opening - reference)
    else if stale.None? && reference != 0 && req.opening < reference && !req.shortageConfirmed then
      OpenShortageProposal(reference, req.opening, reference - req.opening)
    else Opened(|b.drawers|)
  }

  /** The lines an accepted open books, if any; a source left unpicked falls back to equity or owner cash. */
  function OpenLines(reference: int, req: OpenRequest): (lines: Option<seq<Line>>) {
    var delta := req.opening - reference;
    if reference == 0 then Some(Transfer(CASH_IN_DRAWER, OWNER_EQUITY, req.opening))
    else if delta > 0 then
      match req.surplusSource
      case Some(source) => Some(SurplusLines(delta, source))
      case None => Some(Transfer(CASH_IN_DRAWER, OWNER_EQUITY, delta))
    else if delta < 0 then
      Some(ShortageLines(-delta, if req.shortageSource.Some? then req.shortageSource.value else OwnerWithdraw))
    else None
  }

  function AfterOpen(b: Books, req: OpenRequest, clock: Clock): Books {
    var reference := OpenReference(b, clock);
    var closed := AutoClosed(b, clock);
    var withNew := closed.(drawers := closed.drawers + [Drawer(clock.now, reference, req.opening, None)]);
    match OpenLines(reference, req)
    case Some(lines) => Post(withNew, Entry(DrawerOpen, clock.now, lines, Some(|b.drawers|)))
    case None => withNew
  }

  // ----- cash in, cash out -----

  /** Staff sub-accounts by first use; a name's index is the number of its 23XX sub-account. */
  function WithStaff(staff: seq<string>, name: string): (r: seq<string>)
    ensures name in r && (forall other :: other in staff ==> other in r)
    ensures staff <= r && IndexOf(staff, name) < |r| && r[IndexOf(staff, name)] == name
    ensures (forall i, j :: 0 <= i < j < |staff| ==> staff[i] != staff[j]) ==>
              forall i, j :: 0 <= i < j < |r| ==> r[i] != r[j]
  {
    if name in staff then staff else staff + [name]
  }

  function MoveDecision(b: Books, needsStaff: bool, staffName: string, clock: Clock): MoveOutcome {
    if needsStaff && staffName == "" then StaffNameMissing
    else
      match Active(AutoClosed(b, clock).drawers)
      case Some(d) => Moved(d)
      case None => NoActiveDrawer
  }

  /** The books an accepted cash-in or cash-out leaves: `lines` posted to the active drawer. */
  function AfterMove(b: Books, source: SourceType, lines: seq<Line>, newStaff: seq<string>, d: nat,
                     clock: Clock): Books {
    Post(AutoClosed(b, clock).(staff := newStaff), Entry(source, clock.now, lines, Some(d)))
  }

  function CashInCredit(b: Books, source: CashInSource, staffName: string): Account {
    match source
    case FromOwner => OWNER_CASH
    case FromEmployee => StaffSub(IndexOf(b.staff, staffName))
    case FromEquity => OWNER_EQUITY
  }

  function CashOutDebit(b: Books, destination: CashOutDestination, staffName: string): Account {
    match destination
    case ToOwner => OWNER_CASH
    case ToEmployee => StaffSub(IndexOf(b.staff, staffName))
  }

  // ----- close -----

  function CloseDecision(b: Books, req: CloseRequest, clock: Clock): CloseOutcome {
    var closed := AutoClosed(b, clock);
    match Active(closed.drawers)
    case None => NothingOpen
    case Some(d) =>
      var expected := Expected(closed, d);
      if expected < req.counted && !req.surplusConfirmed then
        CloseSurplusProposal(expected, req.counted, req.counted - expected)
      else if req.counted < expected && !req.shortageConfirmed then
        CloseShortageProposal(expected, req.counted, expected - req.counted)
      else Closed(d, req.counted - expected)
  }

  /** The lines an accepted close books: none without a discrepancy, and none when no source was picked. */
  function CloseLines(discrepancy: int, req: CloseRequest): (lines: Option<seq<Line>>) {
    if discrepancy > 0 && req.surplusSource.Some? then Some(SurplusLines(discrepancy, req.surplusSource.value))
    else if discrepancy < 0 && req.shortageSource.Some? then Some(ShortageLines(-discrepancy, req.shortageSource.value))
    else None
  }

  function AfterClose(b: Books, req: CloseRequest, d: nat, discrepancy: int, clock: Clock): Books
    requires d < |b.drawers|
  {
    var closed := AutoClosed(b, clock);
    var record := Closing(clock.now, req.counted - discrepancy, req.counted, discrepancy);
    var shut := closed.(drawers := closed.drawers[d := closed.drawers[d].(closing := Some(record))]);
    match CloseLines(discrepancy, req)
    case Some(lines) => Post(shut, Entry(DrawerCloseAdjust, clock.now, lines, Some(d)))
    case None => shut
  }

  // ----- one request, a run of requests -----

  datatype Request =
    | ROpen(open: OpenRequest)
    | RCashIn(inAmount: nat, from: CashInSource, inStaff: string)
    | RCashOut(outAmount: nat, to: CashOutDestination, outStaff: string)
    | RClose(close: CloseRequest)
    | RStatus
    /**
     An entry another service posts. Order, payment and expense entries are linked to the active drawer;
     manual entries and reversals are not linked, even when they touch 1101.
     */
    | RPosting(lines: seq<Line>, linked: bool)

  /** The committed books after one request. */
  function Step(b: Books, r: Request, clock: Clock): Books {
    match r
    case ROpen(req) => if OpenDecision(b, req, clock).Opened? then AfterOpen(b, req, clock) else b
    case RCashIn(amount, source, name) =>
      (match MoveDecision(b, source == FromEmployee, name, clock)
       case Moved(d) =>
         AfterMove(b, DrawerCashIn, Transfer(CASH_IN_DRAWER, CashInCredit(b, source, name), amount),
                   if source == FromEmployee then WithStaff(b.staff, name) else b.staff, d, clock)
       case StaffNameMissing => b
       case NoActiveDrawer => AutoClosed(b, clock))
    case RCashOut(amount, destination, name) =>
      (match MoveDecision(b, destination == ToEmployee, name, clock)
       case Moved(d) =>
         AfterMove(b, DrawerCashOut, Transfer(CashOutDebit(b, destination, name), CASH_IN_DRAWER, amount),
                   if destination == ToEmployee then WithStaff(b.staff, name) else b.staff, d, clock)
       case StaffNameMissing => b
       case NoActiveDrawer => AutoClosed(b, clock))
    case RClose(req) =>
      (match CloseDecision(b, req, clock)
       case Closed(d, discrepancy) => AfterClose(b, req, d, discrepancy, clock)
       case _ => AutoClosed(b, clock))
    case RStatus => AutoClosed(b, clock)
    case RPosting(lines, linked) =>
      if Balanced(lines) then
        Post(b, Entry(OtherSource, clock.now, lines, if linked then Active(b.drawers) else None))
      else b
  }

  datatype Timed = Timed(request: Request, clock: Clock)

  function Run(b: Books, requests: seq<Timed>): Books
    decreases |requests|
  {
    if requests == [] then b
    else Run(Step(b, requests[0].request, requests[0].clock), requests[1..])
  }
}
