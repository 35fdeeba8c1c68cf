/**
 The cash-drawer endpoints as code that changes a database. A request reads and writes the
 connection's tables; they become durable when it commits and are discarded when it raises.
 */
module CashDrawerApi {
  import opened Common
  import opened Ledger
  import opened CashDrawer

  class Database {
    /** What a new connection would see. */
    var committed: Books
    /** What the connection of the running request sees. */
    var tables: Books

    constructor ()
      ensures Idle() && committed == Books([], [], [])
    {
      committed := Books([], [], []);
      tables := Books([], [], []);
    }

    /** No request is in flight: nothing is uncommitted. */
    predicate Idle()
      reads this
    {
      tables == committed
    }

    method Commit()
      modifies this`committed
      ensures committed == tables
    {
      committed := tables;
    }

    method Rollback()
      modifies this`tables
      ensures tables == committed
    {
      tables := committed;
    }

    /** Refuses an unbalanced entry; otherwise appends it, with its drawer link. */
    method InsertJournalEntry(e: Entry) returns (ok: bool)
      modifies this`tables
      ensures ok == Balanced(e.lines)
      ensures tables == if ok then Post(old(tables), e) else old(tables)
    {
      var debit, credit := 0, 0;
      for i := 0 to |e.lines|
        invariant debit + Debits(e.lines[i..]) == Debits(e.lines)
        invariant credit + Credits(e.lines[i..]) == Credits(e.lines)
      {
        debit := debit + e.lines[i].debit;
        credit := credit + e.lines[i].credit;
      }
      ok := debit == credit;
      if ok {
        tables := tables.(entries := tables.entries + [e]);
      }
    }

    method CreateDrawerJournalEntry(source: SourceType, debited: Account, credited: Account, amount: int,
                                    drawer: nat, now: int)
      modifies this`tables
      ensures tables == Post(old(tables), Entry(source, now, Transfer(debited, credited, amount), Some(drawer)))
    {
      var ok := InsertJournalEntry(Entry(source, now, Transfer(debited, credited, amount), Some(drawer)));
    }

    /** Finds or creates the 23XX sub-account of a staff member. */
    method EnsureStaffAccount(name: string) returns (account: Account)
      modifies this`tables
      ensures tables == old(tables).(staff := WithStaff(old(tables).staff, name))
      ensures account == StaffSub(IndexOf(old(tables).staff, name))
    {
      account := StaffSub(IndexOf(tables.staff, name));
      if account.index == |tables.staff| {
        tables := tables.(staff := tables.staff + [name]);
      }
    }

    /** Closes every open drawer of a previous local day at its expected balance; says whether there was one. */
    method CloseStale(clock: Clock) returns (any: bool)
      modifies this`tables
      ensures tables == AutoClosed(old(tables), clock)
      ensures any == LatestStale(old(tables).drawers, clock.midnight).Some?
    {
      any := false;
      for d := 0 to |tables.drawers|
        invariant tables.entries == old(tables).entries && tables.staff == old(tables).staff
        invariant |tables.drawers| == |old(tables).drawers|
        invariant forall i :: 0 <= i < d ==> tables.drawers[i] == AutoClosedDrawer(old(tables), i, clock)
        invariant forall i :: d <= i < |tables.drawers| ==> tables.drawers[i] == old(tables).drawers[i]
        invariant any == exists i :: 0 <= i < d && Stale(old(tables).drawers[i], clock.midnight)
      {
        var row := tables.drawers[d];
        if Stale(row, clock.midnight) {
          var expected := Expected(tables, d);
          tables :=
            tables.(drawers := tables.drawers[d := row.(closing := Some(Closing(clock.now, expected, expected, 0)))]);
          any := true;
        }
      }
      assert tables.drawers == AutoClosed(old(tables), clock).drawers;
    }

    /** The housekeeping every request but open starts with, committed on its own. */
    method AutoCloseStaleDrawers(clock: Clock)
      requires Idle()
      modifies this
      ensures Idle() && committed == AutoClosed(old(committed), clock)
    {
      var any := CloseStale(clock);
      if any {
        Commit();
      } else {
        assert tables.drawers == old(tables).drawers;
      }
    }

    /** Revenue for a surplus nobody can explain, with half of it as cost of goods. */
    method InsertUnidentifiedSale(source: SourceType, amount: nat, drawer: nat, now: int)
      modifies this`tables
      ensures tables == Post(old(tables), Entry(source, now, SurplusLines(amount, UnidentifiedSale), Some(drawer)))
    {
      var cogs := amount / 2;
      var lines := [Line(CASH_IN_DRAWER, amount, 0), Line(ORDER_REVENUE, 0, amount),
                    Line(COGS, cogs, 0), Line(INVENTORY, 0, cogs)];
      assert lines == SurplusLines(amount, UnidentifiedSale);
      var ok := InsertJournalEntry(Entry(source, now, lines, Some(drawer)));
    }

    /**
     The entry of an open: the whole opening when 1101 was empty, else the difference by its source; none without
     one.
     */
    method BookOpening(req: OpenRequest, reference: int, drawer: nat, now: int)
      modifies this`tables
      ensures tables == match OpenLines(reference, req)
                        case Some(lines) => Post(old(tables), Entry(DrawerOpen, now, lines, Some(drawer)))
                        case None => old(tables)
    {
      hide Net, Balanced;
      var delta := req.opening - reference;
      if reference == 0 {
        CreateDrawerJournalEntry(DrawerOpen, CASH_IN_DRAWER, OWNER_EQUITY, req.opening, drawer, now);
      } else if delta > 0 {
        if req.surplusSource == Some(OwnerAddedCash) {
          CreateDrawerJournalEntry(DrawerOpen, CASH_IN_DRAWER, OWNER_CASH, delta, drawer, now);
        } else if req.surplusSource == Some(UnidentifiedSale) {
          InsertUnidentifiedSale(DrawerOpen, delta, drawer, now);
        } else {
          CreateDrawerJournalEntry(DrawerOpen, CASH_IN_DRAWER, OWNER_EQUITY, delta, drawer, now);
        }
      } else if delta < 0 {
        if req.shortageSource == Some(OwnerWithdraw) {
          CreateDrawerJournalEntry(DrawerOpen, OWNER_CASH, CASH_IN_DRAWER, -delta, drawer, now);
        } else if req.shortageSource == Some(EquityLoss) {
          CreateDrawerJournalEntry(DrawerOpen, OWNER_EQUITY, CASH_IN_DRAWER, -delta, drawer, now);
        } else {
          CreateDrawerJournalEntry(DrawerOpen, OWNER_CASH, CASH_IN_DRAWER, -delta, drawer, now);
        }
      }
    }

    /** A rejected open leaves every table as it was, though it may have closed stale drawers first. */
    method OpenDrawer(req: OpenRequest, clock: Clock) returns (outcome: OpenOutcome)
      requires Idle()
      modifies this
      ensures Idle()
      ensures outcome == OpenDecision(old(committed), req, clock)
      ensures committed == if outcome.Opened? then AfterOpen(old(committed), req, clock) else old(committed)
    {
      hide OpenLines, Expected, Balance1101, Net;
      var reference := Balance1101(tables);
      var stale := LatestStale(tables.drawers, clock.midnight);
      if stale.Some? {
        var proposed := Expected(tables, stale.value);
        reference := proposed;
        if !req.carryOverConfirmed {
          return CarryOverProposal(proposed, stale.value);
        }
        var _ := CloseStale(clock);
      } else {
        assert AutoClosed(tables, clock).drawers == tables.drawers;
      }
      if Active(tables.drawers).Some? {
        Rollback();
        return AlreadyOpen;
      }
      var delta := req.opening - reference;
      if stale.None? && reference != 0 {
        if delta > 0 && !req.surplusConfirmed {
          Rollback();
          return OpenSurplusProposal(reference, req.opening, delta);
        }
        if delta < 0 && !req.shortageConfirmed {
          Rollback();
          return OpenShortageProposal(reference, req.opening, -delta);
        }
      }
      var drawer := |tables.drawers|;
      tables := tables.(drawers := tables.drawers + [Drawer(clock.now, reference, req.opening, None)]);
      BookOpening(req, reference, drawer, clock.now);
      Commit();
      return Opened(drawer);
    }

    method CashIn(amount: nat, source: CashInSource, staffName: string, clock: Clock) returns (outcome: MoveOutcome)
      requires Idle()
      modifies this
      ensures Idle()
      ensures outcome == MoveDecision(old(committed), source == FromEmployee, staffName, clock)
      ensures committed == Step(old(committed), RCashIn(amount, source, staffName), clock)
    {
      if source == FromEmployee && staffName == "" {
        return StaffNameMissing;
      }
      AutoCloseStaleDrawers(clock);
      var drawer := Active(tables.drawers);
      if drawer.None? {
        Rollback();
        return NoActiveDrawer;
      }
      var credited := OWNER_EQUITY;
      if source == FromOwner {
        credited := OWNER_CASH;
      } else if source == FromEmployee {
        credited := EnsureStaffAccount(staffName);
      }
      CreateDrawerJournalEntry(DrawerCashIn, CASH_IN_DRAWER, credited, amount, drawer.value, clock.now);
      Commit();
      return Moved(drawer.value);
    }

    method CashOut(amount: nat, destination: CashOutDestination, staffName: string, clock: Clock)
      returns (outcome: MoveOutcome)
      requires Idle()
      modifies this
      ensures Idle()
      ensures outcome == MoveDecision(old(committed), destination == ToEmployee, staffName, clock)
      ensures committed == Step(old(committed), RCashOut(amount, destination, staffName), clock)
    {
      if destination == ToEmployee && staffName == "" {
        return StaffNameMissing;
      }
      AutoCloseStaleDrawers(clock);
      var drawer := Active(tables.drawers);
      if drawer.None? {
        Rollback();
        return NoActiveDrawer;
      }
      var debited := OWNER_CASH;
      if destination == ToEmployee {
        debited := EnsureStaffAccount(staffName);
      }
      CreateDrawerJournalEntry(DrawerCashOut, debited, CASH_IN_DRAWER, amount, drawer.value, clock.now);
      Commit();
      return Moved(drawer.value);
    }

    /** The entry of a close: the discrepancy by its source; none without a discrepancy or a source. */
    method BookDiscrepancy(req: CloseRequest, discrepancy: int, drawer: nat, now: int)
      modifies this`tables
      ensures tables == match CloseLines(discrepancy, req)
                        case Some(lines) => Post(old(tables), Entry(DrawerCloseAdjust, now, lines, Some(drawer)))
                        case None => old(tables)
    {
      hide Net, Balanced;
      if discrepancy > 0 {
        if req.surplusSource == Some(OwnerAddedCash) {
          CreateDrawerJournalEntry(DrawerCloseAdjust, CASH_IN_DRAWER, OWNER_CASH, discrepancy, drawer, now);
        } else if req.surplusSource == Some(UnidentifiedSale) {
          InsertUnidentifiedSale(DrawerCloseAdjust, discrepancy, drawer, now);
        }
      } else if discrepancy < 0 {
        if req.shortageSource == Some(OwnerWithdraw) {
          CreateDrawerJournalEntry(DrawerCloseAdjust, OWNER_CASH, CASH_IN_DRAWER, -discrepancy, drawer, now);
        } else if req.shortageSource == Some(EquityLoss) {
          CreateDrawerJournalEntry(DrawerCloseAdjust, OWNER_EQUITY, CASH_IN_DRAWER, -discrepancy, drawer, now);
        }
      }
    }

    /** Closes the row first and only then decides: a proposal rolls the close back, not the auto-close. */
    method CloseDrawer(req: CloseRequest, clock: Clock) returns (outcome: CloseOutcome)
      requires Idle()
      modifies this
      ensures Idle()
      ensures outcome == CloseDecision(old(committed), req, clock)
      ensures committed == Step(old(committed), RClose(req), clock)
      ensures !outcome.Closed? ==> committed == AutoClosed(old(committed), clock)
    {
      hide CloseLines, Expected, Net;
      AutoCloseStaleDrawers(clock);
      var active := Active(tables.drawers);
      if active.None? {
        Rollback();
        return NothingOpen;
      }
      var d := active.value;
      var expected := Expected(tables, d);
      var discrepancy := req.counted - expected;
      var record := Closing(clock.now, expected, req.counted, discrepancy);
      tables := tables.(drawers := tables.drawers[d := tables.drawers[d].(closing := Some(record))]);
      if discrepancy > 0 && !req.surplusConfirmed {
        Rollback();
        return CloseSurplusProposal(expected, req.counted, discrepancy);
      }
      if discrepancy < 0 && !req.shortageConfirmed {
        Rollback();
        return CloseShortageProposal(expected, req.counted, -discrepancy);
      }
      BookDiscrepancy(req, discrepancy, d, clock.now);
      Commit();
      return Closed(d, discrepancy);
    }
  }
}
