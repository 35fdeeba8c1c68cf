/**
 What the drawer rules guarantee: over every run the ledger and the drawer never drift, a
 booked close hands the counted amount over to the next open, and nothing recorded changes.
 */
module CashDrawerProofs {
  import opened Common
  import opened Ledger
  import opened CashDrawer

  function CashOf(b: Books, d: nat, s: SourceType): int {
    DrawerCash(OfDrawerAndSource(d, s), b.entries)
  }

  /** Counted opening + cash-ins - cash-outs + what other services posted while the drawer was open. */
  function CountedFlow(b: Books, d: nat): int
    requires d < |b.drawers|
  {
    b.drawers[d].countedOpening + CashOf(b, d, DrawerCashIn) + CashOf(b, d, DrawerCashOut) + CashOf(b, d, OtherSource)
  }

  /** One drawer agrees with the journal lines that are linked to it. */
  predicate DrawerAgrees(b: Books, d: nat)
    requires d < |b.drawers|
  {
    && CashOf(b, d, DrawerOpen) == b.drawers[d].countedOpening - b.drawers[d].openingBalance
    && Expected(b, d) == CountedFlow(b, d)
    && match b.drawers[d].closing
       case None => CashOf(b, d, DrawerCloseAdjust) == 0
       case Some(c) => c.discrepancy == c.countedAmount - c.closingBalance
                       && CashOf(b, d, DrawerCloseAdjust) in {0, c.discrepancy}
  }

  ghost predicate AtMostOneOpen(b: Books) {
    forall i, j :: 0 <= i < j < |b.drawers| ==> !b.drawers[i].Open() || !b.drawers[j].Open()
  }

  ghost predicate LinksExist(b: Books) {
    forall i :: 0 <= i < |b.entries| ==> b.entries[i].drawer.Some? ==> b.entries[i].drawer.value < |b.drawers|
  }

  /** What holds whatever other services post: at most one open drawer, and each in agreement with its entries. */
  ghost predicate Sound(b: Books) {
    AllBalanced(b.entries) && LinksExist(b) && AtMostOneOpen(b)
    && forall d :: 0 <= d < |b.drawers| ==> DrawerAgrees(b, d)
  }

  /** How far the global 1101 balance has left the expected balance of the open drawer. */
  function Gap(b: Books): int {
    match Active(b.drawers)
    case Some(d) => Balance1101(b) - Expected(b, d)
    case None => 0
  }

  /** Sound, and the open drawer's expected balance is the global 1101 balance. */
  ghost predicate InStep(b: Books) {
    Sound(b) && Gap(b) == 0
  }

  lemma ActiveIs(b: Books, d: nat)
    requires AtMostOneOpen(b) && d < |b.drawers| && b.drawers[d].Open()
    ensures Active(b.drawers) == Some(d)
  {
    var a := Active(b.drawers).value;
    assert a == d;
  }

  /** An entry with the active drawer's link moves both balances alike; one without moves only the global one. */
  lemma PostingMovesGap(b: Books, e: Entry)
    requires Sound(b) && Balanced(e.lines)
    requires e.drawer.None? || (e.drawer == Active(b.drawers) && e.source in {DrawerCashIn, DrawerCashOut, OtherSource})
    ensures Sound(Post(b, e))
    ensures Balance1101(Post(b, e)) == Balance1101(b) + Net(e.lines, CASH_IN_DRAWER)
    ensures Gap(Post(b, e))
            == Gap(b) + if Active(b.drawers).Some? && e.drawer.None? then Net(e.lines, CASH_IN_DRAWER) else 0
  {
    hide DrawerAgrees, Balanced, Net, AllBalanced, LinksExist, DrawerCash;
    PostedEntries(b, e);
    DrawerCashAppend(Everything, b.entries, e);
    forall d | 0 <= d < |b.drawers|
      ensures DrawerAgrees(Post(b, e), d)
      ensures b.drawers[d].Open() ==> Expected(Post(b, e), d) == Expected(b, d) + Movement(OfDrawer(d), e)
    {
      assert DrawerAgrees(b, d);
      AgreesAfterPosting(b, e, d);
      CashAfterPosting(b, e, d);
    }
  }

  lemma PostedEntries(b: Books, e: Entry)
    requires AllBalanced(b.entries) && LinksExist(b) && Balanced(e.lines)
    requires e.drawer.Some? ==> e.drawer.value < |b.drawers|
    ensures AllBalanced(Post(b, e).entries) && LinksExist(Post(b, e))
  {
    hide Balanced;
  }

  lemma AgreesAfterPosting(b: Books, e: Entry, d: nat)
    requires d < |b.drawers| && DrawerAgrees(b, d)
    requires e.drawer.None? || (e.drawer == Active(b.drawers) && e.source in {DrawerCashIn, DrawerCashOut, OtherSource})
    ensures DrawerAgrees(Post(b, e), d)
  {
    hide Balanced, Net, DrawerCash, CashOf;
    CashAfterPosting(b, e, d);
  }

  /** A balanced entry without a link keeps the books in step exactly when no drawer is open or it leaves 1101 alone. */
  lemma UnlinkedPostingKeepsInStepIff(b: Books, e: Entry)
    requires InStep(b) && Balanced(e.lines) && e.drawer.None?
    ensures InStep(Post(b, e)) <==> Active(b.drawers).None? || Net(e.lines, CASH_IN_DRAWER) == 0
  {
    hide Sound, Balanced, Net;
    PostingMovesGap(b, e);
  }

  /** How one more entry changes every sum of one drawer. */
  lemma CashAfterPosting(b: Books, e: Entry, d: nat)
    ensures forall s :: CashOf(Post(b, e), d, s) == CashOf(b, d, s) + Movement(OfDrawerAndSource(d, s), e)
    ensures DrawerCash(OfDrawer(d), Post(b, e).entries) == DrawerCash(OfDrawer(d), b.entries) + Movement(OfDrawer(d), e)
  {
    DrawerCashAppend(OfDrawer(d), b.entries, e);
    forall s { DrawerCashAppend(OfDrawerAndSource(d, s), b.entries, e); }
  }

  /** Auto-close leaves 1101 alone; the gap goes with the drawer it closes. */
  lemma AutoCloseKeepsSound(b: Books, clock: Clock)
    requires Sound(b)
    ensures Sound(AutoClosed(b, clock))
    ensures Balance1101(AutoClosed(b, clock)) == Balance1101(b)
    ensures Gap(AutoClosed(b, clock)) == if Active(AutoClosed(b, clock).drawers).Some? then Gap(b) else 0
  {
    var r := AutoClosed(b, clock);
    forall d | 0 <= d < |r.drawers| ensures DrawerAgrees(r, d) {
      assert DrawerAgrees(b, d) && r.drawers[d] == AutoClosedDrawer(b, d, clock);
    }
    forall i, j | 0 <= i < j < |r.drawers| ensures !r.drawers[i].Open() || !r.drawers[j].Open() {
      assert r.drawers[i] == AutoClosedDrawer(b, i, clock) && r.drawers[j] == AutoClosedDrawer(b, j, clock);
    }
    if Active(r.drawers).Some? {
      ActiveIs(b, Active(r.drawers).value);
    }
  }

  /** After auto-close no stale drawer is open, each one holds its expected balance, and nothing else changed. */
  lemma NothingStaysStale(b: Books, clock: Clock)
    ensures var r := AutoClosed(b, clock);
            && LatestStale(r.drawers, clock.midnight).None? && Balance1101(r) == Balance1101(b)
            && (forall d :: 0 <= d < |b.drawers| && Stale(b.drawers[d], clock.midnight) ==>
                  && r.drawers[d].closing == Some(Closing(clock.now, Expected(b, d), Expected(b, d), 0))
                  && r.drawers[d].openedAt == b.drawers[d].openedAt && Expected(r, d) == Expected(b, d))
            && (forall d :: 0 <= d < |b.drawers| && !Stale(b.drawers[d], clock.midnight) ==>
                  r.drawers[d] == b.drawers[d])
            && AutoClosed(r, clock) == r
  {
    var r := AutoClosed(b, clock);
    forall d | 0 <= d < |b.drawers| ensures !Stale(r.drawers[d], clock.midnight) {
      assert r.drawers[d] == AutoClosedDrawer(b, d, clock);
    }
    assert AutoClosed(r, clock).drawers == r.drawers;
  }

  /** Every booking branch of open moves 1101 from the reference to the counted opening. */
  lemma OpenBooksTheDelta(reference: int, req: OpenRequest)
    ensures match OpenLines(reference, req)
            case Some(lines) => Balanced(lines) && Net(lines, CASH_IN_DRAWER) == req.opening - reference
            case None => req.opening == reference
  {
  }

  /** The reference an open starts from is the global 1101 balance, less the gap of a drawer it carries over. */
  lemma ReferenceIsGlobal(b: Books, clock: Clock)
    requires Sound(b)
    ensures OpenReference(b, clock)
            == Balance1101(b) - if LatestStale(b.drawers, clock.midnight).Some? then Gap(b) else 0
    ensures InStep(b) ==> OpenReference(b, clock) == Balance1101(b)
  {
    hide DrawerAgrees, DrawerCash;
    var stale := LatestStale(b.drawers, clock.midnight);
    if stale.Some? {
      ActiveIs(b, stale.value);
    }
  }

  /** A closed drawer is untouched by an entry linked to another drawer, or by no entry at all. */
  lemma OtherDrawerAgrees(b: Books, r: Books, e: Option<Entry>, d: nat)
    requires d < |b.drawers| && DrawerAgrees(b, d) && !b.drawers[d].Open()
    requires d < |r.drawers| && r.drawers[d] == b.drawers[d]
    requires r.entries == if e.Some? then b.entries + [e.value] else b.entries
    requires e.Some? ==> e.value.drawer != Some(d)
    ensures DrawerAgrees(r, d)
  {
    if e.Some? {
      CashAfterPosting(b, e.value, d);
      assert CashOf(r, d, DrawerOpen) == CashOf(Post(b, e.value), d, DrawerOpen);
    }
  }

  /** The drawer an open just created agrees with the journal. */
  lemma NewDrawerAgrees(b: Books, r: Books, drawer: Drawer, e: Option<Entry>)
    requires LinksExist(b) && r.drawers == b.drawers + [drawer] && drawer.Open()
    requires match e
             case None => r.entries == b.entries && drawer.countedOpening == drawer.openingBalance
             case Some(entry) => r.entries == b.entries + [entry] && entry.source == DrawerOpen
                                 && entry.drawer == Some(|b.drawers|)
                                 && Net(entry.lines, CASH_IN_DRAWER) == drawer.countedOpening - drawer.openingBalance
    ensures DrawerAgrees(r, |b.drawers|)
    ensures Expected(r, |b.drawers|) == drawer.countedOpening
    ensures Balance1101(r) == Balance1101(b) + drawer.countedOpening - drawer.openingBalance
  {
    var n := |b.drawers|;
    NoLinkNoCash(b.entries, n, OfDrawer(n));
    NoLinkNoCash(b.entries, n, OfDrawerAndSource(n, DrawerOpen));
    NoLinkNoCash(b.entries, n, OfDrawerAndSource(n, DrawerCashIn));
    NoLinkNoCash(b.entries, n, OfDrawerAndSource(n, DrawerCashOut));
    NoLinkNoCash(b.entries, n, OfDrawerAndSource(n, DrawerCloseAdjust));
    NoLinkNoCash(b.entries, n, OfDrawerAndSource(n, OtherSource));
    if e.Some? {
      DrawerCashAppend(Everything, b.entries, e.value);
      DrawerCashAppend(OfDrawer(n), b.entries, e.value);
      DrawerCashAppend(OfDrawerAndSource(n, DrawerOpen), b.entries, e.value);
      DrawerCashAppend(OfDrawerAndSource(n, DrawerCashIn), b.entries, e.value);
      DrawerCashAppend(OfDrawerAndSource(n, DrawerCashOut), b.entries, e.value);
      DrawerCashAppend(OfDrawerAndSource(n, DrawerCloseAdjust), b.entries, e.value);
      DrawerCashAppend(OfDrawerAndSource(n, OtherSource), b.entries, e.value);
    }
  }

  function OpenEntry(b: Books, req: OpenRequest, clock: Clock): Option<Entry> {
    match OpenLines(OpenReference(b, clock), req)
    case Some(lines) => Some(Entry(DrawerOpen, clock.now, lines, Some(|b.drawers|)))
    case None => None
  }

  /** An open is accepted only when auto-close leaves no drawer open; without a stale drawer there was none. */
  lemma NobodyElseOpen(b: Books, req: OpenRequest, clock: Clock)
    requires OpenDecision(b, req, clock).Opened?
    ensures Active(AutoClosed(b, clock).drawers).None?
    ensures LatestStale(b.drawers, clock.midnight).None? ==> Active(b.drawers).None? && Gap(b) == 0
  {
    if LatestStale(b.drawers, clock.midnight).None? {
      assert AutoClosed(b, clock).drawers == b.drawers;
    }
  }

  /** The books an open leaves: auto-closed, with the new drawer and its opening entry appended. */
  lemma OpenShape(b: Books, req: OpenRequest, clock: Clock)
    ensures var r, closed, e := AfterOpen(b, req, clock), AutoClosed(b, clock), OpenEntry(b, req, clock);
            && r.drawers == closed.drawers + [Drawer(clock.now, OpenReference(b, clock), req.opening, None)]
            && r.entries == (if e.Some? then b.entries + [e.value] else b.entries)
            && (match e
                case Some(entry) => entry.source == DrawerOpen && entry.drawer == Some(|b.drawers|)
                                    && Balanced(entry.lines)
                                    && Net(entry.lines, CASH_IN_DRAWER) == req.opening - OpenReference(b, clock)
                case None => req.opening == OpenReference(b, clock))
  {
    hide OpenReference, Balanced, Net, OpenLines;
    OpenBooksTheDelta(OpenReference(b, clock), req);
  }

  /** Every drawer, old or new, agrees with the journal after an open. */
  lemma OpenedAgree(b: Books, req: OpenRequest, clock: Clock, d: nat)
    requires Sound(b) && Active(AutoClosed(b, clock).drawers).None?
    requires d < |AfterOpen(b, req, clock).drawers|
    ensures DrawerAgrees(AfterOpen(b, req, clock), d)
  {
    var r, closed, e := AfterOpen(b, req, clock), AutoClosed(b, clock), OpenEntry(b, req, clock);
    OpenShape(b, req, clock);
    AutoCloseKeepsSound(b, clock);
    hide DrawerAgrees, Balance1101, Expected, OpenReference, Balanced, Net, AfterOpen, OpenEntry, AutoClosed, Gap;
    if d < |b.drawers| {
      OtherDrawerAgrees(closed, r, e, d);
    } else {
      NewDrawerAgrees(closed, r, r.drawers[|b.drawers|], e);
    }
  }

  /** After an accepted open the new drawer is the one open drawer, expects the count, and inherits the gap. */
  lemma OpenKeepsSound(b: Books, req: OpenRequest, clock: Clock)
    requires Sound(b) && OpenDecision(b, req, clock).Opened?
    ensures Sound(AfterOpen(b, req, clock))
    ensures Active(AfterOpen(b, req, clock).drawers) == Some(|b.drawers|)
    ensures Expected(AfterOpen(b, req, clock), |b.drawers|) == req.opening
    ensures Gap(AfterOpen(b, req, clock)) == Gap(b) && Balance1101(AfterOpen(b, req, clock)) == req.opening + Gap(b)
  {
    var r, closed, e := AfterOpen(b, req, clock), AutoClosed(b, clock), OpenEntry(b, req, clock);
    NobodyElseOpen(b, req, clock);
    OpenShape(b, req, clock);
    AutoCloseKeepsSound(b, clock);
    ReferenceIsGlobal(b, clock);
    hide DrawerAgrees, Expected, Balance1101, OpenReference, AfterOpen, OpenEntry, AutoClosed, Balanced, Net,
      OpenDecision, LatestStale;
    NewDrawerAgrees(closed, r, r.drawers[|b.drawers|], e);
    forall d | 0 <= d < |r.drawers| ensures DrawerAgrees(r, d) {
      OpenedAgree(b, req, clock, d);
    }
  }

  /** From books in step an accepted open ends with 1101 and the new drawer at the counted opening. */
  lemma OpenKeepsInStep(b: Books, req: OpenRequest, clock: Clock)
    requires InStep(b) && OpenDecision(b, req, clock).Opened?
    ensures InStep(AfterOpen(b, req, clock))
    ensures Active(AfterOpen(b, req, clock).drawers) == Some(|b.drawers|)
    ensures Expected(AfterOpen(b, req, clock), |b.drawers|) == Balance1101(AfterOpen(b, req, clock)) == req.opening
  {
    hide Sound, Expected, Balance1101, OpenDecision, AfterOpen;
    OpenKeepsSound(b, req, clock);
  }

  function CloseEntry(d: nat, discrepancy: int, req: CloseRequest, clock: Clock): Option<Entry> {
    match CloseLines(discrepancy, req)
    case Some(lines) => Some(Entry(DrawerCloseAdjust, clock.now, lines, Some(d)))
    case None => None
  }

  /** The drawer a close just shut agrees with the journal. */
  lemma ShutDrawerAgrees(b: Books, r: Books, d: nat, c: Closing, e: Option<Entry>)
    requires d < |b.drawers| && b.drawers[d].Open() && DrawerAgrees(b, d)
    requires c.closingBalance == Expected(b, d) && c.discrepancy == c.countedAmount - c.closingBalance
    requires d < |r.drawers| && r.drawers[d] == b.drawers[d].(closing := Some(c))
    requires match e
             case None => r.entries == b.entries
             case Some(entry) => r.entries == b.entries + [entry] && entry.source == DrawerCloseAdjust
                                 && entry.drawer == Some(d) && Net(entry.lines, CASH_IN_DRAWER) == c.discrepancy
    ensures DrawerAgrees(r, d)
  {
    if e.Some? {
      CashAfterPosting(b, e.value, d);
      assert CashOf(r, d, DrawerOpen) == CashOf(Post(b, e.value), d, DrawerOpen);
    }
  }

  lemma CloseLinesNet(discrepancy: int, req: CloseRequest)
    ensures CloseLines(discrepancy, req).Some? ==>
              Balanced(CloseLines(discrepancy, req).value)
              && Net(CloseLines(discrepancy, req).value, CASH_IN_DRAWER) == discrepancy
  {
  }

  /** The books a close leaves: auto-closed, the drawer's row closed, and the booking, if any, appended. */
  lemma CloseShape(b: Books, req: CloseRequest, d: nat, discrepancy: int, clock: Clock)
    requires d < |b.drawers|
    ensures var r, closed, e := AfterClose(b, req, d, discrepancy, clock), AutoClosed(b, clock),
                                CloseEntry(d, discrepancy, req, clock);
            && r.drawers == closed.drawers[d := closed.drawers[d].(closing :=
                 Some(Closing(clock.now, req.counted - discrepancy, req.counted, discrepancy)))]
            && r.entries == (if e.Some? then b.entries + [e.value] else b.entries)
            && (e.Some? <==> CloseLines(discrepancy, req).Some?)
            && (e.Some? ==> e.value.source == DrawerCloseAdjust && e.value.drawer == Some(d) && Balanced(e.value.lines)
                            && Net(e.value.lines, CASH_IN_DRAWER) == discrepancy)
  {
    hide Balanced, Net, CloseLines;
    CloseLinesNet(discrepancy, req);
  }

  /** Every drawer agrees with the journal after a close. */
  lemma ClosedAgree(b: Books, req: CloseRequest, d: nat, discrepancy: int, clock: Clock, i: nat)
    requires Sound(b) && d < |b.drawers| && i < |b.drawers|
    requires Active(AutoClosed(b, clock).drawers) == Some(d)
             && discrepancy == req.counted - Expected(AutoClosed(b, clock), d)
    ensures DrawerAgrees(AfterClose(b, req, d, discrepancy, clock), i)
  {
    var r, closed, e :=
      AfterClose(b, req, d, discrepancy, clock), AutoClosed(b, clock), CloseEntry(d, discrepancy, req, clock);
    CloseShape(b, req, d, discrepancy, clock);
    AutoCloseKeepsSound(b, clock);
    hide DrawerAgrees, Balance1101, Expected, Balanced, Net, AfterClose, CloseEntry, AutoClosed, Gap;
    if i == d {
      ShutDrawerAgrees(closed, r, d, r.drawers[d].closing.value, e);
    } else {
      OtherDrawerAgrees(closed, r, e, i);
    }
  }

  lemma ClosedEntries(b: Books, r: Books, d: nat, e: Option<Entry>)
    requires AllBalanced(b.entries) && LinksExist(b) && d < |b.drawers| == |r.drawers|
    requires r.entries == (if e.Some? then b.entries + [e.value] else b.entries)
    requires e.Some? ==> Balanced(e.value.lines) && e.value.drawer == Some(d)
    ensures AllBalanced(r.entries) && LinksExist(r)
  {
    hide Balanced;
  }

  /** After an accepted close 1101 has moved by what the chosen source books, and nothing is open. */
  lemma CloseKeepsSound(b: Books, req: CloseRequest, clock: Clock)
    requires Sound(b) && CloseDecision(b, req, clock).Closed?
    ensures var out := CloseDecision(b, req, clock);
            var r := AfterClose(b, req, out.drawer, out.discrepancy, clock);
            && Sound(r) && Active(r.drawers).None?
            && Balance1101(r)
               == Balance1101(b) + (if CloseLines(out.discrepancy, req).Some? then out.discrepancy else 0)
            && req.counted + Gap(b) == Balance1101(b) + out.discrepancy
  {
    var closed := AutoClosed(b, clock);
    AutoCloseKeepsSound(b, clock);
    var Closed(d, discrepancy) := CloseDecision(b, req, clock);
    assert Active(closed.drawers) == Some(d) && discrepancy == req.counted - Expected(closed, d);
    var r, e := AfterClose(b, req, d, discrepancy, clock), CloseEntry(d, discrepancy, req, clock);
    CloseShape(b, req, d, discrepancy, clock);
    hide DrawerAgrees, Expected, DrawerCash, Balanced, Net, AfterClose, CloseEntry, CloseLines, CloseDecision,
      AutoClosed, LinksExist, AllBalanced;
    ClosedEntries(closed, r, d, e);
    forall i | 0 <= i < |r.drawers| ensures DrawerAgrees(r, i) {
      ClosedAgree(b, req, d, discrepancy, clock, i);
    }
    if e.Some? {
      DrawerCashAppend(Everything, b.entries, e.value);
    }
  }

  /** What a request posts to 1101 without a drawer link. */
  function Unlinked(r: Request): int {
    if r.RPosting? && !r.linked && Balanced(r.lines) then Net(r.lines, CASH_IN_DRAWER) else 0
  }

  /** Every request keeps the books sound, and the gap grows by what is posted without a link while a drawer is open. */
  lemma StepMovesGap(b: Books, r: Request, clock: Clock)
    requires Sound(b)
    ensures Sound(Step(b, r, clock))
    ensures Gap(Step(b, r, clock)) == if Active(Step(b, r, clock).drawers).Some? then Gap(b) + Unlinked(r) else 0
  {
    hide Sound, Balance1101, Expected, Balanced, Net, OpenDecision, AfterOpen, CloseDecision, AfterClose, AutoClosed;
    AutoCloseKeepsSound(b, clock);
    match r
    case ROpen(req) =>
      if OpenDecision(b, req, clock).Opened? { OpenKeepsSound(b, req, clock); }
    case RCashIn(amount, source, name) => MoveKeepsSound(b, r, clock);
    case RCashOut(amount, destination, name) => MoveKeepsSound(b, r, clock);
    case RClose(req) =>
      if CloseDecision(b, req, clock).Closed? { CloseKeepsSound(b, req, clock); }
    case RStatus =>
    case RPosting(lines, linked) =>
      if Balanced(lines) {
        PostingMovesGap(b, Entry(OtherSource, clock.now, lines, if linked then Active(b.drawers) else None));
      }
  }

  lemma MoveKeepsSound(b: Books, r: Request, clock: Clock)
    requires Sound(b) && (r.RCashIn? || r.RCashOut?)
    ensures Sound(Step(b, r, clock))
    ensures Gap(Step(b, r, clock)) == if Active(Step(b, r, clock).drawers).Some? then Gap(b) else 0
  {
    hide Sound, Balance1101, Expected, Net, AutoClosed;
    AutoCloseKeepsSound(b, clock);
    var closed := AutoClosed(b, clock);
    if r.RCashIn? {
      var out := MoveDecision(b, r.from == FromEmployee, r.inStaff, clock);
      if out.Moved? {
        var e := Entry(DrawerCashIn, clock.now,
                       Transfer(CASH_IN_DRAWER, CashInCredit(b, r.from, r.inStaff), r.inAmount), Some(out.drawer));
        PostingMovesGap(closed, e);
        StaffIsIrrelevant(Post(closed, e), Step(b, r, clock));
      }
    } else {
      var out := MoveDecision(b, r.to == ToEmployee, r.outStaff, clock);
      if out.Moved? {
        var e := Entry(DrawerCashOut, clock.now,
                       Transfer(CashOutDebit(b, r.to, r.outStaff), CASH_IN_DRAWER, r.outAmount), Some(out.drawer));
        PostingMovesGap(closed, e);
        StaffIsIrrelevant(Post(closed, e), Step(b, r, clock));
      }
    }
  }

  lemma StaffIsIrrelevant(b: Books, r: Books)
    requires Sound(b) && r.drawers == b.drawers && r.entries == b.entries
    ensures Sound(r) && Gap(r) == Gap(b)
  {
    forall d | 0 <= d < |r.drawers| ensures DrawerAgrees(r, d) {
      assert DrawerAgrees(b, d);
    }
  }

  /** The 1101 movements posted without a link since a drawer was last not open, on top of a first gap. */
  function GapOver(b: Books, requests: seq<Timed>, gap: int): int
    decreases |requests|
  {
    if requests == [] then gap
    else
      var next := Step(b, requests[0].request, requests[0].clock);
      GapOver(next, requests[1..], if Active(next.drawers).Some? then gap + Unlinked(requests[0].request) else 0)
  }

  /**
   In every reachable state at most one drawer is open, its expected balance is the counted opening plus the
   flows linked to it, and global 1101 differs from it by exactly the unlinked postings.
   */
  lemma {:induction false} RunMovesGap(b: Books, requests: seq<Timed>)
    requires Sound(b)
    ensures Sound(Run(b, requests)) && Gap(Run(b, requests)) == GapOver(b, requests, Gap(b))
    decreases |requests|
  {
    hide Sound, Gap, Step, Unlinked;
    if requests == [] {
    } else {
      StepMovesGap(b, requests[0].request, requests[0].clock);
      RunMovesGap(Step(b, requests[0].request, requests[0].clock), requests[1..]);
    }
  }

  /** From books in step a run ends in step exactly when the unlinked postings cancel out. */
  lemma RunKeepsInStepIff(b: Books, requests: seq<Timed>)
    requires InStep(b)
    ensures InStep(Run(b, requests)) <==> GapOver(b, requests, 0) == 0
  {
    hide Sound, Gap, Run, GapOver;
    RunMovesGap(b, requests);
  }

  /** No request posts to 1101 without a link. */
  ghost predicate AllLinked(requests: seq<Timed>) {
    forall i :: 0 <= i < |requests| ==> Unlinked(requests[i].request) == 0
  }

  lemma {:induction false} LinkedRunsHaveNoGap(b: Books, requests: seq<Timed>)
    requires AllLinked(requests)
    ensures GapOver(b, requests, 0) == 0
    decreases |requests|
  {
    hide Unlinked, Step;
    if requests == [] {
    } else {
      assert forall i :: 0 <= i < |requests[1..]| ==> requests[1..][i] == requests[i + 1];
      LinkedRunsHaveNoGap(Step(b, requests[0].request, requests[0].clock), requests[1..]);
    }
  }

  /** Drawer requests and linked postings never let ledger and drawer drift. */
  lemma RunKeepsInStep(b: Books, requests: seq<Timed>)
    requires InStep(b) && AllLinked(requests)
    ensures InStep(Run(b, requests))
  {
    hide InStep, GapOver, AllLinked, Run;
    LinkedRunsHaveNoGap(b, requests);
    RunKeepsInStepIff(b, requests);
  }

  /** A cash payment of owner capital while a drawer is open moves 1101 and leaves the drawer behind. */
  lemma OwnerCapitalMovesOnly1101(b: Books, d: nat, amount: nat, clock: Clock)
    requires InStep(b) && Active(b.drawers) == Some(d)
    ensures var r := Step(b, RPosting(Transfer(CASH_IN_DRAWER, OWNER_EQUITY, amount), false), clock);
            && Active(r.drawers) == Some(d) && Expected(r, d) == Expected(b, d)
            && Balance1101(r) == Balance1101(b) + amount && Gap(r) == amount
  {
    hide Sound, DrawerCash, Net, Balanced;
    PostingMovesGap(b, Entry(OtherSource, clock.now, Transfer(CASH_IN_DRAWER, OWNER_EQUITY, amount), None));
  }

  /** Owner capital of 50 paid in as cash while a drawer with 100 is open: 1101 says 150, the drawer 100. */
  lemma OwnerCapitalDrifts()
    ensures var clock := Clock(0, 0);
            var b := Step(Books([], [], []), ROpen(OpenRequest(100, false, false, None, false, None)), clock);
            var r := Step(b, RPosting(Transfer(CASH_IN_DRAWER, OWNER_EQUITY, 50), false), clock);
            && InStep(b) && !InStep(r)
            && Active(r.drawers) == Some(0) && Expected(r, 0) == 100 && Balance1101(r) == 150
  {
    var clock, open := Clock(0, 0), OpenRequest(100, false, false, None, false, None);
    var empty := Books([], [], []);
    NothingYet(open, clock);
    var b := Step(empty, ROpen(open), clock);
    assert b == AfterOpen(empty, open, clock);
    hide Sound, OpenDecision, AfterOpen, Balance1101, Expected, Step, Transfer;
    OpenKeepsInStep(empty, open, clock);
    OwnerCapitalMovesOnly1101(b, 0, 50, clock);
  }

  lemma NothingYet(req: OpenRequest, clock: Clock)
    ensures InStep(Books([], [], [])) && OpenDecision(Books([], [], []), req, clock).Opened?
  {
  }

  // ----- day-to-day handover -----

  /** A close books its discrepancy when there is none, or when the owner named its source. */
  predicate Booked(discrepancy: int, req: CloseRequest) {
    discrepancy == 0
    || (discrepancy > 0 && req.surplusSource.Some?)
    || (discrepancy < 0 && req.shortageSource.Some?)
  }

  /** An accepted close leaves 1101 at the counted amount exactly when it books the whole gap between them. */
  lemma CloseLeavesCountIff(b: Books, req: CloseRequest, clock: Clock)
    requires Sound(b) && CloseDecision(b, req, clock).Closed?
    ensures Balance1101(Step(b, RClose(req), clock)) == req.counted
       <==> Gap(b) == if Booked(CloseDecision(b, req, clock).discrepancy, req) then 0
                      else CloseDecision(b, req, clock).discrepancy
    ensures InStep(Step(b, RClose(req), clock))
  {
    hide Sound, Balance1101, CloseDecision, AfterClose;
    CloseKeepsSound(b, req, clock);
  }

  /** From books in step that is exactly when the discrepancy is booked. */
  lemma CloseLeavesCountIffBooked(b: Books, req: CloseRequest, clock: Clock)
    requires InStep(b) && CloseDecision(b, req, clock).Closed?
    ensures Balance1101(Step(b, RClose(req), clock)) == req.counted
       <==> Booked(CloseDecision(b, req, clock).discrepancy, req)
  {
    hide Sound, Balance1101, CloseDecision, AfterClose, Step;
    CloseLeavesCountIff(b, req, clock);
  }

  /** Every same-day close that confirms a surplus without naming its source is accepted and moves nothing. */
  lemma UnsourcedSurplusDrifts(b: Books, d: nat, req: CloseRequest, clock: Clock)
    requires InStep(b) && Active(b.drawers) == Some(d)
    requires forall i :: 0 <= i < |b.drawers| ==> !Stale(b.drawers[i], clock.midnight)
    requires req.counted > Balance1101(b) && req.surplusConfirmed && req.surplusSource.None?
    ensures CloseDecision(b, req, clock) == Closed(d, req.counted - Balance1101(b))
    ensures Balance1101(Step(b, RClose(req), clock)) == Balance1101(b)
  {
    hide Sound, Balance1101, DrawerCash;
    assert AutoClosed(b, clock).drawers == b.drawers;
    CloseKeepsSound(b, req, clock);
  }

  /** Opened with 100 and closed at 150: the books stay at 100. */
  lemma UnsourcedCloseDrifts()
    ensures var clock := Clock(0, 0);
            var b := Step(Books([], [], []), ROpen(OpenRequest(100, false, false, None, false, None)), clock);
            var req := CloseRequest(150, true, None, false, None);
            CloseDecision(b, req, clock) == Closed(0, 50) && Balance1101(Step(b, RClose(req), clock)) == 100
  {
    var clock, open := Clock(0, 0), OpenRequest(100, false, false, None, false, None);
    NothingYet(open, clock);
    hide InStep, OpenDecision, AfterOpen, Balance1101, Expected, CloseDecision, AfterClose;
    var empty := Books([], [], []);
    var b := Step(empty, ROpen(open), clock);
    OpenKeepsInStep(empty, open, clock);
    OpenedNow(empty, open, clock);
    UnsourcedSurplusDrifts(b, 0, CloseRequest(150, true, None, false, None), clock);
  }

  /** Right after an open no drawer is stale. */
  lemma OpenedNow(b: Books, req: OpenRequest, clock: Clock)
    requires clock.midnight <= clock.now
    ensures forall i :: 0 <= i < |AfterOpen(b, req, clock).drawers| ==>
              !Stale(AfterOpen(b, req, clock).drawers[i], clock.midnight)
  {
    hide OpenLines, OpenReference, Expected;
    var closed := AutoClosed(b, clock);
    assert forall i :: 0 <= i < |b.drawers| ==> closed.drawers[i] == AutoClosedDrawer(b, i, clock);
  }

  /** One business day: an open, whatever happens next, and a close. */
  datatype Day = Day(open: OpenRequest, openClock: Clock, moves: seq<Timed>, close: CloseRequest, closeClock: Clock)

  function Opening(b: Books, day: Day): Books {
    Step(b, ROpen(day.open), day.openClock)
  }

  function BeforeClose(b: Books, day: Day): Books {
    Run(Opening(b, day), day.moves)
  }

  /** The day's open is accepted and so is its close, which is booked and leaves `r`. */
  predicate HandsOver(b: Books, day: Day, r: Books) {
    && OpenDecision(b, day.open, day.openClock).Opened?
    && var out := CloseDecision(BeforeClose(b, day), day.close, day.closeClock);
    && out.Closed? && Booked(out.discrepancy, day.close)
    && r == Step(BeforeClose(b, day), RClose(day.close), day.closeClock)
  }

  /** What opening the day books on 1101. */
  function OpeningMovement(b: Books, day: Day): int {
    Balance1101(Opening(b, day)) - Balance1101(b)
  }

  /** What the day posted to 1101 without a drawer link. */
  function DayGap(b: Books, day: Day): int {
    GapOver(Opening(b, day), day.moves, 0)
  }

  /** The open books opening minus 1101, and the close leaves 1101 at the count plus what was posted without a link. */
  lemma DayHandsOver(b: Books, day: Day, r: Books)
    requires InStep(b) && HandsOver(b, day, r)
    ensures InStep(r) && Balance1101(r) == day.close.counted + DayGap(b, day)
    ensures OpeningMovement(b, day) == day.open.opening - Balance1101(b)
    ensures AllLinked(day.moves) ==> DayGap(b, day) == 0
  {
    var before := BeforeClose(b, day);
    hide Sound, Balance1101, Expected, OpenDecision, AfterOpen, CloseDecision, AfterClose, Run, GapOver, AllLinked;
    OpenKeepsInStep(b, day.open, day.openClock);
    RunMovesGap(Opening(b, day), day.moves);
    CloseKeepsSound(before, day.close, day.closeClock);
    if AllLinked(day.moves) {
      LinkedRunsHaveNoGap(Opening(b, day), day.moves);
    }
  }

  /** `trace[i]` are the books the i-th day starts from; every day hands over to the next. */
  ghost predicate Chain(trace: seq<Books>, days: seq<Day>) {
    |trace| == |days| + 1 && forall i :: 0 <= i < |days| ==> HandsOver(trace[i], days[i], trace[i + 1])
  }

  /**
   Over any chain of days that hand over, 1101 ends each day at the count plus what that day posted without a
   link, and from the second day on each open books exactly the new opening minus what the day before left,
   so with linked postings only the chain telescopes from count to count.
   */
  lemma {:induction false} DaysTelescope(trace: seq<Books>, days: seq<Day>, i: nat)
    requires Chain(trace, days) && InStep(trace[0]) && i < |days|
    ensures InStep(trace[i]) && InStep(trace[i + 1])
    ensures Balance1101(trace[i + 1]) == days[i].close.counted + DayGap(trace[i], days[i])
    ensures i > 0 ==>
              OpeningMovement(trace[i], days[i])
              == days[i].open.opening - days[i - 1].close.counted - DayGap(trace[i - 1], days[i - 1])
    ensures AllLinked(days[i].moves) ==> DayGap(trace[i], days[i]) == 0
  {
    hide InStep, HandsOver, DayGap, OpeningMovement, AllLinked, Balance1101;
    if i == 0 {
    } else {
      DaysTelescope(trace, days, i - 1);
    }
    assert OpeningMovement(trace[i], days[i]) == days[i].open.opening - Balance1101(trace[i]) by {
      DayHandsOver(trace[i], days[i], trace[i + 1]);
    }
    DayHandsOver(trace[i], days[i], trace[i + 1]);
  }

  // ----- nothing recorded changes -----

  /** `r` only adds to `b`: journal and staff accounts grow at the end, closed drawers keep their record. */
  ghost predicate Extends(b: Books, r: Books) {
    && b.entries <= r.entries && b.staff <= r.staff && |b.drawers| <= |r.drawers|
    && forall d :: 0 <= d < |b.drawers| ==>
         r.drawers[d] == b.drawers[d] || (b.drawers[d].Open() && r.drawers[d].(closing := None) == b.drawers[d])
  }

  lemma StepExtends(b: Books, r: Request, clock: Clock)
    ensures Extends(b, Step(b, r, clock))
  {
    forall d | 0 <= d < |b.drawers|
      ensures Step(b, r, clock).drawers[d] == b.drawers[d]
           || (b.drawers[d].Open() && Step(b, r, clock).drawers[d].(closing := None) == b.drawers[d])
    {
      assert AutoClosed(b, clock).drawers[d] == AutoClosedDrawer(b, d, clock);
    }
  }

  /** Over any run the journal is append-only and a closed drawer's record is final. */
  lemma {:induction false} RunExtends(b: Books, requests: seq<Timed>)
    ensures Extends(b, Run(b, requests))
    decreases |requests|
  {
    if requests == [] {
    } else {
      var next := Step(b, requests[0].request, requests[0].clock);
      StepExtends(b, requests[0].request, requests[0].clock);
      RunExtends(next, requests[1..]);
      var r := Run(b, requests);
      assert forall i :: 0 <= i < |b.entries| ==> b.entries[i] == next.entries[i] == r.entries[i];
      assert forall i :: 0 <= i < |b.staff| ==> b.staff[i] == next.staff[i] == r.staff[i];
    }
  }

  // ----- who is answered what -----

  /** Some drawer of an earlier day is still open. */
  ghost predicate AnyStale(b: Books, clock: Clock) {
    exists d :: 0 <= d < |b.drawers| && Stale(b.drawers[d], clock.midnight)
  }

  /** The last of the open drawers of earlier days, by opening time and then by id. */
  ghost predicate IsLatestStale(b: Books, d: nat, clock: Clock) {
    && d < |b.drawers| && Stale(b.drawers[d], clock.midnight)
    && forall i :: 0 <= i < |b.drawers| && Stale(b.drawers[i], clock.midnight) ==>
         b.drawers[i].openedAt < b.drawers[d].openedAt || (b.drawers[i].openedAt == b.drawers[d].openedAt && i <= d)
  }

  /** Some drawer of the current day is open. */
  ghost predicate AnyOfToday(b: Books, clock: Clock) {
    exists d :: 0 <= d < |b.drawers| && b.drawers[d].closing.None? && b.drawers[d].openedAt >= clock.midnight
  }

  /** What a drawer of an earlier day is closed at, or what a drawer of today should hold. */
  lemma ActiveOfToday(b: Books, clock: Clock)
    ensures Active(AutoClosed(b, clock).drawers).Some? <==> AnyOfToday(b, clock)
    ensures var active := Active(AutoClosed(b, clock).drawers);
            active.Some? ==> active.value < |b.drawers| && b.drawers[active.value].closing.None?
                             && b.drawers[active.value].openedAt >= clock.midnight
                             && Expected(AutoClosed(b, clock), active.value) == Expected(b, active.value)
  {
    var closed := AutoClosed(b, clock);
    assert forall d :: 0 <= d < |b.drawers| ==> closed.drawers[d] == AutoClosedDrawer(b, d, clock);
    if AnyOfToday(b, clock) {
      var d :| 0 <= d < |b.drawers| && b.drawers[d].closing.None? && b.drawers[d].openedAt >= clock.midnight;
      assert closed.drawers[d].Open();
    }
  }

  /**
   An open is answered with a carry-over proposal until a drawer of an earlier day is confirmed, is refused while
   a drawer of today is open, and is otherwise accepted exactly when it carries over, 1101 is empty or equal to
   the count, or the difference is confirmed.
   */
  lemma OpenAnswer(b: Books, req: OpenRequest, clock: Clock)
    ensures var out, delta := OpenDecision(b, req, clock), req.opening - Balance1101(b);
            && (out.CarryOverProposal? <==> AnyStale(b, clock) && !req.carryOverConfirmed)
            && (out.AlreadyOpen? <==> (AnyStale(b, clock) ==> req.carryOverConfirmed) && AnyOfToday(b, clock))
            && (out.OpenSurplusProposal? <==>
                  !AnyStale(b, clock) && !AnyOfToday(b, clock) && Balance1101(b) != 0
                  && delta > 0 && !req.surplusConfirmed)
            && (out.OpenShortageProposal? <==>
                  !AnyStale(b, clock) && !AnyOfToday(b, clock) && Balance1101(b) != 0
                  && delta < 0 && !req.shortageConfirmed)
            && (out.Opened? <==>
                  (AnyStale(b, clock) ==> req.carryOverConfirmed) && !AnyOfToday(b, clock)
                  && (AnyStale(b, clock) || Balance1101(b) == 0 || delta == 0
                      || (if delta > 0 then req.surplusConfirmed else req.shortageConfirmed)))
  {
    hide Balance1101, Expected, AutoClosed;
    ActiveOfToday(b, clock);
  }

  /** The figures a proposal shows. */
  lemma OpenProposals(b: Books, req: OpenRequest, clock: Clock)
    ensures match OpenDecision(b, req, clock)
            case CarryOverProposal(amount, from) =>
              from < |b.drawers| && Stale(b.drawers[from], clock.midnight) && amount == Expected(b, from)
              && forall d :: 0 <= d < |b.drawers| && Stale(b.drawers[d], clock.midnight) ==>
                   b.drawers[d].openedAt <= b.drawers[from].openedAt
            case OpenSurplusProposal(reference, opening, surplus) =>
              reference == Balance1101(b) && opening == req.opening && surplus == opening - reference > 0
            case OpenShortageProposal(reference, opening, shortage) =>
              reference == Balance1101(b) && opening == req.opening && shortage == reference - opening > 0
            case Opened(drawer) => drawer == |b.drawers|
            case AlreadyOpen => true
  {
    hide Balance1101, Expected, AutoClosed;
  }

  /** A close needs a drawer of today, and an accepted one has no difference or a confirmed one. */
  lemma CloseAnswer(b: Books, req: CloseRequest, clock: Clock)
    ensures var out := CloseDecision(b, req, clock);
            && (out.NothingOpen? <==> !AnyOfToday(b, clock))
            && (out.Closed? ==>
                  && out.drawer < |b.drawers| && b.drawers[out.drawer].closing.None?
                  && b.drawers[out.drawer].openedAt >= clock.midnight
                  && out.discrepancy == req.counted - Expected(b, out.drawer)
                  && (out.discrepancy > 0 ==> req.surplusConfirmed) && (out.discrepancy < 0 ==> req.shortageConfirmed))
            && (out.CloseSurplusProposal? ==>
                  out.counted == req.counted && out.surplus == out.counted - out.expected > 0 && !req.surplusConfirmed)
            && (out.CloseShortageProposal? ==>
                  out.counted == req.counted && out.shortage == out.expected - out.counted > 0
                  && !req.shortageConfirmed)
  {
    hide Expected, AutoClosed;
    ActiveOfToday(b, clock);
  }

  /** A close that is not accepted shows what the one drawer of today should hold. */
  lemma CloseProposals(b: Books, req: CloseRequest, clock: Clock)
    requires AtMostOneOpen(b)
    ensures var out := CloseDecision(b, req, clock);
            forall d :: 0 <= d < |b.drawers| && b.drawers[d].closing.None?
                        && b.drawers[d].openedAt >= clock.midnight ==>
              && (out.CloseSurplusProposal? ==> out.expected == Expected(b, d))
              && (out.CloseShortageProposal? ==> out.expected == Expected(b, d))
              && (out.Closed? ==> out.drawer == d)
  {
    hide Expected, AutoClosed;
    ActiveOfToday(b, clock);
  }

  /** Cash moves are refused for a missing name first, then for want of a drawer of today. */
  lemma MoveAnswer(b: Books, needsStaff: bool, staffName: string, clock: Clock)
    ensures var out := MoveDecision(b, needsStaff, staffName, clock);
            && (out.StaffNameMissing? <==> needsStaff && staffName == "")
            && (out.NoActiveDrawer? <==> !(needsStaff && staffName == "") && !AnyOfToday(b, clock))
            && (out.Moved? ==> out.drawer < |b.drawers| && b.drawers[out.drawer].closing.None?
                               && b.drawers[out.drawer].openedAt >= clock.midnight)
  {
    hide Expected, AutoClosed;
    ActiveOfToday(b, clock);
  }

  // ----- which accounts a request moves -----

  /** The lines move exactly these amounts, account by account. */
  ghost predicate Moves(lines: seq<Line>, amounts: map<Account, int>) {
    forall a :: Net(lines, a) == if a in amounts then amounts[a] else 0
  }

  lemma TransferMoves(debited: Account, credited: Account, amount: int)
    requires debited != credited
    ensures Moves(Transfer(debited, credited, amount), map[debited := amount, credited := -amount])
  {
  }

  /** Where a surplus comes from. */
  lemma SurplusMoves(amount: int, source: SurplusSource)
    requires amount >= 0
    ensures Moves(SurplusLines(amount, source),
                  match source
                  case OwnerAddedCash => map[Chart(1101) := amount, Chart(1102) := -amount]
                  case UnidentifiedSale => map[Chart(1101) := amount, Chart(4100) := -amount,
                                               Chart(5900) := amount / 2, Chart(1300) := -(amount / 2)])
  {
    var sale, cost := Transfer(CASH_IN_DRAWER, ORDER_REVENUE, amount), Transfer(COGS, INVENTORY, amount / 2);
    forall a ensures Net(sale + cost, a) == Net(sale, a) + Net(cost, a) {
      LinesConcat(sale, cost, a);
    }
  }

  /** Where a shortage goes. */
  lemma ShortageMoves(amount: int, source: ShortageSource)
    ensures Moves(ShortageLines(amount, source),
                  match source
                  case OwnerWithdraw => map[Chart(1101) := -amount, Chart(1102) := amount]
                  case EquityLoss => map[Chart(1101) := -amount, Chart(3100) := amount])
  {
  }

  /**
   `r` has one more entry than `b`, of this instant and the given kind and drawer, that moves exactly these
   amounts.
   */
  ghost predicate OneMore(b: Books, r: Books, clock: Clock, source: SourceType, d: nat, amounts: map<Account, int>) {
    && |r.entries| == |b.entries| + 1 && b.entries <= r.entries
    && var e := r.entries[|b.entries|];
       e.date == clock.now && e.source == source && e.drawer == Some(d) && Moves(e.lines, amounts)
  }

  /**
   What an accepted open books, by what the new drawer starts from: the whole count against equity when 1101 was
   empty, nothing without a difference, a surplus against the owner's cash, as an unexplained sale or against
   equity, a shortage against the owner's cash or equity.
   */
  lemma OpenBooksBySource(b: Books, req: OpenRequest, clock: Clock)
    requires OpenDecision(b, req, clock).Opened?
    ensures var r, n := Step(b, ROpen(req), clock), |b.drawers|;
            && |r.drawers| == n + 1 && r.drawers[n].countedOpening == req.opening && r.drawers[n].openedAt == clock.now
            && var reference, delta := r.drawers[n].openingBalance, req.opening - r.drawers[n].openingBalance;
            && (!AnyStale(b, clock) ==> reference == Balance1101(b))
            && (forall d :: IsLatestStale(b, d, clock) ==> reference == Expected(b, d))
            && (reference == 0 ==>
                  OneMore(b, r, clock, DrawerOpen, n, map[Chart(1101) := delta, Chart(3100) := -delta]))
            && (reference != 0 && delta == 0 ==> r.entries == b.entries)
            && (reference != 0 && delta > 0 ==>
                  match req.surplusSource
                  case Some(OwnerAddedCash) => OneMore(b, r, clock, DrawerOpen, n,
                                                       map[Chart(1101) := delta, Chart(1102) := -delta])
                  case Some(UnidentifiedSale) =>
                    OneMore(b, r, clock, DrawerOpen, n, map[Chart(1101) := delta, Chart(4100) := -delta,
                                                    Chart(5900) := delta / 2, Chart(1300) := -(delta / 2)])
                  case None => OneMore(b, r, clock, DrawerOpen, n, map[Chart(1101) := delta, Chart(3100) := -delta]))
            && (reference != 0 && delta < 0 ==>
                  if req.shortageSource == Some(EquityLoss)
                  then OneMore(b, r, clock, DrawerOpen, n, map[Chart(1101) := delta, Chart(3100) := -delta])
                  else OneMore(b, r, clock, DrawerOpen, n, map[Chart(1101) := delta, Chart(1102) := -delta]))
  {
    hide OpenDecision, AutoClosed, Net, Balanced, Transfer, SurplusLines, Expected, Balance1101;
    var reference, delta := OpenReference(b, clock), req.opening - OpenReference(b, clock);
    TransferMoves(Chart(1101), Chart(3100), delta);
    if delta > 0 {
      SurplusMoves(delta, OwnerAddedCash);
      SurplusMoves(delta, UnidentifiedSale);
    }
    ShortageMoves(-delta, OwnerWithdraw);
    ShortageMoves(-delta, EquityLoss);
  }

  /**
   What an accepted close books: nothing without a difference or a source, else the source of a surplus or the
   use of a shortage.
   */
  lemma CloseBooksBySource(b: Books, req: CloseRequest, clock: Clock)
    requires CloseDecision(b, req, clock).Closed?
    ensures var r, out := Step(b, RClose(req), clock), CloseDecision(b, req, clock);
            var d, delta := out.drawer, out.discrepancy;
            && d < |b.drawers| == |r.drawers|
            && r.drawers[d].closing
               == Some(Closing(clock.now, Expected(b, d), req.counted, req.counted - Expected(b, d)))
            && (delta == 0 ==> r.entries == b.entries)
            && (delta > 0 ==>
                  match req.surplusSource
                  case Some(OwnerAddedCash) =>
                    OneMore(b, r, clock, DrawerCloseAdjust, d, map[Chart(1101) := delta, Chart(1102) := -delta])
                  case Some(UnidentifiedSale) =>
                    OneMore(b, r, clock, DrawerCloseAdjust, d, map[Chart(1101) := delta, Chart(4100) := -delta,
                                                           Chart(5900) := delta / 2, Chart(1300) := -(delta / 2)])
                  case None => r.entries == b.entries)
            && (delta < 0 ==>
                  match req.shortageSource
                  case Some(OwnerWithdraw) =>
                    OneMore(b, r, clock, DrawerCloseAdjust, d, map[Chart(1101) := delta, Chart(1102) := -delta])
                  case Some(EquityLoss) =>
                    OneMore(b, r, clock, DrawerCloseAdjust, d, map[Chart(1101) := delta, Chart(3100) := -delta])
                  case None => r.entries == b.entries)
  {
    hide Expected, AutoClosed, Net, Balanced, Transfer, SurplusLines, ShortageLines;
    ActiveOfToday(b, clock);
    var delta := CloseDecision(b, req, clock).discrepancy;
    if delta > 0 {
      SurplusMoves(delta, OwnerAddedCash);
      SurplusMoves(delta, UnidentifiedSale);
    }
    ShortageMoves(-delta, OwnerWithdraw);
    ShortageMoves(-delta, EquityLoss);
  }

  /** An accepted cash-in debits the drawer and credits the owner's cash, equity or the named employee's account. */
  lemma CashInBooksBySource(b: Books, amount: int, from: CashInSource, name: string, clock: Clock)
    requires amount >= 0 && MoveDecision(b, from == FromEmployee, name, clock).Moved?
    ensures var r, d :=
      Step(b, RCashIn(amount, from, name), clock), MoveDecision(b, from == FromEmployee, name, clock).drawer;
            match from
            case FromOwner => r.staff == b.staff
                              && OneMore(b, r, clock, DrawerCashIn, d,
                                         map[Chart(1101) := amount, Chart(1102) := -amount])
            case FromEquity => r.staff == b.staff
                               && OneMore(b, r, clock, DrawerCashIn, d,
                                          map[Chart(1101) := amount, Chart(3100) := -amount])
            case FromEmployee =>
              b.staff <= r.staff
              && exists n: nat :: n < |r.staff| && r.staff[n] == name
                                  && OneMore(b, r, clock, DrawerCashIn, d,
                                             map[Chart(1101) := amount, StaffSub(n) := -amount])
  {
    hide Expected, Net, Balanced, Transfer;
    TransferMoves(Chart(1101), Chart(1102), amount);
    TransferMoves(Chart(1101), Chart(3100), amount);
    var n := IndexOf(b.staff, name);
    TransferMoves(Chart(1101), StaffSub(n), amount);
  }

  /** An accepted cash-out credits the drawer and debits the owner's cash or the named employee's account. */
  lemma CashOutBooksBySource(b: Books, amount: int, to: CashOutDestination, name: string, clock: Clock)
    requires amount >= 0 && MoveDecision(b, to == ToEmployee, name, clock).Moved?
    ensures var r, d :=
      Step(b, RCashOut(amount, to, name), clock), MoveDecision(b, to == ToEmployee, name, clock).drawer;
            match to
            case ToOwner => r.staff == b.staff
                            && OneMore(b, r, clock, DrawerCashOut, d,
                                       map[Chart(1101) := -amount, Chart(1102) := amount])
            case ToEmployee =>
              b.staff <= r.staff
              && exists n: nat :: n < |r.staff| && r.staff[n] == name
                                  && OneMore(b, r, clock, DrawerCashOut, d,
                                             map[Chart(1101) := -amount, StaffSub(n) := amount])
  {
    hide Expected, Net, Balanced, Transfer;
    TransferMoves(Chart(1102), Chart(1101), amount);
    var n := IndexOf(b.staff, name);
    TransferMoves(StaffSub(n), Chart(1101), amount);
  }

  /** A refused request books nothing; unless it is an open or lacks a name, the housekeeping of the day is done. */
  lemma RefusedRequests(b: Books, r: Request, clock: Clock)
    ensures match r
            case ROpen(req) => !OpenDecision(b, req, clock).Opened? ==> Step(b, r, clock) == b
            case RClose(req) => !CloseDecision(b, req, clock).Closed? ==> Step(b, r, clock) == AutoClosed(b, clock)
            case RCashIn(_, from, name) =>
              if from == FromEmployee && name == "" then Step(b, r, clock) == b
              else !AnyOfToday(b, clock) ==> Step(b, r, clock) == AutoClosed(b, clock)
            case RCashOut(_, to, name) =>
              if to == ToEmployee && name == "" then Step(b, r, clock) == b
              else !AnyOfToday(b, clock) ==> Step(b, r, clock) == AutoClosed(b, clock)
            case RStatus => Step(b, r, clock) == AutoClosed(b, clock)
            case RPosting(lines, linked) =>
              if Debits(lines) != Credits(lines) then Step(b, r, clock) == b
              else Step(b, r, clock).entries
                   == b.entries + [Entry(OtherSource, clock.now, lines, if linked then Active(b.drawers) else None)]
  {
    hide AutoClosed, Expected;
    ActiveOfToday(b, clock);
  }
}
