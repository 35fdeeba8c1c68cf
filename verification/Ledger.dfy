/**
 The double-entry journal: entries of debit/credit lines, optionally linked to one cash
 drawer, and the sums the application reads back from them. Amounts are whole VND.
 */
module Ledger {
  import opened Common

  /** A row of the chart of accounts: a seeded four-digit code, or the n-th staff sub-account of 2300. */
  datatype Account = Chart(code: nat) | StaffSub(index: nat)

  const CASH_IN_DRAWER := Chart(1101)
  const OWNER_CASH := Chart(1102)
  const INVENTORY := Chart(1300)
  const OWNER_EQUITY := Chart(3100)
  const ORDER_REVENUE := Chart(4100)
  const COGS := Chart(5900)

  datatype Line = Line(account: Account, debit: int, credit: int)

  datatype SourceType = DrawerOpen | DrawerCashIn | DrawerCashOut | DrawerCloseAdjust | OtherSource

  datatype Entry = Entry(source: SourceType, date: int, lines: seq<Line>, drawer: Option<nat>)

  function Debits(lines: seq<Line>): int {
    if lines == [] then 0 else lines[0].debit + Debits(lines[1..])
  }

  function Credits(lines: seq<Line>): int {
    if lines == [] then 0 else lines[0].credit + Credits(lines[1..])
  }

  /** What `_insert_journal_entry` insists on before it writes anything. */
  predicate Balanced(lines: seq<Line>) {
    Debits(lines) == Credits(lines)
  }

  /** Debit minus credit that the lines put on one account. */
  function Net(lines: seq<Line>, account: Account): int {
    if lines == [] then 0
    else (if lines[0].account == account then lines[0].debit - lines[0].credit else 0) + Net(lines[1..], account)
  }

  lemma OneLine(line: Line, account: Account)
    ensures Debits([line]) == line.debit && Credits([line]) == line.credit
    ensures Net([line], account) == if line.account == account then line.debit - line.credit else 0
  {
    assert [line][1..] == [];
  }

  lemma TwoLines(first: Line, second: Line, account: Account)
    ensures Debits([first, second]) == first.debit + second.debit
    ensures Credits([first, second]) == first.credit + second.credit
    ensures Net([first, second], account)
         == (if first.account == account then first.debit - first.credit else 0)
          + (if second.account == account then second.debit - second.credit else 0)
  {
    OneLine(second, account);
    assert [first, second][1..] == [second];
  }

  lemma {:induction false} LinesConcat(a: seq<Line>, b: seq<Line>, account: Account)
    ensures Debits(a + b) == Debits(a) + Debits(b)
    ensures Credits(a + b) == Credits(a) + Credits(b)
    ensures Net(a + b, account) == Net(a, account) + Net(b, account)
  {
    if a == [] {
      assert a + b == b;
    } else {
      assert (a + b)[1..] == a[1..] + b;
      LinesConcat(a[1..], b, account);
    }
  }

  /** A two-line entry moving `amount` from the credited to the debited account. */
  function Transfer(debited: Account, credited: Account, amount: int): (lines: seq<Line>)
    ensures Balanced(lines)
    ensures debited != credited ==> Net(lines, debited) == amount && Net(lines, credited) == -amount
    ensures forall a :: a != debited && a != credited ==> Net(lines, a) == 0
  {
    var dr, cr := Line(debited, amount, 0), Line(credited, 0, amount);
    assert forall a :: Net([dr, cr], a)
                       == (if a == debited then amount else 0) - (if a == credited then amount else 0) by {
      forall a
        ensures Net([dr, cr], a) == (if a == debited then amount else 0) - (if a == credited then amount else 0) {
        TwoLines(dr, cr, a);
      }
    }
    TwoLines(dr, cr, debited);
    [dr, cr]
  }

  /** Which entries a balance query adds up. */
  datatype Selector = Everything | OfDrawer(drawer: nat) | OfDrawerAndSource(drawer: nat, source: SourceType)

  predicate Selects(sel: Selector, e: Entry) {
    match sel
    case Everything => true
    case OfDrawer(d) => e.drawer == Some(d)
    case OfDrawerAndSource(d, s) => e.drawer == Some(d) && e.source == s
  }

  /** The movement a selected entry makes on 1101, cash in the drawer. */
  function Movement(sel: Selector, e: Entry): int {
    if Selects(sel, e) then Net(e.lines, CASH_IN_DRAWER) else 0
  }

  /** The 1101 balance over the selected entries. */
  function DrawerCash(sel: Selector, entries: seq<Entry>): int {
    if entries == [] then 0
    else DrawerCash(sel, entries[..|entries| - 1]) + Movement(sel, entries[|entries| - 1])
  }

  lemma DrawerCashAppend(sel: Selector, entries: seq<Entry>, e: Entry)
    ensures DrawerCash(sel, entries + [e]) == DrawerCash(sel, entries) + Movement(sel, e)
  {
    assert (entries + [e])[..|entries|] == entries;
  }

  ghost predicate AllBalanced(entries: seq<Entry>) {
    forall i :: 0 <= i < |entries| ==> Balanced(entries[i].lines)
  }

  /** Every entry of a drawer has one of the five sources, so its cash is the sum over them. */
  lemma {:induction false} DrawerCashBySource(entries: seq<Entry>, d: nat)
    ensures DrawerCash(OfDrawer(d), entries)
         == DrawerCash(OfDrawerAndSource(d, DrawerOpen), entries)
          + DrawerCash(OfDrawerAndSource(d, DrawerCashIn), entries)
          + DrawerCash(OfDrawerAndSource(d, DrawerCashOut), entries)
          + DrawerCash(OfDrawerAndSource(d, DrawerCloseAdjust), entries)
          + DrawerCash(OfDrawerAndSource(d, OtherSource), entries)
  {
    if entries == [] {
    } else {
      DrawerCashBySource(entries[..|entries| - 1], d);
    }
  }

  /** A drawer no entry is linked to has no cash movements of any kind. */
  lemma {:induction false} NoLinkNoCash(entries: seq<Entry>, d: nat, sel: Selector)
    requires forall i :: 0 <= i < |entries| ==> entries[i].drawer != Some(d)
    requires sel == OfDrawer(d) || (sel.OfDrawerAndSource? && sel.drawer == d)
    ensures DrawerCash(sel, entries) == 0
  {
    if entries == [] {
    } else {
      NoLinkNoCash(entries[..|entries| - 1], d, sel);
    }
  }
}
