/**
 The income statement and the balance sheet over the same journal: two commands that add the lines up
 along different paths, tied together by double entry.
 */
module Reports {
  import opened Common
  import opened Ledger

  datatype Kind = Asset | Liability | Equity | Income | Expense

  /** A row of the accounts table. */
  datatype AccountRow = AccountRow(account: Account, kind: Kind, active: bool)

  datatype Period = Period(since: Option<int>, until: Option<int>)

  predicate InPeriod(e: Entry, p: Period) {
    (p.since.None? || p.since.value <= e.date) && (p.until.None? || e.date <= p.until.value)
  }

  /** Entries dated on the first or the last day of a period are in it. */
  lemma PeriodIsInclusive(e: Entry, since: int, until: int)
    ensures InPeriod(e, Period(Some(since), Some(until))) <==> since <= e.date <= until
    ensures InPeriod(e, Period(None, Some(until))) <==> e.date <= until
    ensures InPeriod(e, Period(Some(since), None)) <==> since <= e.date
    ensures InPeriod(e, Period(None, None))
  {
  }

  function BalanceForType(kind: Kind, debit: int, credit: int): int {
    if kind == Asset || kind == Expense then debit - credit else credit - debit
  }

  /** Account rows are unique, and every journal line points at one of them. */
  ghost predicate ChartCovers(chart: seq<AccountRow>, entries: seq<Entry>) {
    && DistinctAccounts(chart)
    && forall i :: 0 <= i < |entries| ==> Known(chart, entries[i].lines)
  }

  predicate DistinctAccounts(chart: seq<AccountRow>) {
    forall i, j :: 0 <= i < j < |chart| ==> chart[i].account != chart[j].account
  }

  predicate Known(chart: seq<AccountRow>, lines: seq<Line>) {
    forall j :: 0 <= j < |lines| ==> exists r :: r in chart && r.account == lines[j].account
  }

  // ----- sums along the chart -----

  /** Which account rows a sum runs over. */
  datatype Pick = AllAccounts | OfKind(kind: Kind) | ActiveOf(kind: Kind) | InactiveRealAccounts

  predicate Picks(pick: Pick, r: AccountRow) {
    match pick
    case AllAccounts => true
    case OfKind(kind) => r.kind == kind
    case ActiveOf(kind) => r.kind == kind && r.active
    case InactiveRealAccounts => !r.active && r.kind in {Asset, Liability, Equity}
  }

  /** Debit minus credit of one account over the entries in the period. */
  function AccountNet(entries: seq<Entry>, p: Period, account: Account): int {
    if entries == [] then 0
    else
      var last := entries[|entries| - 1];
      AccountNet(entries[..|entries| - 1], p, account) + if InPeriod(last, p) then Net(last.lines, account) else 0
  }

  /** The picked accounts together. */
  function ChartNet(chart: seq<AccountRow>, pick: Pick, entries: seq<Entry>, p: Period): int {
    if chart == [] then 0
    else (if Picks(pick, chart[0]) then AccountNet(entries, p, chart[0].account) else 0)
         + ChartNet(chart[1..], pick, entries, p)
  }

  function ChartNetLines(chart: seq<AccountRow>, pick: Pick, lines: seq<Line>): int {
    if chart == [] then 0
    else (if Picks(pick, chart[0]) then Net(lines, chart[0].account) else 0) + ChartNetLines(chart[1..], pick, lines)
  }

  lemma {:induction false} ChartNetByEntry(chart: seq<AccountRow>, pick: Pick, entries: seq<Entry>, p: Period)
    requires entries != []
    ensures ChartNet(chart, pick, entries, p)
         == ChartNet(chart, pick, entries[..|entries| - 1], p)
          + if InPeriod(entries[|entries| - 1], p) then ChartNetLines(chart, pick, entries[|entries| - 1].lines) else 0
  {
    if chart == [] {
    } else {
      ChartNetByEntry(chart[1..], pick, entries, p);
    }
  }

  predicate Picked(chart: seq<AccountRow>, pick: Pick, account: Account) {
    exists r :: r in chart && r.account == account && Picks(pick, r)
  }

  /** With unique accounts each line is counted once, in the row of its account. */
  lemma {:induction false} ChartNetByLine(chart: seq<AccountRow>, pick: Pick, lines: seq<Line>)
    requires DistinctAccounts(chart) && lines != []
    ensures ChartNetLines(chart, pick, lines)
         == ChartNetLines(chart, pick, lines[1..])
          + if Picked(chart, pick, lines[0].account) then lines[0].debit - lines[0].credit else 0
  {
    if chart == [] {
    } else {
      var rest := chart[1..];
      assert forall i :: 0 <= i < |rest| ==> rest[i] == chart[i + 1];
      ChartNetByLine(rest, pick, lines);
      assert forall r :: r in chart <==> r == chart[0] || r in rest;
      assert chart[0].account == lines[0].account ==> !Picked(rest, pick, lines[0].account);
    }
  }

  lemma {:induction false} ChartNetNoLines(chart: seq<AccountRow>, pick: Pick)
    ensures ChartNetLines(chart, pick, []) == 0
  {
    if chart == [] {
    } else {
      ChartNetNoLines(chart[1..], pick);
    }
  }

  /** Over all accounts an entry adds up to its debits minus its credits. */
  lemma {:induction false} WholeEntryNet(chart: seq<AccountRow>, lines: seq<Line>)
    requires DistinctAccounts(chart) && Known(chart, lines)
    ensures ChartNetLines(chart, AllAccounts, lines) == Debits(lines) - Credits(lines)
  {
    if lines == [] {
      ChartNetNoLines(chart, AllAccounts);
    } else {
      assert forall j :: 0 <= j < |lines[1..]| ==> lines[1..][j] == lines[j + 1];
      ChartNetByLine(chart, AllAccounts, lines);
      WholeEntryNet(chart, lines[1..]);
    }
  }

  /** Balanced entries leave nothing over all accounts, whatever the period. */
  lemma {:induction false} WholeChartIsZero(chart: seq<AccountRow>, entries: seq<Entry>, p: Period)
    requires ChartCovers(chart, entries) && AllBalanced(entries)
    ensures ChartNet(chart, AllAccounts, entries, p) == 0
  {
    if entries == [] {
      NoEntriesNoNet(chart, AllAccounts, p);
    } else {
      var n := |entries| - 1;
      assert forall i :: 0 <= i < n ==> entries[..n][i] == entries[i];
      WholeChartIsZero(chart, entries[..n], p);
      ChartNetByEntry(chart, AllAccounts, entries, p);
      WholeEntryNet(chart, entries[n].lines);
      assert Balanced(entries[n].lines);
    }
  }

  lemma {:induction false} NoEntriesNoNet(chart: seq<AccountRow>, pick: Pick, p: Period)
    ensures ChartNet(chart, pick, [], p) == 0
  {
    if chart == [] {
    } else {
      NoEntriesNoNet(chart[1..], pick, p);
    }
  }

  /** Every account is of one kind, and real accounts are active or not. */
  lemma {:induction false} ChartSplits(chart: seq<AccountRow>, entries: seq<Entry>, p: Period)
    ensures ChartNet(chart, AllAccounts, entries, p)
         == ChartNet(chart, ActiveOf(Asset), entries, p) + ChartNet(chart, ActiveOf(Liability), entries, p)
          + ChartNet(chart, ActiveOf(Equity), entries, p) + ChartNet(chart, InactiveRealAccounts, entries, p)
          + ChartNet(chart, OfKind(Income), entries, p) + ChartNet(chart, OfKind(Expense), entries, p)
  {
    hide AccountNet;
    if chart == [] {
    } else {
      ChartSplits(chart[1..], entries, p);
    }
  }

  // ----- the two reports -----

  /** The debit and credit columns of one account, as the grouped query returns them. */
  method AccountTotals(entries: seq<Entry>, p: Period, account: Account) returns (debit: int, credit: int)
    ensures debit - credit == AccountNet(entries, p, account)
  {
    debit, credit := 0, 0;
    for i := 0 to |entries|
      invariant debit - credit == AccountNet(entries[..i], p, account)
    {
      assert entries[..i + 1][..i] == entries[..i];
      if InPeriod(entries[i], p) {
        var lines := entries[i].lines;
        ghost var before := debit - credit;
        for j := 0 to |lines|
          invariant debit - credit + Net(lines[j..], account) == before + Net(lines, account)
        {
          if lines[j].account == account {
            debit, credit := debit + lines[j].debit, credit + lines[j].credit;
          }
        }
      }
    }
    assert entries[..|entries|] == entries;
  }

  /** One section of the balance sheet: the active accounts of a kind; zero balances are not printed. */
  method Section(chart: seq<AccountRow>, entries: seq<Entry>, p: Period, kind: Kind) returns (total: int)
    ensures total == BalanceForType(kind, ChartNet(chart, ActiveOf(kind), entries, p), 0)
  {
    total := 0;
    for i := 0 to |chart|
      invariant total + BalanceForType(kind, ChartNet(chart[i..], ActiveOf(kind), entries, p), 0)
             == BalanceForType(kind, ChartNet(chart, ActiveOf(kind), entries, p), 0)
    {
      assert chart[i..][1..] == chart[i + 1..];
      if chart[i].active && chart[i].kind == kind {
        var debit, credit := AccountTotals(entries, p, chart[i].account);
        var balance := BalanceForType(kind, debit, credit);
        if balance != 0 {
          total := total + balance;
        }
      }
    }
  }

  method BalanceSheet(chart: seq<AccountRow>, entries: seq<Entry>, until: Option<int>)
    returns (assets: int, liabilities: int, equity: int)
    ensures var p := Period(None, until);
            && assets == ChartNet(chart, ActiveOf(Asset), entries, p)
            && liabilities == -ChartNet(chart, ActiveOf(Liability), entries, p)
            && equity == -ChartNet(chart, ActiveOf(Equity), entries, p)
  {
    assets := Section(chart, entries, Period(None, until), Asset);
    liabilities := Section(chart, entries, Period(None, until), Liability);
    equity := Section(chart, entries, Period(None, until), Equity);
  }

  function KindOf(chart: seq<AccountRow>, account: Account): (kind: Option<Kind>)
    ensures kind.Some? ==>
              AccountRow(account, kind.value, true) in chart || AccountRow(account, kind.value, false) in chart
    ensures kind.None? ==> forall r :: r in chart ==> r.account != account
  {
    if chart == [] then None
    else if chart[0].account == account then Some(chart[0].kind)
    else KindOf(chart[1..], account)
  }

  lemma KindDecidesPick(chart: seq<AccountRow>, account: Account, kind: Kind)
    requires DistinctAccounts(chart)
    ensures Picked(chart, OfKind(kind), account) <==> KindOf(chart, account) == Some(kind)
  {
    var k := KindOf(chart, account);
    if r :| r in chart && r.account == account && r.kind == kind {
      var i :| 0 <= i < |chart| && chart[i] == r;
      var j :| 0 <= j < |chart| && chart[j].account == account && chart[j].kind == k.value;
      assert i == j;
    }
  }

  /** Debit minus credit per account type, from the lines joined to their accounts, active or not. */
  method NetOfKind(chart: seq<AccountRow>, entries: seq<Entry>, p: Period, kind: Kind) returns (debit: int, credit: int)
    requires DistinctAccounts(chart)
    ensures debit - credit == ChartNet(chart, OfKind(kind), entries, p)
  {
    debit, credit := 0, 0;
    NoEntriesNoNet(chart, OfKind(kind), p);
    for i := 0 to |entries|
      invariant debit - credit == ChartNet(chart, OfKind(kind), entries[..i], p)
    {
      assert entries[..i + 1][..i] == entries[..i];
      ChartNetByEntry(chart, OfKind(kind), entries[..i + 1], p);
      if InPeriod(entries[i], p) {
        var lines := entries[i].lines;
        ghost var before := debit - credit;
        for j := 0 to |lines|
          invariant debit - credit + ChartNetLines(chart, OfKind(kind), lines[j..])
                 == before + ChartNetLines(chart, OfKind(kind), lines)
        {
          ChartNetByLine(chart, OfKind(kind), lines[j..]);
          KindDecidesPick(chart, lines[j].account, kind);
          assert lines[j..][1..] == lines[j + 1..];
          if KindOf(chart, lines[j].account) == Some(kind) {
            debit, credit := debit + lines[j].debit, credit + lines[j].credit;
          }
        }
        ChartNetNoLines(chart, OfKind(kind));
      }
    }
    assert entries[..|entries|] == entries;
  }

  /** Revenue, cost of goods from its own query, the other expenses, and the net income printed below them. */
  method IncomeStatement(chart: seq<AccountRow>, entries: seq<Entry>, p: Period)
    returns (revenue: int, cogs: int, operating: int, netIncome: int)
    requires DistinctAccounts(chart)
    ensures revenue == -ChartNet(chart, OfKind(Income), entries, p)
    ensures cogs == AccountNet(entries, p, COGS)
    ensures cogs + operating == ChartNet(chart, OfKind(Expense), entries, p)
    ensures netIncome == -ChartNet(chart, OfKind(Income), entries, p) - ChartNet(chart, OfKind(Expense), entries, p)
  {
    var debit, credit := NetOfKind(chart, entries, p, Income);
    revenue := BalanceForType(Income, debit, credit);
    debit, credit := AccountTotals(entries, p, COGS);
    cogs := debit - credit;
    debit, credit := NetOfKind(chart, entries, p, Expense);
    var totalExpense := BalanceForType(Expense, debit, credit);
    operating := totalExpense - cogs;
    netIncome := revenue - cogs - operating;
  }

  lemma {:induction false} NothingInactive(chart: seq<AccountRow>, entries: seq<Entry>, p: Period)
    requires forall i :: 0 <= i < |chart| ==> chart[i].active
    ensures ChartNet(chart, InactiveRealAccounts, entries, p) == 0
  {
    if chart == [] {
    } else {
      NothingInactive(chart[1..], entries, p);
    }
  }

  /**
   For every balanced journal and every cut-off, assets minus liabilities and equity fall short of the net
   income by exactly what lies on deactivated real accounts, which the balance sheet leaves out.
   */
  lemma AccountingEquation(chart: seq<AccountRow>, entries: seq<Entry>, until: Option<int>,
                           assets: int, liabilities: int, equity: int, netIncome: int)
    requires ChartCovers(chart, entries) && AllBalanced(entries)
    requires var p := Period(None, until);
             && assets == ChartNet(chart, ActiveOf(Asset), entries, p)
             && liabilities == -ChartNet(chart, ActiveOf(Liability), entries, p)
             && equity == -ChartNet(chart, ActiveOf(Equity), entries, p)
             && netIncome == -ChartNet(chart, OfKind(Income), entries, p) - ChartNet(chart, OfKind(Expense), entries, p)
    ensures assets - (liabilities + equity)
            == netIncome - ChartNet(chart, InactiveRealAccounts, entries, Period(None, until))
    ensures assets - (liabilities + equity) == netIncome <==>
              ChartNet(chart, InactiveRealAccounts, entries, Period(None, until)) == 0
    ensures (forall i :: 0 <= i < |chart| ==> chart[i].active) ==> assets - (liabilities + equity) == netIncome
  {
    if forall i :: 0 <= i < |chart| ==> chart[i].active {
      NothingInactive(chart, entries, Period(None, until));
    }
    WholeChartIsZero(chart, entries, Period(None, until));
    ChartSplits(chart, entries, Period(None, until));
  }

  lemma TwoAccounts(first: AccountRow, second: AccountRow, pick: Pick, entries: seq<Entry>, p: Period)
    ensures ChartNet([first, second], pick, entries, p)
         == (if Picks(pick, first) then AccountNet(entries, p, first.account) else 0)
          + (if Picks(pick, second) then AccountNet(entries, p, second.account) else 0)
  {
    hide AccountNet, Picks;
    assert [second][1..] == [];
    assert ChartNet([second], pick, entries, p)
           == if Picks(pick, second) then AccountNet(entries, p, second.account) else 0;
    assert [first, second][1..] == [second];
  }

  lemma OneEntryNet(e: Entry, p: Period, account: Account)
    ensures AccountNet([e], p, account) == if InPeriod(e, p) then Net(e.lines, account) else 0
  {
    assert [e][..0] == [];
    assert AccountNet([e][..0], p, account) == 0;
  }

  /** 100 on a deactivated 1101 against equity: the balance sheet is off by it, although nothing was earned. */
  lemma DeactivatedAccountIsMissed()
    ensures var chart := [AccountRow(CASH_IN_DRAWER, Asset, false), AccountRow(OWNER_EQUITY, Equity, true)];
            var entries := [Entry(OtherSource, 0, Transfer(CASH_IN_DRAWER, OWNER_EQUITY, 100), None)];
            var p := Period(None, None);
            && ChartCovers(chart, entries) && AllBalanced(entries) && ChartNet(chart, ActiveOf(Asset), entries, p) == 0
            && ChartNet(chart, ActiveOf(Equity), entries, p) == -100 && ChartNet(chart, OfKind(Income), entries, p) == 0
            && ChartNet(chart, InactiveRealAccounts, entries, p) == 100
  {
    var cash, equity := AccountRow(CASH_IN_DRAWER, Asset, false), AccountRow(OWNER_EQUITY, Equity, true);
    var entries := [Entry(OtherSource, 0, Transfer(CASH_IN_DRAWER, OWNER_EQUITY, 100), None)];
    var p := Period(None, None);
    OneEntryNet(entries[0], p, CASH_IN_DRAWER);
    OneEntryNet(entries[0], p, OWNER_EQUITY);
    assert ChartCovers([cash, equity], entries) by {
      assert cash in [cash, equity] && equity in [cash, equity];
    }
    hide AccountNet, Transfer, ChartCovers;
    TwoAccounts(cash, equity, ActiveOf(Asset), entries, p);
    TwoAccounts(cash, equity, ActiveOf(Equity), entries, p);
    TwoAccounts(cash, equity, OfKind(Income), entries, p);
    TwoAccounts(cash, equity, InactiveRealAccounts, entries, p);
  }
}
