# Bakery back office: a verified model

A small bakery runs its orders, customers, stock, cash drawer, books and receipt printing on one SQLite
database behind a Python API. This project models the parts where several tables must agree with one
another over any sequence of requests, and proves that they do, or exactly when they do not.

Tables are fields of classes (maps by row id, or sequences in insertion order) and endpoints are methods
that change them. Each endpoint is proved against functions on plain values, and the results about whole
runs are lemmas about those functions. Money is whole VND as unbounded `int`. The clock, the random source,
the grayscale pixels, the folding of names for search and the outcome of each page sent to the printer are inputs.

| file | what it holds |
|---|---|
| `Ledger.dfy`, `CashDrawer.dfy`, `CashDrawerApi.dfy`, `CashDrawerProofs.dfy` | the journal, the drawer's rules, its endpoints with commit and rollback, the run theorems |
| `Shop.dfy`, `CustomerRecords.dfy`, `CustomerResolver.dfy`, `Customers.dfy`, `Duplicates.dfy` | customers, phones, orders and the year summary; new customers, whom an order belongs to, merge, batch merge, duplicate finder |
| `PickupCodes.dfy`, `OrderItems.dfy`, `Orders.dfy`, `WorkItems.dfy`, `ShopRuns.dfy` | pickup codes, the items table, create and edit, item and order status, runs over all of them |
| `Inventory.dfy`, `Reconciliation.dfy`, `ReconciliationApi.dfy`, `ReconciliationProofs.dfy`, `StockOverview.dfy`, `OrderStock.dfy`, `StockRuns.dfy` | lots and negative balances, the stock count, the two aggregations of stock, the stock of an order from confirmation to edit and cancellation, runs over all of these |
| `LoginLimiter.dfy`, `Reports.dfy` | the login limiter against its history rule, the income statement against the balance sheet |
| `Tspl.dfy`, `Ipp.dfy`, `PrintQueue.dfy` | bitmap and command bytes, IPP request bytes, jobs competing for the printer |

## What turned out conditional

These promises fail for some inputs. The code is modelled as it is; a lemma gives the exact condition and,
where it says most, a concrete input.

- Manual entries (owner capital, owner draw, staff reimbursement) and reversals carry no drawer link, although
  the default payment method of the manual ones is cash, which is 1101. Posted while a drawer is open they
  pull global 1101 away from the drawer's expected balance; the gap is exactly their sum, survives a
  carry-over to the next day and ends with a close (`UnlinkedPostingKeepsInStepIff`, `RunMovesGap`,
  `RunKeepsInStepIff`, `OwnerCapitalDrifts`).
- A close that is confirmed without a source is accepted and books nothing, so 1101 stays off the count
  (`CloseLeavesCountIffBooked`, `UnsourcedCloseDrifts`). The docstring of `close_drawer` promises old clients
  that send no flags a booking against 3100; the code answers them with a proposal instead.
- A base-price sale in a stock count is taken from whatever option its unit price resolves to. Entered at a
  chip's price it leaves the chip's shelf, and the counted option stays off the count
  (`MisroutedByPrice`, `ShortLinesEndAtCountIff`, `MisroutedSaleIsAccepted`).
- Two lines for one option each pass validation, and together they may sell more than there is
  (`SalesOversellIff`, `RepeatedOptionOversells`).
- A way to pay is asked for only when no line of the submission has sale rows, so a plain sale beside a line with
  rows may name none (`SubmissionAcceptedIff`, `UnpaidSalePasses`).
- A surplus line ends at the count only when nothing was owed on the option (or a zero count meets as many
  items as the later rows owe): netting pays the debt from the surplus. Netting and clearing look at one row
  of the negative balance, so with two rows a zero count does not clear the position and a surplus restocks
  while something is still owed (`SurplusNetsFirst`, `SurplusLineEndsAtCountIff`, `SecondRowSurvives`).
- The unique index on `negative_balance` does not cover base-price stock, since SQLite treats NULL chips as
  distinct. Overselling base stock twice makes two rows; the overview reads one of them and the draft reads
  both (`UpsertKeepsOneRowIff`, `TotalsAgreeIff`, `TwoOversoldUnitsDisagree`).
- The items table is replaced exactly when no two of the order's rows share a position, and the work-item
  endpoint adds rows at position 0 unless told otherwise (`SyncIsExactIffDistinct`, `SharedPositionLeavesARow`).
- Editing the lines of an order reverses its sale first, but adds what it had oversold to every row of the
  negative balance instead of taking it off. So an edit exchanges the old lines for the new ones exactly when
  the order had oversold nothing; saving an oversold order again without a change loses stock
  (`EditExchangesIff`, `ResaveKeepsNetIff`, `ReverseUndoesIff`, `ResavedOversaleGrows`).
- A deduction that fails during an edit is only logged, although the comment above it says that a failure rolls
  the edit back; the lines before the failing one, and all items of the failing one's option, stay taken
  (`DeductOkIff`, `ShortEditEmptiesTheShelf`).
- Cancelling an order gives back the first line of each option only, gives back lines that took nothing from
  stock, and pays an oversale back only as far as it is still owed (`CancelOneLineIff`, `CancelManyLinesIff`,
  `SecondLineIsLost`, `UntakenOrderAddsStock`).
- A new customer may be given two primary phones or one phone twice; the phone promises hold for every customer
  created with a proper list, and a merge keeps them (`SavedRightIff`, `CreateCustomer`,
  `ImproperPhonesAreAccepted`).
- The lookup by name is reached only with a phone, so an order with a name alone makes a new customer every time
  (`FoundAgainIff`).
- Merging several customers gives the same links and the same set of phones in any order, but a target without a
  phone takes the number of the first source that has one, so that depends on the order of the list
  (`BatchOrderIsImmaterial`, `BatchNumberNext`).
- Orders with a phone follow a merge from the source to the target unless another customer has the phone too and
  ordered earlier, or has the smaller id when both ordered in the same second or nobody ordered at all
  (`MergeRedirectsIff`).
- Rebuilding an order from its rows does not refresh the year summary (`RebuildKeepsSummaryIff`,
  `RepricedRowsMissTheSummary`).
- Orders made by a stock count are pickup orders whose code carries the delivery letter, until an edit draws
  or re-letters it (`ReconciliationCodeMismatch`, `SuffixesAfterChange`).
- The balance sheet leaves out deactivated accounts and the income statement does not. The column exists and
  the query reads it, but nothing in the repository deactivates an account, so this fails only for a database
  changed by hand (`AccountingEquation`, `DeactivatedAccountIsMissed`).
- The failure counter of an account is not reset by a lock, so every failure from the fifth on locks it
  again (`LoginLimiter.Limiter.RecordLoginFailure`).
- A comment in `print_receipt` says the row for a partial print notes the pages sent; the row holds no such
  note, only the server log does, and a full print writes the same row.

## Model

| member | source | states |
|---|---|---|
| `Ledger.Transfer` | src/baker/api/cash_drawer.py:267-303 | a drawer booking is balanced, moves the amount from the credited to the debited account and touches no other account |
| `Ledger.DrawerCashBySource` | src/baker/models/cash_drawer.py:56-65 | the linked 1101 sum of a drawer splits over the five kinds of entry |
| `Ledger.NoLinkNoCash` | src/baker/models/cash_drawer.py:56-65 | a drawer without linked entries has no 1101 movement |
| `CashDrawer.Active` | src/baker/models/cash_drawer.py:121-125 | the active drawer is an open one; there is none exactly when none is open |
| `CashDrawer.LatestStale` | src/baker/models/cash_drawer.py:236-250 | of the open drawers of earlier days, the last in the order (opened at, id) |
| `CashDrawerProofs.NothingStaysStale` | src/baker/api/cash_drawer.py:322-345 | after auto-close no drawer is stale, each stale one is closed at its expected balance, every other row and 1101 are unchanged, and a second auto-close does nothing |
| `CashDrawer.SurplusLines` | src/baker/api/cash_drawer.py:526-562 | a surplus booking is balanced, puts the amount on 1101 and takes it from owner cash or revenue, with half as cost of goods |
| `CashDrawer.ShortageLines` | src/baker/api/cash_drawer.py:580-619 | a shortage booking is balanced and moves the amount from 1101 to owner cash or equity |
| `CashDrawer.WithStaff` | src/baker/db/schema/_helpers.py:72-104 | the staff sub-account is found or added at the end, existing ones keep their index, names stay distinct |
| `CashDrawerApi.Database.InsertJournalEntry` | src/baker/db/schema/_helpers.py:190-262 | an unbalanced entry is refused and writes nothing; a balanced one is appended with its drawer link |
| `CashDrawerApi.Database.EnsureStaffAccount` | src/baker/db/schema/_helpers.py:72-104 | returns the sub-account of the staff member, creating it on first use |
| `CashDrawerApi.Database.CloseStale` | src/baker/api/cash_drawer.py:338-342 | the loop over stale drawers leaves the auto-closed tables and says whether there was one |
| `CashDrawerApi.Database.AutoCloseStaleDrawers` | src/baker/api/cash_drawer.py:322-345 | the auto-close is committed on its own |
| `CashDrawerApi.Database.OpenDrawer` | src/baker/api/cash_drawer.py:354-628 | outcome and committed books are those of the drawer rules; a rejected open commits nothing although it closes stale drawers before it rejects; what the rules book is `OpenBooksBySource` |
| `CashDrawerApi.Database.BookOpening` | src/baker/api/cash_drawer.py:502-620 | the booking branches of an open post the entry of the drawer rules, or none without a difference |
| `CashDrawerApi.Database.BookDiscrepancy` | src/baker/api/cash_drawer.py:749-870 | the booking branches of a close post the entry of the named source, or none |
| `CashDrawerApi.Database.InsertUnidentifiedSale` | src/baker/api/cash_drawer.py:536-562 | the four lines of an unidentified sale, posted and linked to the drawer |
| `CashDrawerApi.Database.CashIn` | src/baker/api/cash_drawer.py:632-674 | outcome and committed books are those of the drawer rules; a rejection leaves only the auto-close |
| `CashDrawerApi.Database.CashOut` | src/baker/api/cash_drawer.py:678-717 | as for cash-in, with the debit side chosen by destination |
| `CashDrawerApi.Database.CloseDrawer` | src/baker/api/cash_drawer.py:721-877 | the row is closed before the discrepancy is judged, yet any rejection commits only the auto-close |
| `CashDrawerApi.Database.Commit` | src/baker/db/connection.py:22-24 | what the connection sees becomes durable |
| `CashDrawerApi.Database.Rollback` | src/baker/db/connection.py:25-27 | an exception discards what was not committed |
| `CashDrawerProofs.OpenBooksTheDelta` | src/baker/api/cash_drawer.py:506-620 | whichever of the nine branches books an open, it is balanced and moves 1101 by opening minus reference; only a zero delta books nothing |
| `CashDrawerProofs.ReferenceIsGlobal` | src/baker/api/cash_drawer.py:374-391 | the reference of an open is global 1101, less the gap of the drawer it carries over; without a gap the two are the same |
| `CashDrawerProofs.OpenKeepsSound` | src/baker/api/cash_drawer.py:478-628 | after an accepted open the new drawer is the one open drawer, expects the counted opening, and inherits the gap of a carried-over drawer |
| `CashDrawerProofs.OpenKeepsInStep` | src/baker/api/cash_drawer.py:478-628 | from books in step its expected balance and global 1101 both equal the counted opening |
| `CashDrawerProofs.OpenAnswer` | src/baker/api/cash_drawer.py:380-476 | each answer of an open, by stale drawers, a drawer of today, the 1101 balance and the confirmations; accepted exactly when nothing is left to confirm |
| `CashDrawerProofs.OpenProposals` | src/baker/api/cash_drawer.py:380-476 | the figures a proposal shows: the latest stale drawer and what it should hold, or the balance of 1101 and the difference |
| `CashDrawerProofs.OpenBooksBySource` | src/baker/api/cash_drawer.py:478-620 | account by account: the whole count against 3100 when the reference is zero; a surplus against 1102, as revenue on 4100 with half on 5900 and 1300, or against 3100; a shortage against 1102 or 3100; and the reference is 1101 or what the carried-over drawer holds |
| `CashDrawerProofs.PostingMovesGap` | src/baker/db/schema/_helpers.py:212-216 | a posting with the active drawer's link moves its expected balance and global 1101 alike; one without a link moves only 1101 |
| `CashDrawerProofs.UnlinkedPostingKeepsInStepIff` | src/baker/api/accounts.py:78-120 | a manual entry without a link keeps ledger and drawer in step if and only if no drawer is open or it leaves 1101 alone |
| `CashDrawerProofs.OwnerCapitalMovesOnly1101` | src/baker/api/accounts.py:255-287 | owner capital paid in as cash while a drawer is open opens a gap of its amount |
| `CashDrawerProofs.OwnerCapitalDrifts` | src/baker/api/accounts.py:255-287 | 50 paid in on a drawer of 100: 1101 says 150, the drawer 100 |
| `CashDrawerProofs.AutoCloseKeepsSound` | src/baker/api/cash_drawer.py:322-345 | auto-close leaves 1101 alone and every drawer in agreement with its entries; a gap goes with the drawer it closes |
| `CashDrawerProofs.CloseKeepsSound` | src/baker/api/cash_drawer.py:721-877 | after an accepted close nothing is open and 1101 moved by what the chosen source books |
| `CashDrawerProofs.CloseAnswer` | src/baker/api/cash_drawer.py:744-828 | a close needs a drawer of today; its difference is count minus what that drawer holds, and an accepted one is confirmed |
| `CashDrawerProofs.CloseProposals` | src/baker/api/cash_drawer.py:757-828 | a refused close shows what the one drawer of today should hold |
| `CashDrawerProofs.CloseBooksBySource` | src/baker/api/cash_drawer.py:744-870 | account by account, like an open, with nothing for a difference without a source; the drawer's record holds count, expected balance and difference |
| `CashDrawerProofs.MoveAnswer` | src/baker/api/cash_drawer.py:646-652 | cash moves are refused for a missing employee name first, then without a drawer of today |
| `CashDrawerProofs.CashInBooksBySource` | src/baker/api/cash_drawer.py:653-671 | cash in debits 1101 and credits 1102, 3100 or the named employee's account |
| `CashDrawerProofs.CashOutBooksBySource` | src/baker/api/cash_drawer.py:698-714 | cash out credits 1101 and debits 1102 or the named employee's account |
| `CashDrawerProofs.RefusedRequests` | src/baker/api/cash_drawer.py:354-877 | a refused request books nothing and changes at most the stale drawers |
| `CashDrawerProofs.StepMovesGap` | src/baker/api/cash_drawer.py:354-877 | every request, accepted or rejected, keeps the books sound, and the gap grows by exactly what is posted without a link while a drawer is open |
| `CashDrawerProofs.RunMovesGap` | src/baker/api/cash_drawer.py:322-877 | in every reachable state at most one drawer is open, its expected balance is the counted opening plus the linked flows, and global 1101 differs from it by the unlinked postings since a drawer was last not open |
| `CashDrawerProofs.RunKeepsInStepIff` | src/baker/api/cash_drawer.py:322-877 | a run from books in step ends in step if and only if those unlinked postings cancel out |
| `CashDrawerProofs.RunKeepsInStep` | src/baker/api/cash_drawer.py:484-488 | over drawer requests and linked postings the expected balance is the global 1101 balance in every reachable state |
| `CashDrawerProofs.CloseLeavesCountIff` | src/baker/api/cash_drawer.py:744-870 | 1101 equals the count after a close if and only if the gap is zero and the discrepancy is booked, or the gap is the unbooked discrepancy itself |
| `CashDrawerProofs.CloseLeavesCountIffBooked` | src/baker/api/cash_drawer.py:744-870 | from books in step exactly when there is no discrepancy or its source was named |
| `CashDrawerProofs.UnsourcedSurplusDrifts` | src/baker/api/cash_drawer.py:744-870 | every same-day close that confirms a surplus without a source is accepted and leaves 1101 where it was |
| `CashDrawerProofs.UnsourcedCloseDrifts` | src/baker/api/cash_drawer.py:744-870 | an accepted close of 150 against 100 that leaves 1101 at 100 |
| `CashDrawerProofs.DayHandsOver` | src/baker/api/cash_drawer.py:506-870 | an open books exactly opening minus 1101, and a booked close leaves 1101 at the count plus what the day posted without a link |
| `CashDrawerProofs.DaysTelescope` | src/baker/api/cash_drawer.py:506-870 | over any chain of days each open books opening minus what the day before left, which with linked postings only is its count |
| `CashDrawerProofs.StepExtends` | src/baker/models/cash_drawer.py:161-225 | one request only appends to the journal and only closes open drawers |
| `CashDrawerProofs.RunExtends` | src/baker/models/cash_drawer.py:161-225 | over any run the journal is append-only and a closed drawer's record is final |
| `Shop.ShopDb.RecomputeYearSummary` | src/baker/db/schema/_helpers.py:755-781 | one (customer, year) row becomes the aggregate of that customer's orders of that year |
| `Shop.AggregateSame` | src/baker/db/schema/_helpers.py:769-774 | the aggregate depends only on the orders it counts |
| `Shop.AggregateByOrder` | src/baker/db/schema/_helpers.py:769-774 | order by order, those of the customer and the year count one each with their totals |
| `CustomerRecords.NormalizeTwice` | src/baker/db/schema/_helpers.py:677-698 | a normalized phone is its own normal form, so stored phones can be compared with normalized ones |
| `CustomerRecords.NormalizeByCharacter` | src/baker/db/schema/_helpers.py:677-698 | spaces, dots and dashes go, everything else stays in place |
| `Common.StripTakesEnds` | src/baker/api/customers.py:67-77 | stripping takes whitespace off both ends, all of it, and nothing else |
| `CustomerRecords.SyncCustomerPhones` | src/baker/models/customer.py:156-176 | the customer's rows become one per given phone, in order, and nobody else's change |
| `CustomerRecords.SaveCustomer` | src/baker/models/customer.py:23-34 | a new id, the normalized legacy phone and the phone rows |
| `CustomerRecords.SavedKeepsOthers` | src/baker/models/customer.py:23-34 | saving a record leaves every other customer's row and phones alone |
| `CustomerRecords.SavedRightIff` | src/baker/models/customer.py:149-176 | the new record has no phone twice and one primary mirrored by the legacy column if and only if its list has distinct numbers and one primary that is the legacy phone |
| `CustomerRecords.SavedPhones` | src/baker/models/customer.py:149-176 | the record is known under exactly the numbers it was given, or its legacy phone without a list |
| `CustomerRecords.LegacyOfRequest` | src/baker/api/customers.py:339-343 | which requests give such a list: one primary, and a blank primary only without a single phone beside it |
| `CustomerRecords.RequestPhones` | src/baker/api/customers.py:79-91 | a single phone that is not blank becomes one primary phone, a list keeps order and flags |
| `CustomerRecords.LegacyPhoneIs` | src/baker/models/customer.py:149-153 | the legacy column takes the first primary phone, else the first, or the single phone when that is blank |
| `CustomerRecords.ImproperPhonesAreAccepted` | src/baker/api/customers.py:79-91 | two primaries, or one phone twice, pass the checks |
| `CustomerRecords.CreateCustomer` | src/baker/api/customers.py:335-349 | exactly a blank name and a list without a primary are refused; an accepted request adds one customer with one row per phone and the legacy phone, which are right if and only if the request was proper, and touches nobody else |
| `CustomerResolver.WinnerIsEarliest` | src/baker/services/customer_resolver.py:76-89 | among the holders of a phone the winner has an order as early as any other's, or the least id when none ordered |
| `CustomerResolver.WinnerStays` | src/baker/services/customer_resolver.py:76-89 | one more order of the winner leaves it the winner |
| `CustomerResolver.ByPhoneFinds` | src/baker/services/customer_resolver.py:53-115 | with a phone first a holder of a row, then the least customer with it in the legacy column, then the least of that name; without one nobody |
| `CustomerResolver.LowerByCharacter` | src/baker/services/customer_resolver.py:127-132 | the walk-in customer's name is compared with ASCII capitals lowered and nothing else |
| `CustomerResolver.NewcomerRecord` | src/baker/services/customer_resolver.py:134-173 | name, search name, legacy phone and the one primary row of a customer created for an order |
| `CustomerResolver.NewcomerIsRight` | src/baker/services/customer_resolver.py:158-175 | a customer created for an order has its phones right, and nobody else changes |
| `CustomerResolver.NewcomerIsFound` | src/baker/services/customer_resolver.py:165-173 | a newcomer with a phone is the one found by that phone from then on |
| `CustomerResolver.WalkInIsFound` | src/baker/services/customer_resolver.py:118-136 | orders without phone and name share one walk-in customer |
| `CustomerResolver.FoundAgainIff` | src/baker/services/customer_resolver.py:139-175 | once an order is placed, the same phone and name lead to the same customer again if and only if there is a phone, or neither phone nor name |
| `CustomerResolver.SettledIsRight` | src/baker/services/customer_resolver.py:139-175 | the customer exists afterwards, old customers keep row and phones, a new one has its phones right |
| `CustomerResolver.ResolveOrCreateCustomerId` | src/baker/services/customer_resolver.py:139-175 | the customer that is found, with nothing changed, or else the one created |
| `CustomerResolver.WinnerAfterMergeIff` | src/baker/services/customer_resolver.py:76-89 | after a merge the target wins a phone if and only if one of the two merged customers ordered before every other holder |
| `CustomerResolver.MergeRedirectsIff` | src/baker/services/customer_resolver.py:34-115 | the same for orders placed under a phone of the source: when they lead to the target |
| `Customers.RelinkMovesAll` | src/baker/api/customers.py:591-595 | the target ends with its own orders and all of the sources', no source keeps one, and nobody else's number of orders moves |
| `Customers.OrderCountByOrder` | src/baker/api/customers.py:591-595 | the orders moved are those of one of the customers, one each |
| `Customers.OrderCountRelinked` | src/baker/api/customers.py:868-879 | relinking earlier sources does not change what a later source contributes |
| `Customers.AggregateAfterMerge` | src/baker/api/customers.py:674-693 | the target's year becomes the sum of both customers' years, so no order or value is lost |
| `Customers.QueryHoldsRows` | src/baker/api/customers.py:636-640 | the phone query returns exactly the customer's phones |
| `Customers.FirstListed` | src/baker/api/customers.py:704-709 | a sole primary row comes first in the phone query |
| `Customers.MaterializeLegacyPhone` | src/baker/api/customers.py:600-635 | a legacy phone becomes the target's primary row before anything is copied |
| `Customers.FirstRowExists` | src/baker/api/customers.py:704-709 | a customer with rows has a first one, and one with a phone a first row with a phone |
| `Customers.FirstPhoneOfQuery` | src/baker/api/customers.py:636-640 | the first phone of the query is that of the first row with one, primary rows before the others and then by id |
| `Customers.CopyPhones` | src/baker/api/customers.py:654-672 | the missing phones are added once each, in the order given, and counted, the first as primary exactly when the target had none |
| `Customers.MergePhones` | src/baker/api/customers.py:597-672 | the target's phones become the union of both effective phone sets; no duplicate appears, one primary stays one, and its number is the target's own or, when the target had no phone, the first the source offers |
| `Customers.SummaryAfterMerge` | src/baker/api/customers.py:674-693 | recomputing the target's years and dropping the source's keeps the summary exact, years only the source had included |
| `Customers.RecomputeYears` | src/baker/api/customers.py:674-685 | every year in which the target has orders is recomputed |
| `Customers.SyncLegacyPhone` | src/baker/api/customers.py:701-713 | the legacy column equals the primary row, or else the first row, or is empty without rows |
| `Customers.DeleteSource` | src/baker/api/customers.py:695-713 | the source and its rows are gone, the target keeps its phones |
| `Customers.MergeCustomerIntoTarget` | src/baker/api/customers.py:569-719 | one merge: order links, union of phones, duplicates on the target exactly when it had some, one primary mirrored by the legacy column whose number is the target's own or the first the source offers, exact summary, everybody else untouched, and whoever had its phones right still has |
| `Customers.MergeKeepsPhones` | src/baker/api/customers.py:597-713 | a merge keeps every remaining customer's phones right, whatever the source's were like |
| `Customers.MergeExtendsBatch` | src/baker/api/customers.py:868-879 | merging one more source extends the closed form of a batch by that source |
| `Customers.BatchOrderIsImmaterial` | src/baker/api/customers.py:868-879 | permuting the sources changes neither order links nor the phone set |
| `Customers.MergeCustomer` | src/baker/api/customers.py:729-802 | a refused merge changes nothing; an accepted one relinks, unites the phones with duplicates on the target exactly when it had some, keeps the target's number or takes the source's first, keeps everybody's phones right, counts orders and added phones, lists the target's years and leaves one audit entry |
| `Customers.BatchNumberNext` | src/baker/api/customers.py:868-879 | over a batch the target keeps its own number; without any phone it takes that of the first source in the list that has one, so the list's order decides it |
| `Customers.MergeEach` | src/baker/api/customers.py:868-879 | the loop reaches the closed form, with the per-source and total counts |
| `Customers.MergeAnswer` | src/baker/api/customers.py:830-866 | which refusal a batch gets; it is accepted exactly for distinct existing sources into an existing target that is none of them |
| `Customers.BatchMergeCustomer` | src/baker/api/customers.py:815-923 | a refused batch changes nothing; an accepted one has the closed form, per source its moved orders, added phones and years, the totals, and one audit entry per source; the target keeps its number or takes the first one offered, and everybody's phones stay right |
| `Duplicates.PhoneQuery` | src/baker/api/customers.py:254-261 | one row per non-empty phone of a customer |
| `Duplicates.NameQuery` | src/baker/api/customers.py:276-279 | one row per customer with a search name |
| `Duplicates.GroupByKey` | src/baker/api/customers.py:262-289 | each key's list holds exactly the customers that share it |
| `Duplicates.Unique` | src/baker/api/customers.py:301-308 | repeats are dropped and no member is lost |
| `Duplicates.EmitGroup` | src/baker/api/customers.py:296-325 | a group is emitted when two distinct customers share the key and their set is new |
| `Duplicates.EmitAll` | src/baker/api/customers.py:327-330 | after a pass every shared key's customer set is among the groups |
| `Duplicates.ListDuplicateCustomers` | src/baker/api/customers.py:233-332 | groups are sound, no customer set appears twice, every phone or name shared by two customers is reported with exactly its holders, and a set that a phone explains is reported under a phone |
| `PickupCodes.ReplacedSuffixMatches` | src/baker/api/orders.py:465-469 | replacing the letter of any code makes it match the new delivery type, and replacing it back restores the code |
| `PickupCodes.Letters` | src/baker/models/order.py:278-307 | T for pickup, B for the bus, S for everything else |
| `PickupCodes.ReplacedFromFirstDash` | src/baker/api/orders.py:465-469 | a code without a dash stays as it is, of any other only the part before the first dash does |
| `PickupCodes.DrawnCodeMatches` | src/baker/models/order.py:293-307 | a drawn code matches its delivery type |
| `PickupCodes.UniqueMeans` | src/baker/api/orders.py:437-450 | codes are unique exactly when no two orders due on the same day carry the same non-empty code |
| `PickupCodes.TakenMeans` | src/baker/api/orders.py:453-462 | a code is taken on a date by another order due that day, and never without a date |
| `PickupCodes.GenerateUniquePublicOrderCode` | src/baker/api/orders.py:437-450 | the code is the first free one of up to 30 draws of length 3 and 50 each of lengths 4 to 6; failure means every draw was taken |
| `PickupCodes.RedatedCode` | src/baker/api/orders.py:1246-1289 | keep or regenerate on a date change: a kept code stays unless it is taken on the new date, regenerating and a conflict draw a fresh one, and the result is free there |
| `PickupCodes.RetypedCode` | src/baker/api/orders.py:1291-1316 | a delivery-type change re-letters the code, or draws one when the result is taken |
| `PickupCodes.EditedCode` | src/baker/api/orders.py:1238-1316 | over keep, regenerate, conflict and delivery-type change: the result is exactly the old code, the old code with the new letter or a fresh draw, by the cases of the edit; it is free on the new date and matches the new type unless code and type both stay |
| `OrderItems.SyncOrderItemsTable` | src/baker/api/orders.py:292-382 | surviving positions keep their row id and status, new positions get fresh rows, surplus rows go, photos of deleted rows are unlinked, other orders are untouched |
| `OrderItems.OrderTotalByItem` | src/baker/api/orders.py:1334-1360 | a total adds quantity times price of each item that is no gift, the fee of each cash withdrawal, and shipping once |
| `OrderItems.SyncIsExactIffDistinct` | src/baker/api/orders.py:312-382 | the rows become exactly the new list if and only if no two existing rows shared a position |
| `OrderItems.SyncOfDistinctPositions` | src/baker/api/orders.py:312-382 | with distinct positions the rows are the items at positions 0 to n-1 |
| `OrderItems.SyncOfSharedPosition` | src/baker/api/orders.py:316-382 | a row shadowed by a later one at its position survives every sync |
| `OrderItems.SyncKeepsOthers` | src/baker/api/orders.py:312-382 | a sync leaves every other order's list in its rows |
| `OrderItems.SharedPositionLeavesARow` | src/baker/api/work_items.py:58-71 | two rows at the default position 0 leave one behind when the list is emptied, so the rows are not the list |
| `OrderItems.IndexByPosition` | src/baker/api/orders.py:312-316 | each position maps to its row with the largest id |
| `OrderItems.RebuildFromRows` | src/baker/api/work_items.py:169-235 | list and total are rebuilt from exactly the order's rows |
| `OrderItems.PlacedRowsAddUp` | src/baker/api/work_items.py:215-231 | rows that hold a list add up to it in any order |
| `OrderItems.RebuiltTotalAgrees` | src/baker/api/orders.py:1334-1360 | the total recomputed from the rows is the total the edit stored |
| `Orders.SummaryAfterCreate` | src/baker/api/orders.py:1037-1042 | recomputing the new order's (customer, year) row keeps the summary exact |
| `Orders.CodesAfterCreate` | src/baker/api/orders.py:925-927 | adding an order whose code is free keeps codes unique |
| `Orders.InsertItemRows` | src/baker/api/orders.py:954-972 | the new order's rows are exactly its items |
| `Orders.ItemsAfterInsert` | src/baker/api/orders.py:954-972 | inserting a new order's rows keeps every order's rows equal to its list |
| `Orders.ItemsAfterEdit` | src/baker/api/orders.py:1373-1377 | syncing an edited order keeps every order's rows equal to its list |
| `Orders.PlaceOrder` | src/baker/api/orders.py:928-972 | an order with a free code keeps codes, items table and summary right |
| `Orders.CreateOrder` | src/baker/api/orders.py:901-1042 | refusals change nothing, not even the customers when a code cannot be drawn; an accepted order has the customer it names or is resolved to, its total, a matching free code and its rows, and keeps codes, totals, items table and summary right |
| `Orders.CreateReconciliationOrder` | src/baker/api/reconciliations.py:396-430 | a unit order of a stock count keeps codes, totals, items table and summary right, with a code drawn for another delivery type |
| `Orders.ReconciliationCodeMismatch` | src/baker/api/reconciliations.py:398-414 | such a code never carries the pickup letter |
| `Orders.CodesAfterEdit` | src/baker/api/orders.py:1246-1316 | writing a code that is free for others keeps codes unique |
| `Orders.SummaryAfterEdit` | src/baker/api/orders.py:1592-1612 | recomputing the old and the new customer's year keeps the summary exact |
| `Orders.SummaryAfterQuietEdit` | src/baker/api/orders.py:1601-1604 | an edit of neither customer nor total needs no recomputation |
| `Orders.WriteOrder` | src/baker/api/orders.py:1365-1371 | the row is replaced and the summary stays exact |
| `Orders.EditCheckIs` | src/baker/api/orders.py:1157-1184 | which refusal an edit gets; without one it patches a field of an order that is there and not cancelled |
| `Orders.EditOrder` | src/baker/api/orders.py:1155-1612 | refusals come in order and change nothing, a code decision is demanded exactly on a date change without one, a failing draw means every code was taken; an accepted edit writes field by field what is patched and nothing else, recomputes the total from items, fees and shipping when items or shipping are patched, carries the code the cases of the edit call for, syncs the items table, and keeps codes, suffixes, totals, items table and summary right |
| `Orders.EditOrderByContact` | src/baker/api/orders.py:1184-1212 | the same when the customer is to be found or created first; a refused edit leaves no new customer behind |
| `Orders.RebuildKeepsSummaryIff` | src/baker/api/work_items.py:232-235 | rebuilding an order keeps the summary exact only if it has no customer or its total did not move |
| `Orders.RepricedRowsMissTheSummary` | src/baker/api/work_items.py:232-235 | an order of 100 rebuilt at 150 leaves its customer's year at 100 |
| `Orders.AggregateAfterReprice` | src/baker/api/work_items.py:232-235 | a changed total moves exactly one aggregate, by the difference |
| `WorkItems.DeriveOrderStatus` | src/baker/api/work_items.py:238-263 | both branches together are the plain minimum of ranks over the main items, cancelled as the top |
| `WorkItems.RaisingMainsNeverLowers` | src/baker/api/work_items.py:238-263 | raising main items never lowers the derived status |
| `WorkItems.SyncExtrasToOrderStatus` | src/baker/api/work_items.py:266-291 | each extra moves to the greater of its rank and the target's, nothing else changes |
| `WorkItems.PullsCommute` | src/baker/api/work_items.py:283-291 | pulls commute, repeat harmlessly, reach the maximum of the two ranks and never move back |
| `WorkItems.MappingsAgree` | src/baker/api/work_items.py:28-46 | the two status tables are inverse to each other on item statuses |
| `WorkItems.StatusesAdvance` | src/baker/api/work_items.py:28-46 | items advance from pending over confirmed, working and ready to delivered, with cancelled beyond all |
| `WorkItems.MainIffNeither` | src/baker/api/work_items.py:238-263 | an item is main unless it is an extra or a gift |
| `WorkItems.TransitionAnswer` | src/baker/api/work_items.py:571-597 | a transition is accepted exactly for an item of the order that is not cancelled, going back only with a reason |
| `WorkItems.SyncsCommute` | src/baker/api/work_items.py:266-291 | syncs of the whole table commute and are idempotent |
| `WorkItems.TransitionWorkItemStatus` | src/baker/api/work_items.py:571-634 | refusals change nothing; an accepted transition leaves the order at the minimum over its main items, with extras synced when it moved |
| `ShopRuns.RelinkedInOrder` | src/baker/api/customers.py:591-595 | a merge touches no code, date, type, item or total |
| `ShopRuns.StatusChangeInOrder` | src/baker/api/work_items.py:604-612 | a status change keeps codes, totals, items table and summary |
| `ShopRuns.StatusesAreNoItems` | src/baker/api/work_items.py:599-602 | item status changes leave every order's list in its rows |
| `ShopRuns.StoredTotalIsRebuilt` | src/baker/api/work_items.py:215-235 | in every state of a run, rebuilding any order from its rows gives the stored total |
| `ShopRuns.SuffixesAfterChange` | src/baker/api/orders.py:1291-1316 | an edit leaves a matching code, or a count sale's code it did not touch |
| `ShopRuns.PhonesAfterOrder` | src/baker/services/customer_resolver.py:139-175 | finding or creating an order's customer keeps everybody's phones right |
| `ShopRuns.PhonesAfterMerge` | src/baker/api/customers.py:569-719 | so does a merge |
| `ShopRuns.Serve` | src/baker/api/orders.py:901-1612 | every request keeps codes unique, totals stored, the items table in step, the summary exact, every suffix matching but those still as a stock count drew them, and the phones of every customer right but those created with an improper list |
| `ShopRuns.RunFrom` | src/baker/api/orders.py:901-1612 | any sequence of new customers, creates, count sales, edits, merges and transitions from any such state keeps all of that |
| `ShopRuns.Run` | src/baker/api/orders.py:901-1612 | so from empty tables; without count sales every suffix matches, with proper lists every customer's phones are right |
| `ShopRuns.MergedShop` | src/baker/api/customers.py:729-802 | from empty tables two new customers, an order of the second and a merge into the first are accepted, and the one customer left has both phones, the order and its year |
| `Inventory.ConsumeFifoTakes` | src/baker/services/inventory_fifo.py:129-173 | exactly the requested items go, or all there are, and the rest is the deficit |
| `Inventory.OlderLotsFirst` | src/baker/services/inventory_fifo.py:130-167 | a lot is touched only once every older lot is empty |
| `Inventory.NewLotSellsLast` | src/baker/services/inventory_fifo.py:93-106 | a new lot is not touched as long as the older stock suffices |
| `Inventory.UpsertAddsDeficit` | src/baker/services/inventory_fifo.py:212-230 | the upsert adds the deficit to what the option owes |
| `Inventory.UpsertKeepsOneRowIff` | src/baker/db/schema/_constants.py:1001-1002 | one row per option stays one row only for chips, or when nothing was owed |
| `Inventory.SellUnitEffect` | src/baker/services/order_stock.py:113-121 | a unit sold lowers the net position by one, from the items as long as there are any |
| `Inventory.ResolvedOptionMatches` | src/baker/services/inventory_fifo.py:49-90 | the resolved option has the chip and the price asked for; refused are exactly an unknown product, a foreign chip, a price that is not the chip's and a price no option has |
| `Inventory.ResolvedPriceIsFirst` | src/baker/services/inventory_fifo.py:49-67 | a price means the base price first, then the first chip of that price in display order |
| `Inventory.StockDb.CreateLot` | src/baker/services/inventory_fifo.py:93-106 | a lot of n available items behind the existing ones |
| `Inventory.StockDb.ConsumeFifoItems` | src/baker/services/inventory_fifo.py:109-173 | the loop over lots takes items first in, first out and returns the deficit |
| `Inventory.StockDb.RestockProduct` | src/baker/api/stock.py:141-186 | an accepted restock adds exactly the quantity; refusals change nothing |
| `Inventory.StockDb.WasteStock` | src/baker/api/stock.py:190-236 | waste is accepted exactly when the request is well formed and covered, takes exactly the quantity, and is rolled back otherwise; it never touches what is owed |
| `Inventory.StockDb.AdjustStock` | src/baker/api/stock.py:240-284 | whatever the lots held, the option ends with exactly the requested quantity |
| `Reconciliation.FirstLineRefusal` | src/baker/api/reconciliations.py:255-267 | validation passes exactly when every line passes |
| `Reconciliation.LineAcceptedIff` | src/baker/api/reconciliations.py:281-332 | a line passes exactly with non-negative quantities, positive and payable sale rows, a shortage split into sale and waste, nothing sold or wasted otherwise, and a positive price for a sale without rows |
| `Reconciliation.LineRefusalIsTrue` | src/baker/api/reconciliations.py:281-332 | the reason given for refusing a line is true of it |
| `Reconciliation.AcceptedSalesArePriced` | src/baker/api/reconciliations.py:335-384 | whatever an accepted line sells, it sells at a positive price, from its rows or at its manual price |
| `Reconciliation.SubmissionAcceptedIff` | src/baker/api/reconciliations.py:243-278 | a submission passes exactly with a name, lines that pass, a way to pay when something is sold and no line has rows, and a reason for every waste |
| `Reconciliation.UnpaidSalePasses` | src/baker/api/reconciliations.py:269-273 | a plain sale without a way to pay is refused alone and passes beside a line that has rows |
| `Reconciliation.SubmissionRefusalIsTrue` | src/baker/api/reconciliations.py:243-278 | the reason given is true, and of several bad lines the first speaks |
| `Reconciliation.FreshLineIff` | src/baker/api/reconciliations.py:656-675 | a line is fresh exactly when its option is shown and it was counted against available minus owed |
| `Reconciliation.AcceptedIff` | src/baker/api/reconciliations.py:643-734 | a submission is accepted exactly when it is well formed, fresh, and its waste is covered after its sales; everything it sells has a price |
| `Reconciliation.FirstFreshnessRefusal` | src/baker/api/reconciliations.py:656-675 | the staleness check passes exactly when every line's option is shown with the quantity it was counted against |
| `ReconciliationApi.SellOneUnit` | src/baker/services/order_stock.py:62-121 | a unit order takes one item of the option its price resolves to, or adds one to what is owed |
| `ReconciliationApi.CreateSaleOrders` | src/baker/api/reconciliations.py:335-498 | the stock after selling the units of all rows of all lines, one order each |
| `ReconciliationApi.BookWaste` | src/baker/api/reconciliations.py:699-734 | succeeds exactly when every line's waste is covered when its turn comes |
| `ReconciliationApi.ProcessSurplusInflow` | src/baker/api/reconciliations.py:501-622 | netting against the negative balance first, then a new lot for the rest |
| `ReconciliationApi.BookSurplus` | src/baker/api/reconciliations.py:755-766 | surplus inflow for exactly the lines counted above expected |
| `ReconciliationApi.ClearNegatives` | src/baker/api/reconciliations.py:768-787 | zero counts on negative positions clear the negative balance |
| `ReconciliationApi.SubmitReconciliation` | src/baker/api/reconciliations.py:635-787 | the first refusal in order, with no change, or sales, all at positive prices, waste, surplus and clearing in that order |
| `ReconciliationProofs.SoldAt` | src/baker/api/reconciliations.py:396-442 | each option sees only its own units, however orders interleave |
| `ReconciliationProofs.SellManyEffect` | src/baker/services/order_stock.py:113-121 | n units lower the net position by n and owe nothing while items last |
| `ReconciliationProofs.SalesOversellIff` | src/baker/services/order_stock.py:118-121 | sales leave every negative balance alone if and only if no option is sold more often than it has items |
| `ReconciliationProofs.MisroutedByPrice` | src/baker/services/order_stock.py:65-76 | only a base-price sale at a price that is a chip's and not the base price leaves its option |
| `ReconciliationProofs.WasteCoveredIff` | src/baker/api/reconciliations.py:699-714 | with distinct options waste is covered exactly when each option covers its own line |
| `ReconciliationProofs.NeverOutOfStock` | src/baker/api/reconciliations.py:281-332 | a valid, fresh count of distinct options without misrouted sales never lacks stock and creates no negative balance |
| `ReconciliationProofs.ShortLineNet` | src/baker/api/reconciliations.py:691-714 | a short line's net position drops by the units taken from it and its waste |
| `ReconciliationProofs.ShortLinesEndAtCountIff` | src/baker/api/reconciliations.py:307-332 | all short lines end with net stock equal to the count if and only if no sale is misrouted |
| `ReconciliationProofs.SurplusNetsFirst` | src/baker/api/reconciliations.py:524-555 | offset plus restock is the surplus over available items; a restock leaves nothing owed if and only if there was at most one negative row |
| `ReconciliationProofs.SurplusLineEndsAtCountIff` | src/baker/api/reconciliations.py:755-787 | a surplus line ends at the count if and only if nothing was owed, or a zero count met as many items as the rows behind the first owe; a zero count on a negative position clears it if and only if it had one row |
| `ReconciliationProofs.SecondRowSurvives` | src/baker/api/reconciliations.py:776-787 | twice oversold base stock: an accepted zero count leaves one unit owed, and a count of 3 restocks 2 while one is owed |
| `ReconciliationProofs.MisroutedSaleIsAccepted` | src/baker/services/order_stock.py:65-76 | an accepted count that leaves the base shelf at 2 instead of 1 and the chip's at -1 |
| `ReconciliationProofs.RepeatedOptionOversells` | src/baker/api/reconciliations.py:656-675 | two accepted lines for one option that leave it at -1 |
| `StockOverview.WithChipEffect` | src/baker/api/stock.py:372-389 | adding a chip keeps the buckets a partition of the chips and adds its quantity to the total |
| `StockOverview.WithChipHoldsStock` | src/baker/api/stock.py:372-389 | adding a chip keeps each bucket at the stock of the chips of its price, base stock included in its own |
| `StockOverview.OverviewProduct` | src/baker/api/stock.py:358-402 | the buckets partition the chips by price, each holds the stock of its chips, and the total is their sum, which is base plus chips as the overview reads them |
| `StockOverview.DraftShows` | src/baker/api/reconciliations.py:182-228 | the listed rows are exactly the options a submission may name |
| `StockOverview.DraftProduct` | src/baker/api/reconciliations.py:182-240 | the draft's rows are the shown options with net and gross quantities, and total the product's net position, a dropped zero base row included |
| `StockOverview.ChipsAgree` | src/baker/api/stock.py:372-389 | the overview's chip sum is the sum of chip nets when each chip has at most one negative row |
| `StockOverview.TotalsAgreeIff` | src/baker/api/stock.py:329-402 | the two totals agree if and only if base stock has at most one negative row |
| `StockOverview.TwoOversoldUnitsDisagree` | src/baker/services/inventory_fifo.py:223-230 | two oversold base units on which the two totals differ |
| `StockOverview.SalesKeepRows` | src/baker/services/inventory_fifo.py:223-230 | sales keep at most one negative row per chip, which the agreement relies on |
| `StockOverview.PassKeepsRows` | src/baker/api/reconciliations.py:699-787 | waste, surplus and clearing keep it too |
| `StockOverview.ReconciliationKeepsRows` | src/baker/api/reconciliations.py:635-787 | so does a whole submission |
| `OrderStock.TakenAndLeft` | src/baker/services/inventory_fifo.py:130-167 | lot by lot nothing is lost, and what was taken and what was missing make up the quantity |
| `OrderStock.DeductMovesStock` | src/baker/services/order_stock.py:28-227 | what lots and negative balance of an option lose is in the order's movements, and a whole deduction takes or owes every unit asked for |
| `OrderStock.DeductOkIff` | src/baker/services/order_stock.py:28-151 | refused if and only if a chip belongs to another product or, where overselling is not allowed, an option has fewer items than all lines ask for |
| `OrderStock.OptionIs` | src/baker/services/order_stock.py:65-80 | a line's option is its chip, else what its price means, else base stock |
| `OrderStock.UnitsAreAsked` | src/baker/services/order_stock.py:82-121 | the units counted are those of lines of products on display that say so, or say nothing in a counter sale or stock count |
| `OrderStock.DeductTakesAsked` | src/baker/services/order_stock.py:28-227 | an accepted deduction lowers each option's net position by exactly those units and owes only what is not there |
| `OrderStock.UnaskedTakesNothing` | src/baker/services/order_stock.py:113-151 | an order none of whose lines asks for stock leaves every shelf alone and is refused only for a foreign chip |
| `OrderStock.UnitOrderIsOneLine` | src/baker/services/order_stock.py:28-227 | a unit order of a stock count is never refused and takes what the count's sale says |
| `OrderStock.UntakeAllLots` | src/baker/services/order_stock.py:263-279 | each lot gets back what the movements took from it |
| `OrderStock.ReversedMovesStock` | src/baker/services/order_stock.py:229-310 | the items come back and the negative balance grows by what was oversold, once for each of its rows |
| `OrderStock.ReverseUndoesIff` | src/baker/services/order_stock.py:229-310 | reversing at once restores every lot, and the whole shelf if and only if nothing was oversold |
| `OrderStock.EditExchangesIff` | src/baker/api/orders.py:1379-1406 | an edit exchanges the old movements for the new ones if and only if the old ones oversold nothing of the option; else the net position is short by the oversale, once for itself and once for each row |
| `OrderStock.ResaveKeepsNetIff` | src/baker/api/orders.py:1379-1406 | saving an order again with its own lines, wherever the stock stands, is never refused and keeps an option's net position if and only if the order oversold nothing of it |
| `OrderStock.ResavedOversaleGrows` | src/baker/services/order_stock.py:287-294 | one unit owed becomes three when its order is saved again |
| `OrderStock.ShortEditEmptiesTheShelf` | src/baker/api/orders.py:1397-1406 | an edit from one unit to three with two there is saved with the shelf empty |
| `OrderStock.CancelledAt` | src/baker/services/order_stock.py:313-377 | of all movements of an option only the first is given back |
| `OrderStock.CancelTwice` | src/baker/services/order_stock.py:329-334 | cancelling an order again changes nothing |
| `OrderStock.CancelMovesNet` | src/baker/services/order_stock.py:336-375 | a cancellation adds the first movement's quantity less the first oversale, and what the rows of the negative balance lose by it |
| `OrderStock.CancelOneLineIff` | src/baker/services/order_stock.py:313-377 | an option sold on one line comes back whole if and only if the line took its units from stock and the rows still lose what it oversold |
| `OrderStock.CancelManyLinesIff` | src/baker/services/order_stock.py:329-334 | an option sold on several covered lines comes back whole if and only if the lines after the first took nothing of it |
| `OrderStock.PaidInFullIff` | src/baker/services/order_stock.py:359-375 | with one row at most an oversale is paid back if and only if as much is still owed |
| `OrderStock.SecondLineIsLost` | src/baker/services/order_stock.py:329-334 | two lines of one unit each: cancelling gives one back |
| `OrderStock.UntakenOrderAddsStock` | src/baker/services/order_stock.py:326-358 | an order of two that took nothing adds two when it is cancelled |
| `OrderStock.SellLine` | src/baker/services/order_stock.py:138-188 | one line takes first in, first out, logs its movement and owes the rest, or stops short with the items taken |
| `OrderStock.AutoDecrementStock` | src/baker/services/order_stock.py:28-227 | nothing for an order with sale movements, else the deduction of its lines in order |
| `OrderStock.ReverseOrderStockForEdit` | src/baker/services/order_stock.py:229-310 | the two loops leave the reversed stock, and the order's sale movements are gone |
| `OrderStock.EditOrderStock` | src/baker/api/orders.py:1392-1406 | reversal and re-deduction together; a failing one keeps its writes and warns |
| `OrderStock.RestoreStockForOrder` | src/baker/services/order_stock.py:313-377 | the loop gives back option by option, each once |
| `StockRuns.Serve` | src/baker/api/stock.py:141-284 | every request, accepted or refused, keeps negative-balance rows non-empty and at most one per chip, and every lot that some order's movement took from |
| `StockRuns.Run` | src/baker/services/inventory_fifo.py:212-230 | over any run of restocks, wastes, adjustments, sales, stock counts and orders confirmed, edited and cancelled that stays so; the two totals of a product then agree exactly when base stock has at most one row, and an edit of any order exchanges its movements exactly where it had oversold nothing |
| `LoginLimiter.Limiter.IsRateBlocked` | src/baker/api/auth.py:89-98 | blocked until the stored expiry; an expired block is forgotten |
| `LoginLimiter.Limiter.RecordRateFailure` | src/baker/api/auth.py:101-112 | prune, append, and on the third recent failure block and start afresh |
| `LoginLimiter.Limiter.RecordLoginFailure` | src/baker/api/auth.py:163-174 | the fifth failure in a row and every later one locks for thirty minutes |
| `LoginLimiter.Limiter.Decide` | src/baker/api/auth.py:195-246 | the guards in their order, and what each branch does to the dictionaries |
| `LoginLimiter.Limiter.Login` | src/baker/api/auth.py:187-246 | on a monotonic clock every attempt keeps the dictionaries in agreement with the whole history, and locks on the fifth failure in a row |
| `LoginLimiter.AttemptFollows` | src/baker/api/auth.py:101-112 | the pruned window decides as the unpruned history does |
| `LoginLimiter.RecentTwice` | src/baker/api/auth.py:105-107 | pruning early and again later is pruning once |
| `LoginLimiter.StandingPositions` | src/baker/api/auth.py:109-117 | the standing failures are exactly those no success or block followed |
| `LoginLimiter.BlockStartsIff` | src/baker/api/auth.py:101-112 | a failure blocks if and only if it is the third within 60 s since the last success or block |
| `LoginLimiter.RateLimitedIff` | src/baker/api/auth.py:76-88 | an attempt is turned away exactly in the 300 s after a block of its address |
| `LoginLimiter.StrikesAreStanding` | src/baker/api/auth.py:163-180 | the counter of an account is the number of its failures that no success of it followed |
| `LoginLimiter.NoFailureWhileBlocked` | src/baker/api/auth.py:197-202 | no failure is recorded in the 300 s after a block |
| `LoginLimiter.NoFourInAWindow` | src/baker/api/auth.py:76-112 | no 60 s span holds four recorded failures without a success between them |
| `Reports.AccountTotals` | src/baker/commands/report.py:532-548 | debit and credit columns of one account over the period |
| `Reports.PeriodIsInclusive` | src/baker/commands/report.py:532-548 | entries dated on the first or the last day of a period are in it |
| `Reports.Section` | src/baker/commands/report.py:550-564 | a section totals the active accounts of its type, skipped zero balances included |
| `Reports.BalanceSheet` | src/baker/commands/report.py:517-574 | the three totals as sums along the chart of accounts |
| `Reports.NetOfKind` | src/baker/commands/report.py:308-326 | the per-type totals, added line by line, are sums along the chart |
| `Reports.IncomeStatement` | src/baker/commands/report.py:295-356 | the separate cost-of-goods query cancels out: net income is income minus expenses |
| `Reports.WholeChartIsZero` | src/baker/db/schema/_helpers.py:218-224 | balanced entries over known accounts sum to zero along the chart |
| `Reports.ChartSplits` | src/baker/commands/report.py:550-564 | active and deactivated accounts of the five types make up the chart |
| `Reports.AccountingEquation` | src/baker/commands/report.py:489-574 | assets minus liabilities and equity equal net income if and only if deactivated real accounts hold nothing |
| `Reports.DeactivatedAccountIsMissed` | src/baker/commands/report.py:543-545 | 100 on a deactivated 1101 leaves the sheet at 0 against 100 with no income |
| `Tspl.SetBit` | src/baker/usb_printer.py:211-222 | setting a bit sets that bit and no other |
| `Tspl.PackByte` | src/baker/usb_printer.py:212-220 | a byte holds eight thresholded pixels, leftmost first |
| `Tspl.PackBitmap` | src/baker/usb_printer.py:205-222 | unpacking the 72 * h bytes gives the thresholded image |
| `Tspl.BitmapBits` | src/baker/usb_printer.py:205-222 | bit by bit, 72 bytes a row, leftmost pixel in the highest bit, set from brightness 128 on |
| `Tspl.BitmapIsDetermined` | src/baker/usb_printer.py:202-222 | an image has one bitmap |
| `Tspl.HeightTenths` | src/baker/usb_printer.py:224-235 | the printed height is the nearest tenth of a millimetre, ties to the even one |
| `Tspl.SizeLineReads` | src/baker/usb_printer.py:224-239 | read as a number the size line gives that height, whole part and one decimal |
| `Tspl.FeedLineReads` | src/baker/usb_printer.py:258-262 | read as a number the feed line gives the trail length |
| `Tspl.FrameBytes` | src/baker/usb_printer.py:228-259 | a command is a line that ends in carriage return and line feed, a bitmap its five numbers with commas and its bytes |
| `Tspl.DecimalStandsFor` | src/baker/usb_printer.py:239-262 | numbers are written in decimal without leading zeros |
| `Tspl.CommandsBack` | src/baker/usb_printer.py:228-259 | framed commands read back as they were, whatever bytes the bitmap holds |
| `Tspl.Preamble` | src/baker/usb_printer.py:239-248 | the six setting lines, with a 3 mm gap for labels and none for rolls |
| `Tspl.JobCommands` | src/baker/usb_printer.py:228-264 | the commands of a job one by one |
| `Tspl.PngToTspl` | src/baker/usb_printer.py:164-264 | the bytes read back as the commands of the job, unknown modes as labels, feed only on rolls, and their bitmap unpacks to the thresholded image |
| `Ipp.AttributeRoundTrip` | src/baker/ipp_client.py:59-68 | an encoded attribute reads back by section 3.1.4 of RFC 8010 |
| `Ipp.AttributesRoundTrip` | src/baker/ipp_client.py:59-105 | so does any list of them, up to the next delimiter tag |
| `Ipp.MessageRoundTrip` | src/baker/ipp_client.py:71-112 | header, attributes and document come back whole, tag bytes in the document included |
| `Ipp.AttributeBytes` | src/baker/ipp_client.py:59-68 | tag, big-endian lengths, name and value in the order of section 3.1.4 of RFC 8010 |
| `Ipp.PrintJobAttributesAre` | src/baker/ipp_client.py:95-105 | the six attributes with their value tags |
| `Ipp.RequestBytes` | src/baker/ipp_client.py:88-112 | version 2.0, operation 2, the id big-endian, group tag 1, the attributes, end tag 3, the document |
| `Ipp.AppendAttributes` | src/baker/ipp_client.py:95-105 | the buffer grows by the encoded attributes in order |
| `Ipp.IppClient.BuildPrintJobRequest` | src/baker/ipp_client.py:71-112 | the request reads back as print-job, its request id, the six attributes and the document; the id is used up even when a field cannot be encoded |
| `Ipp.StatusRoundTrip` | src/baker/ipp_client.py:115-131 | status and request id of a response are read as they were written |
| `PrintQueue.RunIsOrderly` | src/baker/api/printing.py:250-331 | over every interleaving the page stream is one block per turn, a prefix of that job's pages, and an answered work ticket has one log row exactly when a page came out |
| `PrintQueue.SomeThreadCanMove` | src/baker/api/printing.py:257-314 | while a request is unanswered some thread can move |
| `PrintQueue.ScriptRuns` | src/baker/api/printing.py:255-331 | a request alone at the printer runs to its answer, sending its pages up to the first failure |
| `PrintQueue.PrintServer.PrintReceipt` | src/baker/api/printing.py:255-331 | pages go out in order up to the first failure, success means all of them, and the log gains a row under the same rule |

## Left out

- `edit_transaction`, drawer reconciliation and breakdown snapshots: they rewrite amounts of recorded entries; the drawer theorems are about open, cash-in, cash-out, close, auto-close and postings by other services.
- Journal sync for orders, payments, expenses and cost of goods: a posting step is any balanced entry, with the active drawer's link or without one; which accounts a service books is not modelled, nor that some of them delete or rewrite an unlocked entry, so the append-only result is about the drawer endpoints and postings.
- Floating point: amounts and prices are integers, with prices normalized to whole VND beforehand; tolerances of half a cent become equality.
- Dates and times as text: instants are ordered integers, a due date is an uninterpreted string and an order's year is given.
- Changing or deleting a customer (`update_customer`, `delete_customer`), staff names, deposits, payments, address library, order history.
- Text: whitespace is ASCII whitespace; the folding of names is an arbitrary function.
- `Orders.CreateOrder`: does not model creation straight into delivered; its stock effect is `OrderStock.AutoDecrementStock`, its journal effects touch no code, total or summary.
- `Orders.EditOrder`: does not model the journal resync of an edit; its stock reversal and re-deduction are `OrderStock.EditOrderStock`, on the stock tables.
- `Orders.EditOrderByContact`: takes the phone and name as given, whether from the patch or from the order row.
- `WorkItems.TransitionWorkItemStatus`: does not model the history of an automatic order status change, nor its stock effects, which are `OrderStock.AutoDecrementStock` and `OrderStock.RestoreStockForOrder` on the stock tables, nor the rollback when the deduction fails.
- `Orders.CreateReconciliationOrder`: does not model payment, movement and journal rows of a unit order; its stock effect is `ReconciliationApi.SellOneUnit`.
- `ReconciliationApi.SellOneUnit`: takes the product by id; the lookup by product code is left out, here and in `OrderStock`, where a line says which product it means.
- Per-item inventory rows and the remaining quantity of a lot are one count per lot; events, waste and surplus movements and the session rows of a stock count are not kept, and the cost journal of an oversale is not modelled.
- A product is on display or not; that the stock count also asks for it to be active is part of that.
- The overview's sort of buckets by price, its labels and its paging.
- `Duplicates.ListDuplicateCustomers`: does not model the order of groups or the order counts shown with them.
- `ReconciliationApi.SubmitReconciliation`: assumes that a pickup code can be drawn for every unit order; a failing draw, which `Orders.CreateReconciliationOrder` models, rolls the whole submission back.
- Due-date basis, markup line and cost-of-goods audit of the reports: queries over order dates that do not enter the accounting equation.
- `PrintQueue.RunIsOrderly`: assumes that the insert into print_log succeeds, as the source treats a failure there as best effort.
- `Ipp.IppClient.BuildPrintJobRequest`: takes the path of the printer URL as already parsed.
- PNG decoding, resizing, page splitting, USB and HTTP transport, retries: inputs are the grayscale rows and whether each page was taken; a page written in part counts as failed.
- Passwords, tokens, sessions and roles: a login attempt says whether its password was right.
- CLI commands other than the two reports, configuration, catalog, photos, blanks, events and the mobile shells: plain reads and writes.
