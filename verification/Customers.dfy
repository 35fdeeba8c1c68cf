/**
 Merging customers: a merge relinks orders, unites phone lists, refreshes the year summary and
 deletes the source; a batch merge repeats that inside one transaction.
 */
module Customers {
  import opened Common
  import opened Shop

  // ----- order links -----

  /** The orders with every order of a source moved to the target. */
  function Relinked(orders: seq<Order>, sources: set<nat>, target: nat): (r: seq<Order>)
    ensures |r| == |orders|
    ensures forall i :: 0 <= i < |orders| ==>
              r[i] == if orders[i].customer.Some? && orders[i].customer.value in sources
                      then orders[i].(customer := Some(target)) else orders[i]
  {
    seq(|orders|, i requires 0 <= i < |orders| =>
      if orders[i].customer.Some? && orders[i].customer.value in sources
      then orders[i].(customer := Some(target)) else orders[i])
  }

  /** How many orders belong to one of the customers. */
  function OrderCount(orders: seq<Order>, owners: set<nat>): nat {
    if orders == [] then 0
    else
      var last := orders[|orders| - 1];
      OrderCount(orders[..|orders| - 1], owners)
      + if last.customer.Some? && last.customer.value in owners then 1 else 0
  }

  /** Order by order: those of one of the customers count. */
  lemma {:induction false} OrderCountByOrder(o: Order, orders: seq<Order>, owners: set<nat>)
    ensures OrderCount([], owners) == 0
    ensures OrderCount([o] + orders, owners)
            == OrderCount(orders, owners) + if exists c :: c in owners && o.customer == Some(c) then 1 else 0
  {
    if orders == [] {
      assert [o] + orders == [o] && [o][..0] == [];
    } else {
      var n := |orders| - 1;
      assert ([o] + orders)[..n + 1] == [o] + orders[..n];
      OrderCountByOrder(o, orders[..n], owners);
    }
  }

  /** Moving one customer's orders leaves everybody else's where they were. */
  lemma {:induction false} OrderCountRelinked(orders: seq<Order>, moved: set<nat>, target: nat, s: nat)
    requires s !in moved && s != target
    ensures OrderCount(Relinked(orders, moved, target), {s}) == OrderCount(orders, {s})
    ensures OrderCount(orders, moved + {s}) == OrderCount(orders, moved) + OrderCount(orders, {s})
  {
    if orders == [] {
    } else {
      var n := |orders| - 1;
      OrderCountRelinked(orders[..n], moved, target, s);
      assert Relinked(orders, moved, target)[..n] == Relinked(orders[..n], moved, target);
    }
  }

  /**
   The target ends with its own orders and all of the sources', no source keeps one, and nobody else's count moves.
   */
  lemma {:induction false} RelinkMovesAll(orders: seq<Order>, sources: set<nat>, target: nat, others: set<nat>)
    requires target !in sources && others !! sources + {target}
    ensures OrderCount(Relinked(orders, sources, target), {target}) == OrderCount(orders, sources + {target})
    ensures OrderCount(Relinked(orders, sources, target), sources) == 0
    ensures OrderCount(Relinked(orders, sources, target), others) == OrderCount(orders, others)
  {
    if orders == [] {
    } else {
      var n := |orders| - 1;
      RelinkMovesAll(orders[..n], sources, target, others);
      assert Relinked(orders, sources, target)[..n] == Relinked(orders[..n], sources, target);
    }
  }

  /** A merge neither makes nor loses orders or value: the target's year is the sum of both. */
  lemma {:induction false} AggregateAfterMerge(orders: seq<Order>, source: nat, target: nat, year: nat)
    requires source != target
    ensures var r, t, s := Aggregate(Relinked(orders, {source}, target), target, year),
                           Aggregate(orders, target, year), Aggregate(orders, source, year);
            r == YearSummary(t.orderCount + s.orderCount, t.totalVolume + s.totalVolume)
    ensures Aggregate(Relinked(orders, {source}, target), source, year) == YearSummary(0, 0)
  {
    if orders == [] {
    } else {
      var n := |orders| - 1;
      AggregateAfterMerge(orders[..n], source, target, year);
      assert Relinked(orders, {source}, target)[..n] == Relinked(orders[..n], {source}, target);
    }
  }

  // ----- phones -----

  predicate HasRows(phones: map<nat, PhoneRow>, c: nat) {
    exists id :: id in phones && phones[id].owner == c
  }

  /** The non-empty phones on a customer's rows. */
  function RowPhones(phones: map<nat, PhoneRow>, c: nat): set<string> {
    set id | id in phones && phones[id].owner == c && phones[id].phone != "" :: phones[id].phone
  }

  /** Every phone string on a customer's rows, the empty one included. */
  function AllPhones(phones: map<nat, PhoneRow>, c: nat): set<string> {
    set id | id in phones && phones[id].owner == c :: phones[id].phone
  }

  lemma PhonesAfterInsert(phones: map<nat, PhoneRow>, id: nat, row: PhoneRow)
    requires id !in phones
    ensures AllPhones(phones[id := row], row.owner) == AllPhones(phones, row.owner) + {row.phone}
    ensures RowPhones(phones[id := row], row.owner)
            == RowPhones(phones, row.owner) + if row.phone == "" then {} else {row.phone}
  {
    var after := phones[id := row];
    assert after[id] == row;
    forall p | p in AllPhones(phones, row.owner) ensures p in AllPhones(after, row.owner) {
      var i :| i in phones && phones[i].owner == row.owner && phones[i].phone == p;
      assert after[i] == phones[i];
    }
    forall p | p in RowPhones(phones, row.owner) ensures p in RowPhones(after, row.owner) {
      var i :| i in phones && phones[i].owner == row.owner && phones[i].phone == p;
      assert after[i] == phones[i];
    }
  }

  /** A customer's phones: those on its rows, or the legacy column when it has no rows. */
  function EffectivePhones(phones: map<nat, PhoneRow>, customers: map<nat, Customer>, c: nat): set<string>
    requires c in customers
  {
    if HasRows(phones, c) then RowPhones(phones, c)
    else if customers[c].phone == "" then {} else {customers[c].phone}
  }

  ghost predicate NoDuplicates(phones: map<nat, PhoneRow>, c: nat) {
    forall i, j :: i in phones && j in phones && i != j && phones[i].owner == c && phones[j].owner == c ==>
                     phones[i].phone != phones[j].phone
  }

  ghost predicate IsPrimary(phones: map<nat, PhoneRow>, c: nat, id: nat) {
    id in phones && phones[id].owner == c && phones[id].primary
  }

  ghost predicate SolePrimary(phones: map<nat, PhoneRow>, c: nat, id: nat) {
    IsPrimary(phones, c, id) && forall other :: IsPrimary(phones, c, other) ==> other == id
  }

  ghost predicate OnePrimary(phones: map<nat, PhoneRow>, c: nat) {
    exists id :: SolePrimary(phones, c, id)
  }

  /** The phones of a customer's rows below id `n`, in id order, primaries or the others. */
  function Listed(phones: map<nat, PhoneRow>, c: nat, primary: bool, n: nat): seq<string> {
    if n == 0 then []
    else
      var id := n - 1;
      Listed(phones, c, primary, id)
      + if id in phones && phones[id].owner == c && phones[id].primary == primary then [phones[id].phone] else []
  }

  /** A customer's phones with the primary rows first, each group in id order. */
  function InQueryOrder(phones: map<nat, PhoneRow>, c: nat, n: nat): seq<string> {
    Listed(phones, c, true, n) + Listed(phones, c, false, n)
  }

  lemma {:induction false} ListedHoldsRows(phones: map<nat, PhoneRow>, c: nat, primary: bool, n: nat)
    ensures forall p :: p in Listed(phones, c, primary, n) <==>
              exists id :: id < n && id in phones && phones[id] == PhoneRow(c, p, primary)
    ensures Listed(phones, c, primary, n) != [] ==> Listed(phones, c, primary, n)[0] in Listed(phones, c, primary, n)
  {
    if n == 0 {
    } else {
      ListedHoldsRows(phones, c, primary, n - 1);
    }
  }

  /** The query lists exactly the phones on the customer's rows. */
  lemma QueryHoldsRows(phones: map<nat, PhoneRow>, c: nat, n: nat)
    requires forall id :: id in phones ==> id < n
    ensures InQueryOrder(phones, c, n) == [] <==> !HasRows(phones, c)
    ensures (set p | p in InQueryOrder(phones, c, n) && p != "") == RowPhones(phones, c)
  {
    ListedHoldsRows(phones, c, true, n);
    ListedHoldsRows(phones, c, false, n);
    var q := InQueryOrder(phones, c, n);
    forall id | id in phones && phones[id].owner == c ensures phones[id].phone in q {
      assert phones[id] == PhoneRow(c, phones[id].phone, phones[id].primary);
      assert phones[id].phone in Listed(phones, c, phones[id].primary, n);
    }
    forall p | p in q ensures exists id :: id in phones && phones[id].owner == c && phones[id].phone == p {
      assert p in Listed(phones, c, true, n) || p in Listed(phones, c, false, n);
    }
    if q != [] { assert q[0] in q; }
  }

  /** The first row of the query: the one primary when there is exactly one. */
  lemma {:induction false} FirstListed(phones: map<nat, PhoneRow>, c: nat, id: nat, n: nat)
    requires IsPrimary(phones, c, id) && id < n
    requires forall other :: IsPrimary(phones, c, other) ==> other == id
    ensures Listed(phones, c, true, n) == [phones[id].phone]
  {
    if id == n - 1 {
      NoneListed(phones, c, n - 1);
    } else {
      FirstListed(phones, c, id, n - 1);
      assert !IsPrimary(phones, c, n - 1);
    }
  }

  lemma {:induction false} NoneListed(phones: map<nat, PhoneRow>, c: nat, n: nat)
    requires forall other :: IsPrimary(phones, c, other) ==> n <= other
    ensures Listed(phones, c, true, n) == []
  {
    if n == 0 {
    } else {
      assert !IsPrimary(phones, c, n - 1);
      NoneListed(phones, c, n - 1);
    }
  }

  // ----- which phone comes first -----

  /** The order of the phone query: primary rows before the others, each by id. */
  predicate Precedes(phones: map<nat, PhoneRow>, a: nat, b: nat)
    requires a in phones && b in phones
  {
    (phones[a].primary && !phones[b].primary) || (phones[a].primary == phones[b].primary && a < b)
  }

  /** The first of a customer's rows, or of those with a phone in them. */
  ghost predicate FirstRow(phones: map<nat, PhoneRow>, c: nat, id: nat, anyPhone: bool) {
    && id in phones && phones[id].owner == c && (anyPhone || phones[id].phone != "")
    && forall other :: other in phones && phones[other].owner == c
                       && (anyPhone || phones[other].phone != "") && other != id ==>
         Precedes(phones, id, other)
  }

  /** Of two rows one precedes the other, a primary one first and then the one with the smaller id. */
  lemma PrecedesIsTotal(phones: map<nat, PhoneRow>, a: nat, b: nat)
    requires a in phones && b in phones && a != b
    ensures Precedes(phones, a, b) <==> !Precedes(phones, b, a)
    ensures phones[a].primary == phones[b].primary ==> (Precedes(phones, a, b) <==> a < b)
    ensures phones[a].primary && !phones[b].primary ==> Precedes(phones, a, b)
  {
  }

  /** A customer with a row has a first one, and one with a phone has a first row with a phone. */
  lemma {:induction false} FirstRowExists(phones: map<nat, PhoneRow>, c: nat, id: nat, anyPhone: bool)
    requires id in phones && phones[id].owner == c && (anyPhone || phones[id].phone != "")
    ensures exists first: nat :: FirstRow(phones, c, first, anyPhone)
    decreases if phones[id].primary then 0 else 1, id
  {
    if other :| other in phones && phones[other].owner == c && (anyPhone || phones[other].phone != "")
                && Precedes(phones, other, id) {
      FirstRowExists(phones, c, other, anyPhone);
    } else {
      assert FirstRow(phones, c, id, anyPhone);
    }
  }

  function FirstNonEmpty(list: seq<string>): string {
    if list == [] then "" else if list[0] != "" then list[0] else FirstNonEmpty(list[1..])
  }

  lemma {:induction false} FirstNonEmptyConcat(a: seq<string>, b: seq<string>)
    ensures FirstNonEmpty(a + b) == if FirstNonEmpty(a) != "" then FirstNonEmpty(a) else FirstNonEmpty(b)
  {
    if a == [] {
      assert a + b == b;
    } else {
      assert (a + b)[1..] == a[1..] + b;
      FirstNonEmptyConcat(a[1..], b);
    }
  }

  /** The first phone among the rows below `n` of one kind. */
  lemma {:induction false} FirstOfListed(phones: map<nat, PhoneRow>, c: nat, primary: bool, n: nat, id: nat)
    requires id < n && id in phones && phones[id].owner == c && phones[id].primary == primary && phones[id].phone != ""
    requires forall other :: other in phones && other < id && phones[other].owner == c
                             && phones[other].primary == primary ==>
               phones[other].phone == ""
    ensures FirstNonEmpty(Listed(phones, c, primary, n)) == phones[id].phone
  {
    if id == n - 1 {
      NoneWithPhone(phones, c, primary, id);
      FirstNonEmptyConcat(Listed(phones, c, primary, id), [phones[id].phone]);
    } else {
      FirstOfListed(phones, c, primary, n - 1, id);
      var m := n - 1;
      if m in phones && phones[m].owner == c && phones[m].primary == primary {
        FirstNonEmptyConcat(Listed(phones, c, primary, m), [phones[m].phone]);
      } else {
        assert Listed(phones, c, primary, m) + [] == Listed(phones, c, primary, m);
      }
    }
  }

  lemma {:induction false} NoneWithPhone(phones: map<nat, PhoneRow>, c: nat, primary: bool, n: nat)
    requires forall other :: other in phones && other < n && phones[other].owner == c
                             && phones[other].primary == primary ==>
               phones[other].phone == ""
    ensures FirstNonEmpty(Listed(phones, c, primary, n)) == ""
  {
    if n == 0 {
    } else {
      var m := n - 1;
      NoneWithPhone(phones, c, primary, m);
      if m in phones && phones[m].owner == c && phones[m].primary == primary {
        FirstNonEmptyConcat(Listed(phones, c, primary, m), [phones[m].phone]);
      } else {
        assert Listed(phones, c, primary, m) + [] == Listed(phones, c, primary, m);
      }
    }
  }

  /** The first phone of the query is that of the first row with one. */
  lemma FirstPhoneOfQuery(phones: map<nat, PhoneRow>, c: nat, n: nat, id: nat)
    requires (forall i :: i in phones ==> i < n) && FirstRow(phones, c, id, false)
    ensures FirstNonEmpty(InQueryOrder(phones, c, n)) == phones[id].phone
  {
    FirstNonEmptyConcat(Listed(phones, c, true, n), Listed(phones, c, false, n));
    FirstOfListed(phones, c, phones[id].primary, n, id);
    if !phones[id].primary {
      NoneWithPhone(phones, c, true, n);
    }
  }

  lemma {:induction false} HeadOfListed(phones: map<nat, PhoneRow>, c: nat, primary: bool, n: nat, id: nat)
    requires id < n && id in phones && phones[id].owner == c && phones[id].primary == primary
    requires forall other :: other in phones && other < id && phones[other].owner == c ==>
               phones[other].primary != primary
    ensures Listed(phones, c, primary, n) != [] && Listed(phones, c, primary, n)[0] == phones[id].phone
  {
    if id == n - 1 {
      NothingListedBelow(phones, c, primary, id);
    } else {
      HeadOfListed(phones, c, primary, n - 1, id);
    }
  }

  lemma {:induction false} NothingListedBelow(phones: map<nat, PhoneRow>, c: nat, primary: bool, n: nat)
    requires forall other :: other in phones && other < n && phones[other].owner == c ==>
               phones[other].primary != primary
    ensures Listed(phones, c, primary, n) == []
  {
    if n == 0 {
    } else {
      NothingListedBelow(phones, c, primary, n - 1);
    }
  }

  /** The query starts with the first row. */
  lemma FirstRowOfQuery(phones: map<nat, PhoneRow>, c: nat, n: nat, id: nat)
    requires (forall i :: i in phones ==> i < n) && FirstRow(phones, c, id, true)
    ensures InQueryOrder(phones, c, n) != [] && InQueryOrder(phones, c, n)[0] == phones[id].phone
  {
    HeadOfListed(phones, c, phones[id].primary, n, id);
    if !phones[id].primary {
      NothingListedBelow(phones, c, true, n);
    }
  }

  // ----- whose number a merge makes the primary one -----

  /** The number on the one primary row. */
  ghost predicate PrimaryNumber(phones: map<nat, PhoneRow>, c: nat, number: string) {
    exists id :: SolePrimary(phones, c, id) && phones[id].phone == number
  }

  /** A customer's own number: that of its primary row, or of the legacy column without rows. */
  ghost predicate OwnNumber(phones: map<nat, PhoneRow>, customers: map<nat, Customer>, c: nat, number: string)
    requires c in customers
  {
    if HasRows(phones, c) then PrimaryNumber(phones, c, number) else number != "" && customers[c].phone == number
  }

  /** The number a source offers first: that of its first row with a phone, or of the legacy column without rows. */
  ghost predicate Offers(phones: map<nat, PhoneRow>, customers: map<nat, Customer>, c: nat, number: string)
    requires c in customers
  {
    if HasRows(phones, c) then exists id :: FirstRow(phones, c, id, false) && phones[id].phone == number
    else number != "" && customers[c].phone == number
  }

  ghost predicate Bare(phones: map<nat, PhoneRow>, customers: map<nat, Customer>, c: nat)
    requires c in customers
  {
    !HasRows(phones, c) && customers[c].phone == ""
  }

  // ----- the merge -----

  /** `phones` is `before` plus new rows that all belong to `target`. */
  ghost predicate OnlyAddsTo(before: map<nat, PhoneRow>, phones: map<nat, PhoneRow>, target: nat) {
    && (forall id :: id in before ==> id in phones && phones[id] == before[id])
    && forall id :: id in phones && id !in before ==> phones[id].owner == target && phones[id].phone != ""
  }

  /** INSERT INTO customer_phones. */
  method InsertPhone(db: ShopDb, row: PhoneRow)
    requires forall id :: id in db.phones ==> id < db.nextPhone
    modifies db`phones, db`nextPhone
    ensures db.nextPhone == old(db.nextPhone) + 1
    ensures db.phones == old(db.phones)[old(db.nextPhone) := row]
  {
    db.phones := db.phones[db.nextPhone := row];
    db.nextPhone := db.nextPhone + 1;
  }

  function Materialized(phones: map<nat, PhoneRow>, next: nat, customers: map<nat, Customer>,
                        c: nat): map<nat, PhoneRow>
    requires c in customers
  {
    if HasRows(phones, c) || customers[c].phone == "" then phones
    else phones[next := PhoneRow(c, customers[c].phone, true)]
  }

  /** A target without rows first gets its legacy phone, if any, as a primary row. */
  method MaterializeLegacyPhone(db: ShopDb, target: nat) returns (noPhones: bool)
    requires db.Valid() && target in db.customers
    modifies db`phones, db`nextPhone
    ensures db.Valid() && OnlyAddsTo(old(db.phones), db.phones, target)
    ensures noPhones <==> !HasRows(db.phones, target)
    ensures RowPhones(db.phones, target) == old(EffectivePhones(db.phones, db.customers, target))
    ensures old(HasRows(db.phones, target)) ==> db.phones == old(db.phones)
    ensures !old(HasRows(db.phones, target)) && !noPhones ==>
              SolePrimary(db.phones, target, old(db.nextPhone)) && NoDuplicates(db.phones, target)
    ensures noPhones ==> db.phones == old(db.phones) && db.nextPhone == old(db.nextPhone)
    ensures db.phones == Materialized(old(db.phones), old(db.nextPhone), db.customers, target)
  {
    var have := AllPhones(db.phones, target);
    noPhones := have == {};
    assert noPhones <==> !HasRows(db.phones, target) by {
      if HasRows(db.phones, target) {
        var id :| id in db.phones && db.phones[id].owner == target;
        assert db.phones[id].phone in have;
      }
    }
    var legacy := db.customers[target].phone;
    if noPhones && legacy != "" {
      PhonesAfterInsert(db.phones, db.nextPhone, PhoneRow(target, legacy, true));
      InsertPhone(db, PhoneRow(target, legacy, true));
      assert db.phones[db.nextPhone - 1].owner == target;
      noPhones := false;
    }
  }

  function NonEmpty(phones: seq<string>): set<string> {
    set p | p in phones && p != ""
  }

  /** Where copying stands: ids `first..next` were added to `before`, carrying the phones `done`. */
  ghost predicate Copied(before: map<nat, PhoneRow>, phones: map<nat, PhoneRow>, first: nat, next: nat, target: nat,
                         done: set<string>, promote: bool) {
    && (forall id :: id in phones ==> id < next)
    && first <= next && (first == next ==> phones == before)
    && OnlyAddsTo(before, phones, target)
    && RowPhones(phones, target) == RowPhones(before, target) + done
    && (NoDuplicates(before, target) ==> NoDuplicates(phones, target))
    && forall id :: IsPrimary(phones, target, id) <==>
         IsPrimary(before, target, id) || (promote && first < next && id == first)
  }

  /** A row with a phone the owner does not carry makes no duplicate. */
  lemma StillNoDuplicates(phones: map<nat, PhoneRow>, id: nat, row: PhoneRow)
    requires NoDuplicates(phones, row.owner) && id !in phones && row.phone !in AllPhones(phones, row.owner)
    ensures NoDuplicates(phones[id := row], row.owner)
  {
    var after := phones[id := row];
    forall i, j | i in after && j in after && i != j && after[i].owner == row.owner && after[j].owner == row.owner
      ensures after[i].phone != after[j].phone
    {
      assert i != id ==> after[i].phone in AllPhones(phones, row.owner);
      assert j != id ==> after[j].phone in AllPhones(phones, row.owner);
    }
  }

  /** One more row changes who is primary only by itself. */
  lemma PrimaryAfterInsert(phones: map<nat, PhoneRow>, id: nat, row: PhoneRow, c: nat)
    requires id !in phones
    ensures forall i: nat :: IsPrimary(phones[id := row], c, i)
                             <==> IsPrimary(phones, c, i) || (i == id && row.owner == c && row.primary)
  {
    var after := phones[id := row];
    forall i: nat
      ensures IsPrimary(after, c, i) <==> IsPrimary(phones, c, i) || (i == id && row.owner == c && row.primary) {
      assert i != id ==> (i in after <==> i in phones);
    }
  }

  lemma CopyOne(before: map<nat, PhoneRow>, phones: map<nat, PhoneRow>, first: nat, next: nat, target: nat,
                done: set<string>, promote: bool, phone: string)
    requires Copied(before, phones, first, next, target, done, promote)
    requires forall id :: id in before ==> id < first
    requires phone != "" && phone !in AllPhones(phones, target)
    ensures Copied(before, phones[next := PhoneRow(target, phone, promote && first == next)], first, next + 1, target,
                   done + {phone}, promote)
  {
    var row := PhoneRow(target, phone, promote && first == next);
    var after := phones[next := row];
    PhonesAfterInsert(phones, next, row);
    PrimaryAfterInsert(phones, next, row, target);
    if NoDuplicates(before, target) {
      StillNoDuplicates(phones, next, row);
    }
    hide RowPhones, AllPhones, IsPrimary, NoDuplicates;
    assert RowPhones(after, target) == RowPhones(before, target) + (done + {phone});
    assert OnlyAddsTo(before, after, target) by {
      forall id | id in before ensures id in after && after[id] == before[id] {
        assert id != next;
      }
    }
    forall id: nat
      ensures IsPrimary(after, target, id)
              <==> IsPrimary(before, target, id) || (promote && first < next + 1 && id == first)
    {
      assert IsPrimary(phones, target, id)
             <==> IsPrimary(before, target, id) || (promote && first < next && id == first);
    }
    assert NoDuplicates(before, target) ==> NoDuplicates(after, target);
  }

  /** A phone no row of the owner carries makes one more. */
  lemma OneMorePhone(phones: map<nat, PhoneRow>, id: nat, row: PhoneRow)
    requires id !in phones && row.phone != "" && row.phone !in AllPhones(phones, row.owner)
    ensures AllPhones(phones[id := row], row.owner) == AllPhones(phones, row.owner) + {row.phone}
    ensures |RowPhones(phones[id := row], row.owner)| == |RowPhones(phones, row.owner)| + 1
  {
    PhonesAfterInsert(phones, id, row);
  }

  /** A phone the owner has already adds nothing. */
  lemma KnownPhone(before: map<nat, PhoneRow>, phones: map<nat, PhoneRow>, first: nat, next: nat, target: nat,
                   done: set<string>, promote: bool, phone: string)
    requires Copied(before, phones, first, next, target, done, promote)
    requires phone != "" && phone in AllPhones(phones, target)
    ensures Copied(before, phones, first, next, target, done + {phone}, promote)
  {
    assert phone in RowPhones(phones, target);
    assert RowPhones(before, target) + (done + {phone}) == RowPhones(before, target) + done;
  }

  lemma NonEmptyNext(rows: seq<string>, i: nat)
    requires i < |rows|
    ensures NonEmpty(rows[..i + 1]) == NonEmpty(rows[..i]) + if rows[i] == "" then {} else {rows[i]}
  {
    assert rows[..i + 1] == rows[..i] + [rows[i]];
  }

  /** The phones to be added: those not there yet, each once, in the order given. */
  function Missing(rows: seq<string>, have: set<string>): seq<string> {
    if rows == [] then []
    else
      var before, last := Missing(rows[..|rows| - 1], have), rows[|rows| - 1];
      if last == "" || last in have || last in before then before else before + [last]
  }

  /** The first of them, when nothing was there, is the first phone given. */
  lemma {:induction false} FirstMissing(rows: seq<string>)
    ensures Missing(rows, {}) == [] <==> FirstNonEmpty(rows) == ""
    ensures Missing(rows, {}) != [] ==> Missing(rows, {})[0] == FirstNonEmpty(rows)
  {
    if rows == [] {
    } else {
      var n := |rows| - 1;
      FirstMissing(rows[..n]);
      FirstNonEmptyConcat(rows[..n], [rows[n]]);
      assert rows[..n] + [rows[n]] == rows;
    }
  }

  /** The new rows carry the missing phones, the first one as primary when there is a promotion. */
  ghost predicate CopiedInOrder(phones: map<nat, PhoneRow>, first: nat, target: nat, missing: seq<string>,
                                promote: bool) {
    forall id :: first <= id < first + |missing| ==>
      id in phones && phones[id] == PhoneRow(target, missing[id - first], promote && id == first)
  }

  lemma CopyOneInOrder(phones: map<nat, PhoneRow>, first: nat, target: nat, missing: seq<string>, promote: bool,
                       phone: string)
    requires CopiedInOrder(phones, first, target, missing, promote)
    ensures CopiedInOrder(phones[first + |missing| := PhoneRow(target, phone, promote && missing == [])], first, target,
                          missing + [phone], promote)
  {
  }

  function Texts(list: seq<string>): set<string> {
    set p | p in list
  }

  /** How one more given phone extends the missing ones. */
  lemma MissingNext(rows: seq<string>, had: set<string>, i: nat, have: set<string>)
    requires i < |rows| && have == had + Texts(Missing(rows[..i], had))
    ensures var before := Missing(rows[..i], had);
            && Missing(rows[..i + 1], had) == (if rows[i] == "" || rows[i] in have then before else before + [rows[i]])
            && (rows[i] != "" && rows[i] !in have ==>
                  have + {rows[i]} == had + Texts(Missing(rows[..i + 1], had)))
  {
    assert rows[..i + 1][..i] == rows[..i];
  }

  lemma NothingMissing(phones: map<nat, PhoneRow>, first: nat, target: nat, had: set<string>, promote: bool)
    ensures Missing([], had) == [] && CopiedInOrder(phones, first, target, [], promote)
  {
  }

  lemma NothingCopied(phones: map<nat, PhoneRow>, next: nat, target: nat, promote: bool)
    requires forall id :: id in phones ==> id < next
    ensures Copied(phones, phones, next, next, target, {}, promote)
  {
  }

  /** Where the copy loop stands after the first `i` of the given phones. */
  ghost predicate Copying(before: map<nat, PhoneRow>, phones: map<nat, PhoneRow>, first: nat, target: nat,
                          rows: seq<string>, i: nat, promote: bool, have: set<string>, added: nat)
    requires i <= |rows|
  {
    var missing := Missing(rows[..i], AllPhones(before, target));
    && Copied(before, phones, first, first + added, target, NonEmpty(rows[..i]), promote)
    && CopiedInOrder(phones, first, target, missing, promote) && added == |missing|
    && have == AllPhones(phones, target) == AllPhones(before, target) + Texts(missing)
    && |RowPhones(phones, target)| == |RowPhones(before, target)| + added
  }

  lemma CopyingStarts(phones: map<nat, PhoneRow>, first: nat, target: nat, rows: seq<string>, promote: bool)
    requires forall id :: id in phones ==> id < first
    ensures Copying(phones, phones, first, target, rows, 0, promote, AllPhones(phones, target), 0)
  {
    hide Copied, CopiedInOrder, Missing, RowPhones, AllPhones, NonEmpty;
    NothingCopied(phones, first, target, promote);
    NothingListed();
    NothingMissing(phones, first, target, AllPhones(phones, target), promote);
    assert rows[..0] == [] && AllPhones(phones, target) + Texts([]) == AllPhones(phones, target);
  }

  lemma CopyingAdds(before: map<nat, PhoneRow>, phones: map<nat, PhoneRow>, first: nat, target: nat, rows: seq<string>,
                    i: nat, promote: bool, have: set<string>, added: nat)
    requires i < |rows| && Copying(before, phones, first, target, rows, i, promote, have, added)
    requires forall id :: id in before ==> id < first
    requires rows[i] != "" && rows[i] !in have && first + added !in phones
    ensures Copying(before, phones[first + added := PhoneRow(target, rows[i], promote && added == 0)],
                    first, target, rows, i + 1,
                    promote, have + {rows[i]}, added + 1)
  {
    hide Copied, CopiedInOrder, Missing, RowPhones, AllPhones, NonEmpty, Texts;
    var had := AllPhones(before, target);
    NonEmptyNext(rows, i);
    MissingNext(rows, had, i, have);
    OneMorePhone(phones, first + added, PhoneRow(target, rows[i], promote && added == 0));
    CopyOneInOrder(phones, first, target, Missing(rows[..i], had), promote, rows[i]);
    CopyOne(before, phones, first, first + added, target, NonEmpty(rows[..i]), promote, rows[i]);
  }

  lemma CopyingSkips(before: map<nat, PhoneRow>, phones: map<nat, PhoneRow>, first: nat, target: nat, rows: seq<string>,
                     i: nat, promote: bool, have: set<string>, added: nat)
    requires i < |rows| && Copying(before, phones, first, target, rows, i, promote, have, added)
    requires rows[i] == "" || rows[i] in have
    ensures Copying(before, phones, first, target, rows, i + 1, promote, have, added)
  {
    hide Copied, CopiedInOrder, Missing, RowPhones, AllPhones, NonEmpty, Texts;
    NonEmptyNext(rows, i);
    MissingNext(rows, AllPhones(before, target), i, have);
    if rows[i] != "" {
      KnownPhone(before, phones, first, first + added, target, NonEmpty(rows[..i]), promote, rows[i]);
    } else {
      assert NonEmpty(rows[..i]) + {} == NonEmpty(rows[..i]);
    }
  }

  /** Copies phones the target does not have yet; with `promote`, the first copy becomes primary. */
  method CopyPhones(db: ShopDb, target: nat, rows: seq<string>, promote: bool) returns (added: nat)
    requires db.Valid() && target in db.customers
    modifies db`phones, db`nextPhone
    ensures db.Valid() && db.nextPhone == old(db.nextPhone) + added
    ensures Copied(old(db.phones), db.phones, old(db.nextPhone), db.nextPhone, target, NonEmpty(rows), promote)
    ensures |RowPhones(db.phones, target)| == |RowPhones(old(db.phones), target)| + added
    ensures added == |Missing(rows, AllPhones(old(db.phones), target))|
    ensures CopiedInOrder(db.phones, old(db.nextPhone), target,
                          Missing(rows, AllPhones(old(db.phones), target)), promote)
  {
    hide Copying, RowPhones, AllPhones, NonEmpty, CustomersKeyed, OrdersKeyed, ItemsKeyed;
    var have := AllPhones(db.phones, target);
    added := 0;
    CopyingStarts(db.phones, db.nextPhone, target, rows, promote);
    for i := 0 to |rows|
      invariant db.Valid() && db.nextPhone == old(db.nextPhone) + added
      invariant Copying(old(db.phones), db.phones, old(db.nextPhone), target, rows, i, promote, have, added)
    {
      var phone := rows[i];
      if phone != "" && phone !in have {
        CopyingAdds(old(db.phones), db.phones, old(db.nextPhone), target, rows, i, promote, have, added);
        InsertPhone(db, PhoneRow(target, phone, promote && added == 0));
        have := have + {phone};
        added := added + 1;
      } else {
        CopyingSkips(old(db.phones), db.phones, old(db.nextPhone), target, rows, i, promote, have, added);
      }
    }
    CopyingEnds(old(db.phones), db.phones, old(db.nextPhone), target, rows, promote, have, added);
  }

  lemma CopyingEnds(before: map<nat, PhoneRow>, phones: map<nat, PhoneRow>, first: nat, target: nat, rows: seq<string>,
                    promote: bool, have: set<string>, added: nat)
    requires Copying(before, phones, first, target, rows, |rows|, promote, have, added)
    ensures Copied(before, phones, first, first + added, target, NonEmpty(rows), promote)
    ensures |RowPhones(phones, target)| == |RowPhones(before, target)| + added
    ensures added == |Missing(rows, AllPhones(before, target))|
    ensures CopiedInOrder(phones, first, target, Missing(rows, AllPhones(before, target)), promote)
  {
    assert rows[..|rows|] == rows;
  }

  lemma NothingListed()
    ensures NonEmpty([]) == {}
  {
  }

  /** The years in which a customer has orders. */
  function YearsOf(orders: seq<Order>, c: nat): set<nat> {
    set i | 0 <= i < |orders| && orders[i].customer == Some(c) :: orders[i].year
  }

  /** Recomputes the summary of every year the customer has orders in; the order of the years is immaterial. */
  method RecomputeYears(db: ShopDb, c: nat) returns (years: set<nat>)
    modifies db`summary
    ensures years == YearsOf(db.orders, c)
    ensures forall key :: key in db.summary <==> key in old(db.summary) || (key.0 == c && key.1 in years)
    ensures forall key :: key in db.summary ==>
              db.summary[key]
              == if key.0 == c && key.1 in years then Aggregate(db.orders, c, key.1) else old(db.summary)[key]
  {
    years := YearsOf(db.orders, c);
    var rest := years;
    while rest != {}
      invariant rest <= years
      invariant forall key :: key in db.summary <==> key in old(db.summary) || (key.0 == c && key.1 in years - rest)
      invariant forall key :: key in db.summary ==>
                  db.summary[key] == if key.0 == c && key.1 in years - rest then Aggregate(db.orders, c, key.1)
                                     else old(db.summary)[key]
      decreases |rest|
    {
      var year :| year in rest;
      db.RecomputeYearSummary(c, year);
      rest := rest - {year};
    }
  }

  /** Aggregates of third customers survive a merge. */
  lemma AggregateElsewhere(orders: seq<Order>, source: nat, target: nat, c: nat, year: nat)
    requires c != source && c != target
    ensures Aggregate(Relinked(orders, {source}, target), c, year) == Aggregate(orders, c, year)
  {
    AggregateSame(Relinked(orders, {source}, target), orders, c, year);
  }

  /** A year without orders counts nothing, merged or not. */
  lemma AggregateQuietYear(orders: seq<Order>, source: nat, target: nat, year: nat)
    requires forall i :: 0 <= i < |orders| ==> !Counts(Relinked(orders, {source}, target)[i], target, year)
    ensures Aggregate(Relinked(orders, {source}, target), target, year) == Aggregate(orders, target, year)
  {
    var after := Relinked(orders, {source}, target);
    AggregateNone(after, target, year);
    forall i | 0 <= i < |orders| ensures !Counts(orders[i], target, year) {
      assert !Counts(after[i], target, year);
    }
    AggregateNone(orders, target, year);
  }

  /** What a merge leaves in the summary keeps it exact, including years only the source had. */
  lemma SummaryAfterMerge(orders: seq<Order>, before: map<(nat, nat), YearSummary>, after: map<(nat, nat), YearSummary>,
                          source: nat, target: nat, years: set<nat>)
    requires SummaryExact(orders, before) && source != target
    requires years == YearsOf(Relinked(orders, {source}, target), target)
    requires forall key :: key in after <==> key.0 != source && (key in before || (key.0 == target && key.1 in years))
    requires forall key :: key in after ==>
               after[key]
               == if key.0 == target && key.1 in years then Aggregate(Relinked(orders, {source}, target), target, key.1)
                             else before[key]
    ensures SummaryExact(Relinked(orders, {source}, target), after)
  {
    var merged := Relinked(orders, {source}, target);
    forall key | key in after ensures after[key] == Aggregate(merged, key.0, key.1) {
      if key.0 != target {
        AggregateElsewhere(orders, source, target, key.0, key.1);
      } else if key.1 !in years {
        forall i | 0 <= i < |orders| ensures !Counts(merged[i], target, key.1) {
          assert merged[i].customer == Some(target) ==> orders[i].year in years;
        }
        AggregateQuietYear(orders, source, target, key.1);
      }
    }
    forall i | 0 <= i < |merged| && merged[i].customer.Some?
      ensures (merged[i].customer.value, merged[i].year) in after {
      if merged[i].customer == Some(target) {
        assert orders[i].year in years;
      }
    }
  }

  /** The legacy column mirrors the primary row, or is empty when the customer has no rows. */
  ghost predicate LegacyMatches(phones: map<nat, PhoneRow>, customers: map<nat, Customer>, c: nat)
    requires c in customers
  {
    if HasRows(phones, c) then exists id :: SolePrimary(phones, c, id) && customers[c].phone == phones[id].phone
    else customers[c].phone == ""
  }

  /** No phone twice, and one primary mirrored by the legacy column once there are rows. */
  ghost predicate PhonesRight(phones: map<nat, PhoneRow>, customers: map<nat, Customer>, c: nat)
    requires c in customers
  {
    NoDuplicates(phones, c) && (HasRows(phones, c) ==> LegacyMatches(phones, customers, c))
  }

  /** Whoever is left and had its phones right still has. */
  ghost predicate PhonesKept(phones0: map<nat, PhoneRow>, customers0: map<nat, Customer>,
                             phones: map<nat, PhoneRow>, customers: map<nat, Customer>) {
    forall c :: c in customers ==>
                  c in customers0 && (PhonesRight(phones0, customers0, c) ==> PhonesRight(phones, customers, c))
  }

  /**
   Whose number stands on the target's primary row and in its legacy column after a merge: the target's own if
   it had one; when it had no phone at all, the first that the source offered.
   */
  ghost predicate NumberFollows(phones0: map<nat, PhoneRow>, customers0: map<nat, Customer>, phones: map<nat, PhoneRow>,
                                customers: map<nat, Customer>, source: nat, target: nat)
    requires source in customers0 && target in customers0 && target in customers
  {
    && (forall n :: OwnNumber(phones0, customers0, target, n) ==>
          PrimaryNumber(phones, target, n) && customers[target].phone == n)
    && (Bare(phones0, customers0, target) ==>
          && (forall n :: Offers(phones0, customers0, source, n) ==>
                PrimaryNumber(phones, target, n) && customers[target].phone == n)
          && (EffectivePhones(phones0, customers0, source) == {} ==> Bare(phones, customers, target)))
  }

  /** Everything a merge leaves alone: other customers' rows, names, links and summaries. */
  ghost predicate OthersUntouched(phones0: map<nat, PhoneRow>, phones: map<nat, PhoneRow>,
                                  customers0: map<nat, Customer>, customers: map<nat, Customer>,
                                  source: nat, target: nat) {
    && customers.Keys == customers0.Keys - {source}
    && (forall c :: c in customers && c != target ==> customers[c] == customers0[c])
    && (forall id :: id in phones0 && phones0[id].owner != source ==> id in phones && phones[id] == phones0[id])
    && (forall id :: id in phones ==>
          phones[id].owner != source && if id in phones0 then phones[id] == phones0[id] else phones[id].owner == target)
  }

  /**
   Whose number is the primary one after the phones are merged: the target's own if it has one; when it has no
   phone at all, the first the source offers.
   */
  ghost predicate NumbersMerged(phones0: map<nat, PhoneRow>, customers0: map<nat, Customer>, phones: map<nat, PhoneRow>,
                                source: nat, target: nat)
    requires source in customers0 && target in customers0
  {
    && (forall n :: OwnNumber(phones0, customers0, target, n) ==> PrimaryNumber(phones, target, n))
    && (Bare(phones0, customers0, target) ==>
          && (forall n :: Offers(phones0, customers0, source, n) ==> PrimaryNumber(phones, target, n))
          && (EffectivePhones(phones0, customers0, source) == {} ==> !HasRows(phones, target)))
  }

  /** The phones copied from a source, as the loop gets them. */
  function SourceList(phones: map<nat, PhoneRow>, next: nat, customers: map<nat, Customer>, source: nat): seq<string>
    requires source in customers
  {
    var rows := InQueryOrder(phones, source, next);
    if rows == [] && customers[source].phone != "" then [customers[source].phone] else rows
  }

  lemma OwnNumberStays(phones0: map<nat, PhoneRow>, next0: nat, customers0: map<nat, Customer>,
                       phones: map<nat, PhoneRow>, first: nat, next: nat, target: nat, done: set<string>,
                       promote: bool, n: string)
    requires target in customers0 && next0 !in phones0
    requires var mid := Materialized(phones0, next0, customers0, target);
             Copied(mid, phones, first, next, target, done, promote) && (promote <==> !HasRows(mid, target))
    requires OwnNumber(phones0, customers0, target, n)
    ensures PrimaryNumber(phones, target, n)
  {
    hide RowPhones, NoDuplicates;
    var mid := Materialized(phones0, next0, customers0, target);
    var id: nat;
    if HasRows(phones0, target) {
      id :| SolePrimary(phones0, target, id) && phones0[id].phone == n;
    } else {
      id := next0;
      assert mid[id].owner == target;
      assert forall other :: IsPrimary(mid, target, other) ==> other == id;
    }
    assert SolePrimary(mid, target, id) && mid[id].phone == n;
    assert SolePrimary(phones, target, id);
  }

  /** What a source offers first is the first phone of the list. */
  lemma OfferIsFirst(phones: map<nat, PhoneRow>, next: nat, customers: map<nat, Customer>, source: nat)
    requires source in customers && forall id :: id in phones ==> id < next
    ensures forall n :: Offers(phones, customers, source, n) ==>
              FirstNonEmpty(SourceList(phones, next, customers, source)) == n
    ensures forall n :: Offers(phones, customers, source, n) ==> n != ""
  {
    hide InQueryOrder, RowPhones;
    QueryHoldsRows(phones, source, next);
    forall n | Offers(phones, customers, source, n)
      ensures FirstNonEmpty(SourceList(phones, next, customers, source)) == n != ""
    {
      if HasRows(phones, source) {
        var id :| FirstRow(phones, source, id, false) && phones[id].phone == n;
        FirstPhoneOfQuery(phones, source, next, id);
      }
    }
  }

  lemma OfferIsTaken(phones0: map<nat, PhoneRow>, next0: nat, customers0: map<nat, Customer>,
                     phones: map<nat, PhoneRow>, next: nat, source: nat, target: nat)
    requires source in customers0 && target in customers0 && Bare(phones0, customers0, target)
    requires forall id :: id in phones0 ==> id < next0
    requires var rows := SourceList(phones0, next0, customers0, source);
             && Copied(phones0, phones, next0, next, target, NonEmpty(rows), true)
             && next == next0 + |Missing(rows, {})| && CopiedInOrder(phones, next0, target, Missing(rows, {}), true)
    ensures forall n :: Offers(phones0, customers0, source, n) ==> PrimaryNumber(phones, target, n)
    ensures EffectivePhones(phones0, customers0, source) == {} ==> !HasRows(phones, target)
  {
    hide Missing, SourceList, NonEmpty, RowPhones, NoDuplicates, EffectivePhones, Offers;
    var rows := SourceList(phones0, next0, customers0, source);
    OfferIsFirst(phones0, next0, customers0, source);
    FirstMissing(rows);
    forall n | Offers(phones0, customers0, source, n) ensures PrimaryNumber(phones, target, n) {
      assert SolePrimary(phones, target, next0) && phones[next0].phone == n;
    }
    if EffectivePhones(phones0, customers0, source) == {} {
      NothingOffered(phones0, next0, customers0, source);
    }
  }

  lemma NothingOffered(phones: map<nat, PhoneRow>, next: nat, customers: map<nat, Customer>, source: nat)
    requires source in customers && (forall id :: id in phones ==> id < next)
             && EffectivePhones(phones, customers, source) == {}
    ensures FirstNonEmpty(SourceList(phones, next, customers, source)) == ""
  {
    hide SourceList, EffectivePhones;
    var rows := SourceList(phones, next, customers, source);
    ListedPhones(phones, next, customers, source);
    assert forall p :: p in rows && p != "" ==> p in NonEmpty(rows);
    forall i | 0 <= i < |rows| ensures rows[i] == "" {
      assert rows[i] in rows;
    }
    NoPhoneFirst(rows);
  }

  lemma {:induction false} NoPhoneFirst(rows: seq<string>)
    requires forall i :: 0 <= i < |rows| ==> rows[i] == ""
    ensures FirstNonEmpty(rows) == ""
  {
    if rows != [] {
      NoPhoneFirst(rows[1..]);
    }
  }

  /** Step 2 of a merge: the target's rows take over the phones of both customers. */
  method MergePhones(db: ShopDb, target: nat, source: nat) returns (added: nat)
    requires db.Valid() && target in db.customers && source in db.customers && target != source
    modifies db`phones, db`nextPhone
    ensures db.Valid() && OnlyAddsTo(old(db.phones), db.phones, target)
    ensures RowPhones(db.phones, target) == old(EffectivePhones(db.phones, db.customers, target))
                                          + old(EffectivePhones(db.phones, db.customers, source))
    ensures |RowPhones(db.phones, target)| == |old(EffectivePhones(db.phones, db.customers, target))| + added
    ensures old(NoDuplicates(db.phones, target)) ==> NoDuplicates(db.phones, target)
    ensures old(OnePrimary(db.phones, target) || !HasRows(db.phones, target)) ==>
              OnePrimary(db.phones, target) || !HasRows(db.phones, target)
    ensures NumbersMerged(old(db.phones), db.customers, db.phones, source, target)
  {
    hide CustomersKeyed, OrdersKeyed, ItemsKeyed, OnePrimary, NumbersMerged, Copied, CopiedInOrder, Missing, NonEmpty,
      InQueryOrder, Materialized, RowPhones, AllPhones, EffectivePhones, NoDuplicates, OnlyAddsTo, SolePrimary;
    var noPhones := MaterializeLegacyPhone(db, target);
    var rows := InQueryOrder(db.phones, source, db.nextPhone);
    if rows == [] && db.customers[source].phone != "" {
      rows := [db.customers[source].phone];
    }
    ListedPhones(db.phones, db.nextPhone, db.customers, source);
    SourceKeepsPhones(old(db.phones), db.phones, db.customers, target, source);
    ghost var first, before := db.nextPhone, db.phones;
    added := CopyPhones(db, target, rows, noPhones);
    CopyEffects(old(db.phones), before, db.phones, first, db.nextPhone, target, NonEmpty(rows), noPhones);
    CopyMergesNumbers(old(db.phones), old(db.nextPhone), db.customers, first,
                      db.phones, db.nextPhone, source, target, noPhones);
    PrimaryAfterCopy(before, db.phones, first, db.nextPhone, target, NonEmpty(rows), noPhones);
    OnePrimaryKnown(old(db.phones), before, old(db.nextPhone), target);
  }

  lemma OnePrimaryKnown(phones0: map<nat, PhoneRow>, mid: map<nat, PhoneRow>, next0: nat, target: nat)
    requires HasRows(phones0, target) ==> mid == phones0
    requires !HasRows(phones0, target) && HasRows(mid, target) ==>
               SolePrimary(mid, target, next0) && NoDuplicates(mid, target)
    ensures OnePrimary(phones0, target) || !HasRows(phones0, target) ==>
              OnePrimary(mid, target) || !HasRows(mid, target)
    ensures NoDuplicates(phones0, target) ==> NoDuplicates(mid, target)
  {
  }

  lemma SourceKeepsPhones(phones0: map<nat, PhoneRow>, phones: map<nat, PhoneRow>, customers: map<nat, Customer>,
                          target: nat, source: nat)
    requires OnlyAddsTo(phones0, phones, target) && source in customers && source != target
    ensures EffectivePhones(phones, customers, source) == EffectivePhones(phones0, customers, source)
  {
    hide OnlyAddsTo, RowPhones;
    RowsOfOthers(phones0, phones, target, source);
  }

  lemma CopyEffects(phones0: map<nat, PhoneRow>, before: map<nat, PhoneRow>, phones: map<nat, PhoneRow>, first: nat,
                    next: nat, target: nat, done: set<string>, promote: bool)
    requires OnlyAddsTo(phones0, before, target) && Copied(before, phones, first, next, target, done, promote)
    ensures OnlyAddsTo(phones0, phones, target) && RowPhones(phones, target) == RowPhones(before, target) + done
    ensures NoDuplicates(before, target) ==> NoDuplicates(phones, target)
  {
    hide RowPhones, NoDuplicates;
  }

  lemma ListedPhones(phones: map<nat, PhoneRow>, next: nat, customers: map<nat, Customer>, source: nat)
    requires source in customers && forall id :: id in phones ==> id < next
    ensures NonEmpty(SourceList(phones, next, customers, source)) == EffectivePhones(phones, customers, source)
  {
    hide InQueryOrder;
    QueryHoldsRows(phones, source, next);
  }

  lemma CopyMergesNumbers(phones0: map<nat, PhoneRow>, next0: nat, customers0: map<nat, Customer>, first: nat,
                          phones: map<nat, PhoneRow>, next: nat, source: nat, target: nat, promote: bool)
    requires source in customers0 && target in customers0 && forall id :: id in phones0 ==> id < next0
    requires var mid := Materialized(phones0, next0, customers0, target);
             var rows := SourceList(mid, first, customers0, source);
             && (promote <==> !HasRows(mid, target)) && (promote ==> first == next0)
             && Copied(mid, phones, first, next, target, NonEmpty(rows), promote)
             && next == first + |Missing(rows, AllPhones(mid, target))|
             && CopiedInOrder(phones, first, target, Missing(rows, AllPhones(mid, target)), promote)
    ensures NumbersMerged(phones0, customers0, phones, source, target)
  {
    hide Copied, CopiedInOrder, Missing, OwnNumber, Offers, PrimaryNumber, EffectivePhones, SourceList, NonEmpty;
    var mid := Materialized(phones0, next0, customers0, target);
    var rows := SourceList(mid, first, customers0, source);
    forall n | OwnNumber(phones0, customers0, target, n) ensures PrimaryNumber(phones, target, n) {
      OwnNumberStays(phones0, next0, customers0, phones, first, next, target, NonEmpty(rows), promote, n);
    }
    if Bare(phones0, customers0, target) {
      NoPhonesAtAll(phones0, target);
      OfferIsTaken(phones0, next0, customers0, phones, next, source, target);
    }
  }

  lemma NoPhonesAtAll(phones: map<nat, PhoneRow>, c: nat)
    ensures !HasRows(phones, c) ==> AllPhones(phones, c) == {} && RowPhones(phones, c) == {}
  {
  }

  /** A copy leaves one primary row where there was one, and makes one where there was no row. */
  lemma PrimaryAfterCopy(before: map<nat, PhoneRow>, phones: map<nat, PhoneRow>, first: nat, next: nat, target: nat,
                         done: set<string>, promote: bool)
    requires Copied(before, phones, first, next, target, done, promote) && (promote <==> !HasRows(before, target))
    ensures OnePrimary(before, target) || !HasRows(before, target) ==>
              OnePrimary(phones, target) || !HasRows(phones, target)
  {
    hide RowPhones, NoDuplicates;
    if promote && first < next {
      assert SolePrimary(phones, target, first);
    } else if OnePrimary(before, target) {
      var id :| SolePrimary(before, target, id);
      assert SolePrimary(phones, target, id);
    }
  }

  /** Rows added to one customer leave the phones of another as they were. */
  lemma RowsOfOthers(before: map<nat, PhoneRow>, phones: map<nat, PhoneRow>, target: nat, c: nat)
    requires OnlyAddsTo(before, phones, target) && c != target
    ensures HasRows(phones, c) == HasRows(before, c) && RowPhones(phones, c) == RowPhones(before, c)
  {
    assert forall id :: id in phones && phones[id].owner == c ==> id in before && before[id] == phones[id];
  }

  function WithoutOwner(phones: map<nat, PhoneRow>, owner: nat): map<nat, PhoneRow> {
    map id | id in phones && phones[id].owner != owner :: phones[id]
  }

  lemma RowsAfterDelete(phones: map<nat, PhoneRow>, owner: nat, c: nat)
    requires c != owner
    ensures HasRows(WithoutOwner(phones, owner), c) == HasRows(phones, c)
    ensures RowPhones(WithoutOwner(phones, owner), c) == RowPhones(phones, c)
    ensures NoDuplicates(phones, c) ==> NoDuplicates(WithoutOwner(phones, owner), c)
    ensures OnePrimary(phones, c) ==> OnePrimary(WithoutOwner(phones, owner), c)
    ensures forall n :: PrimaryNumber(phones, c, n) ==> PrimaryNumber(WithoutOwner(phones, owner), c, n)
  {
    var after := WithoutOwner(phones, owner);
    assert forall id :: id in phones && phones[id].owner == c ==> id in after && after[id] == phones[id];
    forall n | PrimaryNumber(phones, c, n) ensures PrimaryNumber(after, c, n) {
      var id :| SolePrimary(phones, c, id) && phones[id].phone == n;
      assert forall other :: IsPrimary(after, c, other) ==> IsPrimary(phones, c, other);
      assert SolePrimary(after, c, id);
    }
    if OnePrimary(phones, c) {
      var id :| SolePrimary(phones, c, id);
      assert forall other :: IsPrimary(after, c, other) ==> IsPrimary(phones, c, other);
      assert SolePrimary(after, c, id);
    }
  }

  /** Step 5: the legacy column takes the first phone of the query, or becomes empty. */
  method SyncLegacyPhone(db: ShopDb, c: nat)
    requires c in db.customers && forall id :: id in db.phones ==> id < db.nextPhone
    modifies db`customers
    ensures db.customers.Keys == old(db.customers).Keys
    ensures forall other :: other in db.customers && other != c ==> db.customers[other] == old(db.customers)[other]
    ensures OnePrimary(db.phones, c) || !HasRows(db.phones, c) ==> LegacyMatches(db.phones, db.customers, c)
    ensures !HasRows(db.phones, c) ==> db.customers[c].phone == ""
    ensures forall id :: FirstRow(db.phones, c, id, true) ==> db.customers[c].phone == db.phones[id].phone
  {
    var listed := InQueryOrder(db.phones, c, db.nextPhone);
    QueryHoldsRows(db.phones, c, db.nextPhone);
    var primary := if listed == [] then "" else listed[0];
    db.customers := db.customers[c := db.customers[c].(phone := primary)];
    if OnePrimary(db.phones, c) {
      ghost var id :| SolePrimary(db.phones, c, id);
      FirstListed(db.phones, c, id, db.nextPhone);
      assert SolePrimary(db.phones, c, id) && primary == db.phones[id].phone;
    }
    forall id | FirstRow(db.phones, c, id, true) ensures primary == db.phones[id].phone {
      FirstRowOfQuery(db.phones, c, db.nextPhone, id);
    }
  }

  lemma UntouchedByMerge(phones0: map<nat, PhoneRow>, phones1: map<nat, PhoneRow>,
                         customers0: map<nat, Customer>, customers: map<nat, Customer>, source: nat, target: nat)
    requires OnlyAddsTo(phones0, phones1, target) && source != target
    requires customers.Keys == customers0.Keys - {source}
    requires forall c :: c in customers && c != target ==> customers[c] == customers0[c]
    ensures OthersUntouched(phones0, WithoutOwner(phones1, source), customers0, customers, source, target)
  {
    var phones := WithoutOwner(phones1, source);
    forall id | id in phones
      ensures phones[id].owner != source
              && if id in phones0 then phones[id] == phones0[id] else phones[id].owner == target
    {
      assert id in phones1;
    }
  }

  /** Foreign keys still hold once the source is gone and nothing points at it. */
  lemma KeysAfterMerge(orders: seq<Order>, phones: map<nat, PhoneRow>, next: nat, customers: set<nat>, source: nat,
                       target: nat)
    requires target in customers && source != target
    requires PhonesKeyed(phones, next, customers) && OrdersKeyed(orders, customers)
    ensures PhonesKeyed(WithoutOwner(phones, source), next, customers - {source})
    ensures OrdersKeyed(Relinked(orders, {source}, target), customers)
    ensures OrdersKeyed(Relinked(orders, {source}, target), customers - {source})
  {
  }

  /** A merge deletes no row of the target, so duplicates it had before are still there. */
  lemma DuplicatesStay(phones0: map<nat, PhoneRow>, phones: map<nat, PhoneRow>, customers0: map<nat, Customer>,
                       customers: map<nat, Customer>, source: nat, target: nat)
    requires OthersUntouched(phones0, phones, customers0, customers, source, target) && source != target
    ensures NoDuplicates(phones, target) ==> NoDuplicates(phones0, target)
  {
  }

  lemma SameRowsSamePhones(phones0: map<nat, PhoneRow>, phones: map<nat, PhoneRow>, c: nat)
    requires forall id :: id in phones0 && phones0[id].owner == c ==> id in phones && phones[id] == phones0[id]
    requires forall id :: id in phones && phones[id].owner == c ==> id in phones0 && phones0[id] == phones[id]
    ensures HasRows(phones, c) == HasRows(phones0, c) && NoDuplicates(phones, c) == NoDuplicates(phones0, c)
    ensures forall id :: SolePrimary(phones0, c, id) ==>
                           SolePrimary(phones, c, id) && id in phones0 && id in phones && phones[id] == phones0[id]
  {
    assert forall id :: IsPrimary(phones, c, id) <==> IsPrimary(phones0, c, id);
  }

  /** A merge keeps every remaining customer's phones right, whatever the source's were like. */
  lemma MergeKeepsPhones(phones0: map<nat, PhoneRow>, phones: map<nat, PhoneRow>, customers0: map<nat, Customer>,
                         customers: map<nat, Customer>, source: nat, target: nat)
    requires OthersUntouched(phones0, phones, customers0, customers, source, target)
    requires target in customers
    requires NoDuplicates(phones0, target) ==> NoDuplicates(phones, target)
    requires OnePrimary(phones0, target) || !HasRows(phones0, target) ==> LegacyMatches(phones, customers, target)
    ensures PhonesKept(phones0, customers0, phones, customers)
  {
    hide NoDuplicates, SolePrimary;
    forall c | c in customers && PhonesRight(phones0, customers0, c) ensures PhonesRight(phones, customers, c) {
      if c == target {
        LegacyGivesPrimary(phones0, customers0, target);
      } else {
        SameRowsSamePhones(phones0, phones, c);
      }
    }
  }

  lemma PhonesKeptOnce(phones: map<nat, PhoneRow>, customers: map<nat, Customer>)
    ensures PhonesKept(phones, customers, phones, customers)
  {
  }

  lemma PhonesKeptTwice(phones0: map<nat, PhoneRow>, customers0: map<nat, Customer>, phones1: map<nat, PhoneRow>,
                        customers1: map<nat, Customer>, phones2: map<nat, PhoneRow>, customers2: map<nat, Customer>)
    requires PhonesKept(phones0, customers0, phones1, customers1)
             && PhonesKept(phones1, customers1, phones2, customers2)
    ensures PhonesKept(phones0, customers0, phones2, customers2)
  {
    hide PhonesRight;
  }

  /** `_merge_customer_into_target`: one source into the target, inside the caller's transaction. */
  method MergeCustomerIntoTarget(db: ShopDb, target: nat, source: nat)
    returns (moved: nat, added: nat, years: set<nat>)
    requires db.Valid() && target in db.customers && source in db.customers && target != source
    modifies db`orders, db`phones, db`nextPhone, db`customers, db`summary
    ensures db.Valid() && target in db.customers
    ensures db.orders == Relinked(old(db.orders), {source}, target) && moved == OrderCount(old(db.orders), {source})
    ensures years == YearsOf(db.orders, target)
    ensures OthersUntouched(old(db.phones), db.phones, old(db.customers), db.customers, source, target)
    ensures EffectivePhones(db.phones, db.customers, target)
         == old(EffectivePhones(db.phones, db.customers, target))
            + old(EffectivePhones(db.phones, db.customers, source))
    ensures |EffectivePhones(db.phones, db.customers, target)|
            == |old(EffectivePhones(db.phones, db.customers, target))| + added
    ensures NoDuplicates(db.phones, target) <==> old(NoDuplicates(db.phones, target))
    ensures old(OnePrimary(db.phones, target) || !HasRows(db.phones, target)) ==>
              LegacyMatches(db.phones, db.customers, target)
    ensures PhonesKept(old(db.phones), old(db.customers), db.phones, db.customers)
    ensures HasRows(db.phones, target) || db.customers[target].phone == ""
    ensures NumberFollows(old(db.phones), old(db.customers), db.phones, db.customers, source, target)
    ensures old(SummaryExact(db.orders, db.summary)) ==> SummaryExact(db.orders, db.summary)
    ensures forall key :: key in db.summary ==> key.0 != source
  {
    hide SummaryExact, OnePrimary, LegacyMatches, PhonesKept, HasRows, NoDuplicates, OthersUntouched, OnlyAddsTo,
      RowPhones, WithoutOwner, PhonesKeyed, OrdersKeyed, ItemsKeyed, NumbersMerged, NumberFollows,
      PrimaryNumber, Bare;
    moved := CountOrders(db, source);
    KeysAfterMerge(db.orders, db.phones, db.nextPhone, db.customers.Keys, source, target);
    db.orders := Relinked(db.orders, {source}, target);
    added := MergePhones(db, target, source);
    years := RefreshSummary(db, target, source, old(db.orders));
    assert old(SummaryExact(db.orders, db.summary)) ==> SummaryExact(db.orders, db.summary);
    ghost var phones := db.phones;
    KeysAfterMerge(old(db.orders), phones, db.nextPhone, db.customers.Keys, source, target);
    DeleteSource(db, target, source);
    UntouchedByMerge(old(db.phones), phones, old(db.customers), db.customers, source, target);
    DuplicatesStay(old(db.phones), db.phones, old(db.customers), db.customers, source, target);
    MergeKeepsPhones(old(db.phones), db.phones, old(db.customers), db.customers, source, target);
    NumbersFollow(old(db.phones), old(db.customers), phones, db.phones, db.customers, source, target);
  }

  lemma NumbersFollow(phones0: map<nat, PhoneRow>, customers0: map<nat, Customer>, mid: map<nat, PhoneRow>,
                      phones: map<nat, PhoneRow>, customers: map<nat, Customer>, source: nat, target: nat)
    requires source in customers0 && target in customers0 && target in customers
    requires NumbersMerged(phones0, customers0, mid, source, target)
    requires forall n :: PrimaryNumber(mid, target, n) ==>
               PrimaryNumber(phones, target, n) && customers[target].phone == n
    requires !HasRows(mid, target) ==> Bare(phones, customers, target)
    ensures NumberFollows(phones0, customers0, phones, customers, source, target)
  {
    hide PrimaryNumber, OwnNumber, Offers, EffectivePhones, HasRows;
  }

  /** Step 3: recompute the target's years and drop the source's rows. */
  method RefreshSummary(db: ShopDb, target: nat, source: nat, ghost before: seq<Order>) returns (years: set<nat>)
    requires target != source && db.orders == Relinked(before, {source}, target)
    modifies db`summary
    ensures years == YearsOf(db.orders, target)
    ensures SummaryExact(before, old(db.summary)) ==> SummaryExact(db.orders, db.summary)
    ensures forall key :: key in db.summary ==> key.0 != source
  {
    years := RecomputeYears(db, target);
    db.summary := map key | key in db.summary && key.0 != source :: db.summary[key];
    if SummaryExact(before, old(db.summary)) {
      SummaryAfterMerge(before, old(db.summary), db.summary, source, target, years);
    }
  }

  /** Steps 4 and 5: the source's rows go, and the target's legacy column follows its rows. */
  method DeleteSource(db: ShopDb, target: nat, source: nat)
    requires target in db.customers && target != source && PhonesKeyed(db.phones, db.nextPhone, db.customers.Keys)
    modifies db`phones, db`customers
    ensures db.phones == WithoutOwner(old(db.phones), source)
    ensures db.customers.Keys == old(db.customers).Keys - {source}
    ensures forall c :: c in db.customers && c != target ==> db.customers[c] == old(db.customers)[c]
    ensures EffectivePhones(db.phones, db.customers, target) == old(RowPhones(db.phones, target))
    ensures HasRows(db.phones, target) || db.customers[target].phone == ""
    ensures old(NoDuplicates(db.phones, target)) ==> NoDuplicates(db.phones, target)
    ensures old(OnePrimary(db.phones, target) || !HasRows(db.phones, target)) ==>
              LegacyMatches(db.phones, db.customers, target)
    ensures forall n :: old(PrimaryNumber(db.phones, target, n)) ==>
              PrimaryNumber(db.phones, target, n) && db.customers[target].phone == n
    ensures old(!HasRows(db.phones, target)) ==> Bare(db.phones, db.customers, target)
  {
    hide PrimaryNumber, WithoutOwner, FirstRow, RowPhones, NoDuplicates, HasRows;
    RowsAfterDelete(db.phones, source, target);
    PhonesAfterDelete(db.phones, db.nextPhone, db.customers.Keys, source);
    db.phones := WithoutOwner(db.phones, source);
    db.customers := db.customers - {source};
    SyncLegacyPhone(db, target);
    LegacyIsNumber(db.phones, db.customers, target);
    NoPhonesAtAll(db.phones, target);
  }

  lemma PhonesAfterDelete(phones: map<nat, PhoneRow>, next: nat, customers: set<nat>, owner: nat)
    requires PhonesKeyed(phones, next, customers)
    ensures forall id :: id in WithoutOwner(phones, owner) ==> id < next
  {
  }

  lemma LegacyIsNumber(phones: map<nat, PhoneRow>, customers: map<nat, Customer>, c: nat)
    requires c in customers
    ensures LegacyMatches(phones, customers, c) ==> forall n :: PrimaryNumber(phones, c, n) ==> customers[c].phone == n
    ensures forall n :: PrimaryNumber(phones, c, n) ==> OnePrimary(phones, c)
  {
  }

  method CountOrders(db: ShopDb, c: nat) returns (n: nat)
    ensures n == OrderCount(db.orders, {c})
  {
    n := 0;
    for i := 0 to |db.orders|
      invariant n == OrderCount(db.orders[..i], {c})
    {
      assert db.orders[..i + 1][..i] == db.orders[..i];
      if db.orders[i].customer == Some(c) {
        n := n + 1;
      }
    }
    assert db.orders[..|db.orders|] == db.orders;
  }

  // ----- the endpoints -----

  datatype MergeResult = MergeResult(source: nat, movedOrders: nat, addedPhones: nat, years: set<nat>)

  datatype MergeOutcome =
    | MergedAll(results: seq<MergeResult>, totalMovedOrders: nat, totalAddedPhones: nat)
    | NoSources
    | DuplicateSource
    | SelfMerge
    | TargetNotFound
    | SourceNotFound

  predicate Distinct(ids: seq<nat>) {
    forall i, j :: 0 <= i < j < |ids| ==> ids[i] != ids[j]
  }

  function Ids(ids: seq<nat>): set<nat> {
    set id | id in ids
  }

  /** The checks a batch passes before anything is written. */
  function MergeCheck(customers: map<nat, Customer>, target: nat, sources: seq<nat>): MergeOutcome {
    if sources == [] then NoSources
    else if !Distinct(sources) then DuplicateSource
    else if target in sources then SelfMerge
    else if target !in customers then TargetNotFound
    else if exists s :: s in sources && s !in customers then SourceNotFound
    else MergedAll([], 0, 0)
  }

  /**
   Which refusal a merge gets; it is accepted for distinct sources that exist, into a target that exists and is
   none of them.
   */
  lemma MergeAnswer(customers: map<nat, Customer>, target: nat, sources: seq<nat>)
    ensures match MergeCheck(customers, target, sources)
            case NoSources => sources == []
            case DuplicateSource => exists i, j :: 0 <= i < j < |sources| && sources[i] == sources[j]
            case SelfMerge => Distinct(sources) && target in sources
            case TargetNotFound => target !in sources && target !in customers
            case SourceNotFound => target !in sources && target in customers
                                   && exists s :: s in sources && s !in customers
            case MergedAll(_, _, _) =>
              sources != [] && (forall i, j :: 0 <= i < j < |sources| ==> sources[i] != sources[j])
              && target !in sources && target in customers && forall s :: s in sources ==> s in customers
  {
  }

  /** The phones of a set of customers. */
  function PhonesOf(phones: map<nat, PhoneRow>, customers: map<nat, Customer>, owners: set<nat>): set<string> {
    set c, p | c in owners && c in customers && p in EffectivePhones(phones, customers, c) :: p
  }

  /** The closed form of a batch: which orders the target has, which phones, and what is gone. */
  ghost predicate BatchMerged(phones0: map<nat, PhoneRow>, customers0: map<nat, Customer>, orders0: seq<Order>,
                              phones: map<nat, PhoneRow>, customers: map<nat, Customer>, orders: seq<Order>,
                              sources: set<nat>, target: nat)
    requires target in customers
  {
    && orders == Relinked(orders0, sources, target)
    && customers.Keys == customers0.Keys - sources
    && EffectivePhones(phones, customers, target) == PhonesOf(phones0, customers0, sources + {target})
    && forall c :: c in customers && c != target ==>
         customers[c] == customers0[c]
         && EffectivePhones(phones, customers, c) == EffectivePhones(phones0, customers0, c)
  }

  lemma OthersKeepPhones(phones0: map<nat, PhoneRow>, phones: map<nat, PhoneRow>, customers0: map<nat, Customer>,
                         customers: map<nat, Customer>, source: nat, target: nat, c: nat)
    requires OthersUntouched(phones0, phones, customers0, customers, source, target)
    requires c in customers && c != target
    ensures EffectivePhones(phones, customers, c) == EffectivePhones(phones0, customers0, c)
  {
    assert forall id :: id in phones && phones[id].owner == c ==> id in phones0 && phones0[id] == phones[id];
    assert forall id :: id in phones0 && phones0[id].owner == c ==> id in phones && phones[id] == phones0[id];
  }

  /** One more source: the closed form for `sources` becomes the closed form for `sources + {s}`. */
  lemma MergeExtendsBatch(phones0: map<nat, PhoneRow>, customers0: map<nat, Customer>, orders0: seq<Order>,
                          phones1: map<nat, PhoneRow>, customers1: map<nat, Customer>, orders1: seq<Order>,
                          phones2: map<nat, PhoneRow>, customers2: map<nat, Customer>, orders2: seq<Order>,
                          sources: set<nat>, s: nat, target: nat)
    requires target in customers1 && target in customers2 && target !in sources && target in customers0
    requires BatchMerged(phones0, customers0, orders0, phones1, customers1, orders1, sources, target)
    requires s in customers1 && s != target && s !in sources
    requires orders2 == Relinked(orders1, {s}, target)
    requires OthersUntouched(phones1, phones2, customers1, customers2, s, target)
    requires EffectivePhones(phones2, customers2, target)
          == EffectivePhones(phones1, customers1, target) + EffectivePhones(phones1, customers1, s)
    ensures BatchMerged(phones0, customers0, orders0, phones2, customers2, orders2, sources + {s}, target)
  {
    hide OthersUntouched, EffectivePhones;
    assert orders2 == Relinked(orders0, sources + {s}, target);
    assert customers2.Keys == customers0.Keys - (sources + {s}) by {
      KeysOfOthers(phones1, phones2, customers1, customers2, s, target);
    }
    PhonesOfOneMore(phones0, customers0, sources + {target}, s);
    assert sources + {target} + {s} == sources + {s} + {target};
    forall c | c in customers2 && c != target
      ensures customers2[c] == customers0[c]
      ensures EffectivePhones(phones2, customers2, c) == EffectivePhones(phones0, customers0, c)
    {
      OthersKeepPhones(phones1, phones2, customers1, customers2, s, target, c);
      KeysOfOthers(phones1, phones2, customers1, customers2, s, target);
    }
  }

  lemma KeysOfOthers(phones1: map<nat, PhoneRow>, phones2: map<nat, PhoneRow>, customers1: map<nat, Customer>,
                     customers2: map<nat, Customer>, s: nat, target: nat)
    requires OthersUntouched(phones1, phones2, customers1, customers2, s, target)
    ensures customers2.Keys == customers1.Keys - {s}
    ensures forall c :: c in customers2 && c != target ==> customers2[c] == customers1[c]
  {
  }

  lemma PhonesOfOneMore(phones: map<nat, PhoneRow>, customers: map<nat, Customer>, owners: set<nat>, s: nat)
    requires s in customers
    ensures PhonesOf(phones, customers, owners + {s})
            == PhonesOf(phones, customers, owners) + EffectivePhones(phones, customers, s)
  {
    hide EffectivePhones;
  }

  /** No source merged yet. */
  lemma EmptyBatch(phones: map<nat, PhoneRow>, customers: map<nat, Customer>, orders: seq<Order>, target: nat)
    requires target in customers
    ensures BatchMerged(phones, customers, orders, phones, customers, orders, {}, target)
  {
    hide EffectivePhones;
    assert Relinked(orders, {}, target) == orders;
    assert PhonesOf(phones, customers, {} + {target}) == EffectivePhones(phones, customers, target);
  }

  /**
   Merging in any order gives the same order links and the same phones: the closed form of a batch
   speaks only of the set of sources.
   */
  lemma BatchOrderIsImmaterial(phones0: map<nat, PhoneRow>, customers0: map<nat, Customer>, orders0: seq<Order>,
                               phonesA: map<nat, PhoneRow>, customersA: map<nat, Customer>, ordersA: seq<Order>,
                               phonesB: map<nat, PhoneRow>, customersB: map<nat, Customer>, ordersB: seq<Order>,
                               a: seq<nat>, b: seq<nat>, target: nat)
    requires target in customersA && target in customersB && multiset(a) == multiset(b)
    requires BatchMerged(phones0, customers0, orders0, phonesA, customersA, ordersA, Ids(a), target)
    requires BatchMerged(phones0, customers0, orders0, phonesB, customersB, ordersB, Ids(b), target)
    ensures ordersA == ordersB && customersA.Keys == customersB.Keys
    ensures EffectivePhones(phonesA, customersA, target) == EffectivePhones(phonesB, customersB, target)
  {
    assert forall id :: id in a <==> id in multiset(a);
    assert forall id :: id in b <==> id in multiset(b);
    assert Ids(a) == Ids(b);
  }

  /** What the response says of one source, given what the sources before it brought. */
  ghost predicate ResultFits(phones0: map<nat, PhoneRow>, customers0: map<nat, Customer>, orders0: seq<Order>,
                             sources: seq<nat>, target: nat, i: nat, r: MergeResult)
    requires i < |sources|
  {
    && r.source == sources[i] && r.movedOrders == OrderCount(orders0, {sources[i]})
    && r.years == YearsOf(Relinked(orders0, Ids(sources[..i + 1]), target), target)
    && |PhonesOf(phones0, customers0, Ids(sources[..i + 1]) + {target})|
       == |PhonesOf(phones0, customers0, Ids(sources[..i]) + {target})| + r.addedPhones
  }

  /** Whoever is left, the target apart, offers what it offered. */
  ghost predicate OffersStay(phones0: map<nat, PhoneRow>, customers0: map<nat, Customer>,
                             phones: map<nat, PhoneRow>, customers: map<nat, Customer>, target: nat) {
    forall c :: c in customers && c != target ==>
      && c in customers0
      && (forall n :: Offers(phones0, customers0, c, n) ==> Offers(phones, customers, c, n))
      && EffectivePhones(phones, customers, c) == EffectivePhones(phones0, customers0, c)
  }

  lemma OthersOffer(phones0: map<nat, PhoneRow>, phones: map<nat, PhoneRow>, customers0: map<nat, Customer>,
                    customers: map<nat, Customer>, source: nat, target: nat)
    requires OthersUntouched(phones0, phones, customers0, customers, source, target)
    ensures OffersStay(phones0, customers0, phones, customers, target)
  {
    hide EffectivePhones;
    forall c | c in customers && c != target
      ensures c in customers0 && EffectivePhones(phones, customers, c) == EffectivePhones(phones0, customers0, c)
      ensures forall n :: Offers(phones0, customers0, c, n) ==> Offers(phones, customers, c, n)
    {
      OthersKeepPhones(phones0, phones, customers0, customers, source, target, c);
      SameRowsSameOffers(phones0, phones, customers0, customers, c);
    }
  }

  lemma SameRowsSameOffers(phones0: map<nat, PhoneRow>, phones: map<nat, PhoneRow>, customers0: map<nat, Customer>,
                           customers: map<nat, Customer>, c: nat)
    requires c in customers && c in customers0 && customers[c] == customers0[c]
    requires forall id :: id in phones0 && phones0[id].owner == c ==> id in phones && phones[id] == phones0[id]
    requires forall id :: id in phones && phones[id].owner == c ==> id in phones0 && phones0[id] == phones[id]
    ensures forall n :: Offers(phones0, customers0, c, n) ==> Offers(phones, customers, c, n)
  {
    forall n | Offers(phones0, customers0, c, n) ensures Offers(phones, customers, c, n) {
      if HasRows(phones0, c) {
        var id :| FirstRow(phones0, c, id, false) && phones0[id].phone == n;
        assert phones[id] == phones0[id];
        assert FirstRow(phones, c, id, false);
      }
    }
  }

  /** One round of the batch loop, on top of the sources already done. */
  method MergeNext(db: ShopDb, target: nat, source: nat, ghost phones0: map<nat, PhoneRow>,
                   ghost customers0: map<nat, Customer>, ghost orders0: seq<Order>, ghost done: set<nat>)
    returns (moved: nat, added: nat, years: set<nat>)
    requires db.Valid() && target in db.customers && target != source
    requires source in customers0 && source !in done && target in customers0 && target !in done
    requires source in db.customers
    requires BatchMerged(phones0, customers0, orders0, db.phones, db.customers, db.orders, done, target)
    modifies db`orders, db`phones, db`nextPhone, db`customers, db`summary
    ensures db.Valid() && target in db.customers
    ensures BatchMerged(phones0, customers0, orders0, db.phones, db.customers, db.orders, done + {source}, target)
    ensures years == YearsOf(Relinked(orders0, done + {source}, target), target)
    ensures |PhonesOf(phones0, customers0, done + {source} + {target})|
            == |PhonesOf(phones0, customers0, done + {target})| + added
    ensures moved == OrderCount(orders0, {source})
    ensures OrderCount(orders0, done + {source}) == OrderCount(orders0, done) + moved
    ensures |EffectivePhones(db.phones, db.customers, target)|
            == |old(EffectivePhones(db.phones, db.customers, target))| + added
    ensures NoDuplicates(db.phones, target) <==> old(NoDuplicates(db.phones, target))
    ensures old(OnePrimary(db.phones, target) || !HasRows(db.phones, target)) ==>
              LegacyMatches(db.phones, db.customers, target)
              && (OnePrimary(db.phones, target) || !HasRows(db.phones, target))
    ensures NumberFollows(old(db.phones), old(db.customers), db.phones, db.customers, source, target)
    ensures OffersStay(old(db.phones), old(db.customers), db.phones, db.customers, target)
    ensures PhonesKept(old(db.phones), old(db.customers), db.phones, db.customers)
    ensures old(SummaryExact(db.orders, db.summary)) ==> SummaryExact(db.orders, db.summary)
  {
    hide YearsOf;
    hide SummaryExact, OnePrimary, NoDuplicates, OthersUntouched, EffectivePhones, PhonesOf, PhonesKeyed, OrdersKeyed,
      ItemsKeyed, LegacyMatches, PhonesKept, NumberFollows, OffersStay;
    ghost var phones1, customers1, orders1 := db.phones, db.customers, db.orders;
    moved, added, years := MergeCustomerIntoTarget(db, target, source);
    MergeExtendsBatch(phones0, customers0, orders0, phones1, customers1, orders1,
                      db.phones, db.customers, db.orders, done, source, target);
    OrderCountRelinked(orders0, done, target, source);
    OthersOffer(phones1, db.phones, customers1, db.customers, source, target);
    LegacyGivesPrimary(db.phones, db.customers, target);
  }

  lemma OffersStayTwice(phones0: map<nat, PhoneRow>, customers0: map<nat, Customer>, phones1: map<nat, PhoneRow>,
                        customers1: map<nat, Customer>, phones2: map<nat, PhoneRow>,
                        customers2: map<nat, Customer>, target: nat)
    requires OffersStay(phones0, customers0, phones1, customers1, target)
    requires OffersStay(phones1, customers1, phones2, customers2, target)
    ensures OffersStay(phones0, customers0, phones2, customers2, target)
  {
    hide Offers, EffectivePhones;
  }

  /**
   Whose number the target has after the first `k` sources: its own if it had one; when it had no phone at all,
   that of the first source with a phone, in the order of the list.
   */
  ghost predicate BatchNumber(phones0: map<nat, PhoneRow>, customers0: map<nat, Customer>, phones: map<nat, PhoneRow>,
                              customers: map<nat, Customer>, sources: seq<nat>, k: nat, target: nat)
    requires target in customers0 && target in customers && k <= |sources|
             && forall s :: s in sources ==> s in customers0
  {
    && (forall n :: OwnNumber(phones0, customers0, target, n) ==> OwnNumber(phones, customers, target, n))
    && (forall n :: OwnNumber(phones0, customers0, target, n) && k > 0 ==>
          PrimaryNumber(phones, target, n) && customers[target].phone == n)
    && (Bare(phones0, customers0, target) ==>
          && (PhonelessBefore(phones0, customers0, sources, k) ==> Bare(phones, customers, target))
          && forall i, n :: OfferTaken(phones0, customers0, phones, customers, sources, k, target, i, n))
  }

  /** If the i-th source is the first with a phone, what it offers first is the target's number. */
  ghost predicate OfferTaken(phones0: map<nat, PhoneRow>, customers0: map<nat, Customer>, phones: map<nat, PhoneRow>,
                             customers: map<nat, Customer>, sources: seq<nat>, k: nat, target: nat, i: int, n: string)
    requires target in customers && k <= |sources| && forall s :: s in sources ==> s in customers0
  {
    0 <= i < k && PhonelessBefore(phones0, customers0, sources, i) && Offers(phones0, customers0, sources[i], n) ==>
      PrimaryNumber(phones, target, n) && customers[target].phone == n
  }

  /** None of the first `i` sources has a phone. */
  predicate PhonelessBefore(phones: map<nat, PhoneRow>, customers: map<nat, Customer>, sources: seq<nat>, i: nat)
    requires i <= |sources| && forall s :: s in sources ==> s in customers
  {
    forall j :: 0 <= j < i ==> EffectivePhones(phones, customers, sources[j]) == {}
  }

  lemma BatchNumberNext(phones0: map<nat, PhoneRow>, customers0: map<nat, Customer>, phones1: map<nat, PhoneRow>,
                        customers1: map<nat, Customer>, phones2: map<nat, PhoneRow>, customers2: map<nat, Customer>,
                        sources: seq<nat>, k: nat, target: nat)
    requires target in customers0 && target in customers1 && target in customers2 && target !in sources
    requires k < |sources| && sources[k] in customers1 && forall s :: s in sources ==> s in customers0
    requires BatchNumber(phones0, customers0, phones1, customers1, sources, k, target)
    requires OffersStay(phones0, customers0, phones1, customers1, target)
    requires NumberFollows(phones1, customers1, phones2, customers2, sources[k], target)
    ensures BatchNumber(phones0, customers0, phones2, customers2, sources, k + 1, target)
  {
    hide EffectivePhones, Offers, HasRows, PrimaryNumber, Bare, OwnNumber;
    assert forall n :: PrimaryNumber(phones1, target, n) ==> OwnNumber(phones1, customers1, target, n) by {
      PrimaryIsOwn(phones1, customers1, target);
    }
    assert forall n :: PrimaryNumber(phones2, target, n) ==> OwnNumber(phones2, customers2, target, n) by {
      PrimaryIsOwn(phones2, customers2, target);
    }
    var s := sources[k];
    assert s in sources && s != target;
    if Bare(phones0, customers0, target) {
      if PhonelessBefore(phones0, customers0, sources, k + 1) {
        assert PhonelessBefore(phones0, customers0, sources, k) && EffectivePhones(phones0, customers0, s) == {};
      }
      var next := k + 1;
      forall i, n ensures OfferTaken(phones0, customers0, phones2, customers2, sources, next, target, i, n)
      {
        assert OfferTaken(phones0, customers0, phones1, customers1, sources, k, target, i, n);
        assert i == k ==> (Offers(phones0, customers0, s, n) ==> Offers(phones1, customers1, s, n));
      }
    }
  }

  lemma PrimaryIsOwn(phones: map<nat, PhoneRow>, customers: map<nat, Customer>, c: nat)
    requires c in customers
    ensures forall n :: PrimaryNumber(phones, c, n) ==> OwnNumber(phones, customers, c, n)
  {
  }

  lemma BatchNumberStarts(phones: map<nat, PhoneRow>, customers: map<nat, Customer>, sources: seq<nat>, target: nat)
    requires target in customers && forall s :: s in sources ==> s in customers
    ensures BatchNumber(phones, customers, phones, customers, sources, 0, target)
    ensures OffersStay(phones, customers, phones, customers, target)
  {
  }

  lemma SourceIsLeft(phones0: map<nat, PhoneRow>, customers0: map<nat, Customer>, orders0: seq<Order>,
                     phones: map<nat, PhoneRow>, customers: map<nat, Customer>, orders: seq<Order>,
                     done: set<nat>, target: nat, s: nat)
    requires target in customers && BatchMerged(phones0, customers0, orders0, phones, customers, orders, done, target)
    requires s in customers0 && s !in done
    ensures s in customers
  {
    hide EffectivePhones;
  }

  /** The loop of a batch: every listed source goes into the target, one after the other. */
  method MergeEach(db: ShopDb, target: nat, sources: seq<nat>)
    returns (results: seq<MergeResult>, moved: nat, added: nat)
    requires db.Valid() && MergeCheck(db.customers, target, sources).MergedAll?
    modifies db`orders, db`phones, db`nextPhone, db`customers, db`summary
    ensures db.Valid() && target in db.customers
    ensures BatchMerged(old(db.phones), old(db.customers), old(db.orders), db.phones,
                        db.customers, db.orders, Ids(sources), target)
    ensures moved == OrderCount(old(db.orders), Ids(sources)) && |results| == |sources|
    ensures |EffectivePhones(db.phones, db.customers, target)|
            == |old(EffectivePhones(db.phones, db.customers, target))| + added
    ensures forall i :: 0 <= i < |sources| ==>
              ResultFits(old(db.phones), old(db.customers), old(db.orders), sources, target, i, results[i])
    ensures NoDuplicates(db.phones, target) <==> old(NoDuplicates(db.phones, target))
    ensures old(OnePrimary(db.phones, target) || !HasRows(db.phones, target)) ==>
              LegacyMatches(db.phones, db.customers, target)
    ensures BatchNumber(old(db.phones), old(db.customers), db.phones, db.customers, sources, |sources|, target)
    ensures PhonesKept(old(db.phones), old(db.customers), db.phones, db.customers)
    ensures old(SummaryExact(db.orders, db.summary)) ==> SummaryExact(db.orders, db.summary)
  {
    hide SummaryExact, OnePrimary, NoDuplicates, OthersUntouched, EffectivePhones, PhonesOf, PhonesKeyed, OrdersKeyed,
      ItemsKeyed, LegacyMatches, PhonesKept, BatchMerged, YearsOf, OrderCount, BatchNumber, OffersStay, NumberFollows;
    BatchNumberStarts(db.phones, db.customers, sources, target);
    PhonesKeptOnce(db.phones, db.customers);
    results, moved, added := [], 0, 0;
    EmptyBatch(db.phones, db.customers, db.orders, target);
    NobodyOwns(db.orders);
    assert Ids(sources[..0]) == {};
    for i := 0 to |sources|
      invariant db.Valid() && target in db.customers && |results| == i
      invariant BatchMerged(old(db.phones), old(db.customers), old(db.orders), db.phones, db.customers, db.orders,
                            Ids(sources[..i]), target)
      invariant moved == OrderCount(old(db.orders), Ids(sources[..i]))
      invariant |EffectivePhones(db.phones, db.customers, target)|
                == |old(EffectivePhones(db.phones, db.customers, target))| + added
      invariant forall j :: 0 <= j < i ==>
                  ResultFits(old(db.phones), old(db.customers), old(db.orders), sources, target, j, results[j])
      invariant NoDuplicates(db.phones, target) <==> old(NoDuplicates(db.phones, target))
      invariant old(OnePrimary(db.phones, target) || !HasRows(db.phones, target)) ==>
                  OnePrimary(db.phones, target) || !HasRows(db.phones, target)
      invariant i > 0 && old(OnePrimary(db.phones, target) || !HasRows(db.phones, target)) ==>
                  LegacyMatches(db.phones, db.customers, target)
      invariant BatchNumber(old(db.phones), old(db.customers), db.phones, db.customers, sources, i, target)
      invariant OffersStay(old(db.phones), old(db.customers), db.phones, db.customers, target)
      invariant PhonesKept(old(db.phones), old(db.customers), db.phones, db.customers)
      invariant old(SummaryExact(db.orders, db.summary)) ==> SummaryExact(db.orders, db.summary)
    {
      var s := sources[i];
      ghost var done := Ids(sources[..i]);
      assert s in sources && s !in done && target !in done;
      ghost var phones, customers := db.phones, db.customers;
      SourceIsLeft(old(db.phones), old(db.customers), old(db.orders), db.phones,
                   db.customers, db.orders, done, target, s);
      var m, a, years := MergeNext(db, target, s, old(db.phones), old(db.customers), old(db.orders), done);
      BatchNumberNext(old(db.phones), old(db.customers), phones, customers,
                      db.phones, db.customers, sources, i, target);
      OffersStayTwice(old(db.phones), old(db.customers), phones, customers, db.phones, db.customers, target);
      PhonesKeptTwice(old(db.phones), old(db.customers), phones, customers, db.phones, db.customers);
      assert Ids(sources[..i + 1]) == done + {s};
      assert ResultFits(old(db.phones), old(db.customers), old(db.orders),
                        sources, target, i, MergeResult(s, m, a, years));
      results, moved, added := results + [MergeResult(s, m, a, years)], moved + m, added + a;
    }
    assert sources[..|sources|] == sources;
  }

  lemma {:induction false} NobodyOwns(orders: seq<Order>)
    ensures OrderCount(orders, {}) == 0
  {
    if orders == [] {
    } else {
      NobodyOwns(orders[..|orders| - 1]);
    }
  }

  lemma LegacyGivesPrimary(phones: map<nat, PhoneRow>, customers: map<nat, Customer>, c: nat)
    requires c in customers
    ensures LegacyMatches(phones, customers, c) ==> OnePrimary(phones, c) || !HasRows(phones, c)
  {
  }

  /** POST merge: one source, the same merge, one audit entry. */
  method MergeCustomer(db: ShopDb, target: nat, source: nat) returns (outcome: MergeOutcome)
    requires db.Valid()
    modifies db`orders, db`phones, db`nextPhone, db`customers, db`summary, db`audit
    ensures db.Valid()
    ensures outcome.MergedAll? <==> MergeCheck(old(db.customers), target, [source]).MergedAll?
    ensures !outcome.MergedAll? ==>
              outcome == MergeCheck(old(db.customers), target, [source])
              && unchanged(db`orders, db`phones, db`nextPhone, db`customers, db`summary, db`audit)
    ensures outcome.MergedAll? ==>
              && target in db.customers
              && db.orders == Relinked(old(db.orders), {source}, target)
              && OthersUntouched(old(db.phones), db.phones, old(db.customers), db.customers, source, target)
              && EffectivePhones(db.phones, db.customers, target)
                 == old(EffectivePhones(db.phones, db.customers, target))
                    + old(EffectivePhones(db.phones, db.customers, source))
              && outcome.results == [MergeResult(source, OrderCount(old(db.orders), {source}), outcome.totalAddedPhones,
                                                 YearsOf(db.orders, target))]
              && |EffectivePhones(db.phones, db.customers, target)|
                 == |old(EffectivePhones(db.phones, db.customers, target))| + outcome.totalAddedPhones
              && db.audit == old(db.audit) + [MergeAudit(target, source, OrderCount(old(db.orders), {source}))]
              && NumberFollows(old(db.phones), old(db.customers), db.phones, db.customers, source, target)
              && (NoDuplicates(db.phones, target) <==> old(NoDuplicates(db.phones, target)))
              && (HasRows(db.phones, target) || db.customers[target].phone == "")
              && (old(OnePrimary(db.phones, target) || !HasRows(db.phones, target)) ==>
                    LegacyMatches(db.phones, db.customers, target))
    ensures PhonesKept(old(db.phones), old(db.customers), db.phones, db.customers)
    ensures old(SummaryExact(db.orders, db.summary)) ==> SummaryExact(db.orders, db.summary)
  {
    hide SummaryExact, OnePrimary, NoDuplicates, OthersUntouched, EffectivePhones, PhonesKeyed, OrdersKeyed,
      ItemsKeyed, LegacyMatches, PhonesKept, HasRows, NumberFollows;
    PhonesKeptOnce(db.phones, db.customers);
    if source == target {
      return SelfMerge;
    }
    if target !in db.customers {
      return TargetNotFound;
    }
    if source !in db.customers {
      assert source in [source];
      return SourceNotFound;
    }
    var moved, added, years := MergeCustomerIntoTarget(db, target, source);
    db.audit := db.audit + [MergeAudit(target, source, moved)];
    return MergedAll([MergeResult(source, moved, added, years)], moved, added);
  }

  /** POST batch-merge: all sources or none, with one audit entry per source. */
  method BatchMergeCustomer(db: ShopDb, target: nat, sources: seq<nat>) returns (outcome: MergeOutcome)
    requires db.Valid()
    modifies db`orders, db`phones, db`nextPhone, db`customers, db`summary, db`audit
    ensures db.Valid()
    ensures !outcome.MergedAll? ==>
              outcome == MergeCheck(old(db.customers), target, sources)
              && unchanged(db`orders, db`phones, db`nextPhone, db`customers, db`summary, db`audit)
    ensures outcome.MergedAll? <==> MergeCheck(old(db.customers), target, sources).MergedAll?
    ensures outcome.MergedAll? ==>
              && target in db.customers
              && BatchMerged(old(db.phones), old(db.customers), old(db.orders), db.phones, db.customers, db.orders,
                             Ids(sources), target)
              && outcome.totalMovedOrders == OrderCount(old(db.orders), Ids(sources))
              && |EffectivePhones(db.phones, db.customers, target)|
                 == |old(EffectivePhones(db.phones, db.customers, target))| + outcome.totalAddedPhones
              && |outcome.results| == |sources|
              && (forall i :: 0 <= i < |sources| ==>
                    ResultFits(old(db.phones), old(db.customers), old(db.orders),
                               sources, target, i, outcome.results[i]))
              && db.audit == old(db.audit) + seq(|sources|, i requires 0 <= i < |sources| =>
                   MergeAudit(target, sources[i], OrderCount(old(db.orders), {sources[i]})))
              && (forall s :: s in sources ==> s in old(db.customers)) && target in old(db.customers)
              && BatchNumber(old(db.phones), old(db.customers), db.phones, db.customers, sources, |sources|, target)
              && (NoDuplicates(db.phones, target) <==> old(NoDuplicates(db.phones, target)))
              && (old(OnePrimary(db.phones, target) || !HasRows(db.phones, target)) ==>
                    LegacyMatches(db.phones, db.customers, target))
    ensures PhonesKept(old(db.phones), old(db.customers), db.phones, db.customers)
    ensures old(SummaryExact(db.orders, db.summary)) ==> SummaryExact(db.orders, db.summary)
  {
    hide SummaryExact, OnePrimary, NoDuplicates, BatchMerged, OrderCount, EffectivePhones, PhonesOf, YearsOf,
      PhonesKeyed, OrdersKeyed, ItemsKeyed, LegacyMatches, PhonesKept, BatchNumber;
    PhonesKeptOnce(db.phones, db.customers);
    outcome := MergeCheck(db.customers, target, sources);
    if outcome.MergedAll? {
      var results, moved, added := MergeEach(db, target, sources);
      ghost var logged := seq(|sources|, i requires 0 <= i < |sources| =>
        MergeAudit(target, sources[i], OrderCount(old(db.orders), {sources[i]})));
      for i := 0 to |results|
        modifies db`audit
        invariant db.audit == old(db.audit) + logged[..i]
      {
        db.audit := db.audit + [MergeAudit(target, results[i].source, results[i].movedOrders)];
        assert logged[..i + 1] == logged[..i] + [logged[i]];
      }
      outcome := MergedAll(results, moved, added);
    }
  }
}
