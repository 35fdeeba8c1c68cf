/**
 Customer rows with their phones: how a record is saved and what POST /api/customers accepts. The tables a
 record lives in are also a value, a `Directory`, so that saving can be a function.
 */
module CustomerRecords {
  import opened Common
  import opened Shop
  import opened Customers

  datatype PhoneInput = PhoneInput(phone: string, primary: bool)

  /** Removing diacritics and case from a name; the text rules behind it do not matter here. */
  type Folding = string -> string

  datatype Directory = Directory(customers: map<nat, Customer>, nextCustomer: nat,
                                 phones: map<nat, PhoneRow>, nextPhone: nat)

  function DirectoryOf(db: ShopDb): Directory
    reads db
  {
    Directory(db.customers, db.nextCustomer, db.phones, db.nextPhone)
  }

  ghost predicate Keyed(d: Directory) {
    CustomersKeyed(d.customers.Keys, d.nextCustomer) && PhonesKeyed(d.phones, d.nextPhone, d.customers.Keys)
  }

  /** Spaces, dots and dashes are not part of a phone number. */
  function NormalizePhone(phone: string): string {
    if phone == "" then ""
    else (if phone[0] in " .-" then "" else [phone[0]]) + NormalizePhone(phone[1..])
  }

  lemma {:induction false} NormalizeTwice(phone: string)
    ensures NormalizePhone(NormalizePhone(phone)) == NormalizePhone(phone)
  {
    if phone == "" {
    } else {
      NormalizeTwice(phone[1..]);
      var rest := NormalizePhone(phone[1..]);
      if phone[0] in " .-" {
        assert "" + rest == rest;
      } else {
        assert ([phone[0]] + rest)[1..] == rest;
      }
    }
  }

  /** Separators go, everything else stays in place. */
  lemma {:induction false} NormalizeByCharacter(phone: string, c: char)
    ensures NormalizePhone("") == "" && ' ' !in NormalizePhone(phone)
            && '.' !in NormalizePhone(phone) && '-' !in NormalizePhone(phone)
    ensures NormalizePhone([c] + phone)
            == if c == ' ' || c == '.' || c == '-' then NormalizePhone(phone) else [c] + NormalizePhone(phone)
  {
    assert ([c] + phone)[1..] == phone;
    if phone != "" {
      NormalizeByCharacter(phone[1..], c);
    }
  }

  // ----- saving a record -----

  /** The phone table after inserting one row per phone. */
  function WithRows(phones: map<nat, PhoneRow>, next: nat, owner: nat, list: seq<PhoneInput>): map<nat, PhoneRow> {
    if list == [] then phones
    else
      var n := |list| - 1;
      var row := PhoneRow(owner, NormalizePhone(list[n].phone), list[n].primary);
      WithRows(phones, next, owner, list[..n])[next + n := row]
  }

  /** `after` is `phones` with one row per phone at the ids from `next` on. */
  ghost predicate Inserted(phones: map<nat, PhoneRow>, next: nat, owner: nat, list: seq<PhoneInput>,
                           after: map<nat, PhoneRow>) {
    && (forall id :: id in after <==> id in phones || next <= id < next + |list|)
    && forall id :: id in after ==>
         after[id] == if next <= id < next + |list|
                      then PhoneRow(owner, NormalizePhone(list[id - next].phone), list[id - next].primary)
                      else phones[id]
  }

  lemma InsertedOneMore(phones: map<nat, PhoneRow>, next: nat, owner: nat, list: seq<PhoneInput>,
                        before: map<nat, PhoneRow>)
    requires list != [] && Inserted(phones, next, owner, list[..|list| - 1], before)
    ensures var n := |list| - 1;
            Inserted(phones, next, owner, list,
                     before[next + n := PhoneRow(owner, NormalizePhone(list[n].phone), list[n].primary)])
  {
    hide NormalizePhone;
    assert forall i :: 0 <= i < |list| - 1 ==> list[..|list| - 1][i] == list[i];
  }

  lemma {:induction false} RowsInserted(phones: map<nat, PhoneRow>, next: nat, owner: nat, list: seq<PhoneInput>)
    ensures Inserted(phones, next, owner, list, WithRows(phones, next, owner, list))
  {
    hide NormalizePhone, Inserted;
    if list == [] {
      NothingInserted(phones, next, owner);
    } else {
      RowsInserted(phones, next, owner, list[..|list| - 1]);
      InsertedOneMore(phones, next, owner, list, WithRows(phones, next, owner, list[..|list| - 1]));
    }
  }

  lemma NothingInserted(phones: map<nat, PhoneRow>, next: nat, owner: nat)
    ensures Inserted(phones, next, owner, [], phones)
  {
  }

  /** The directory with one more customer. */
  function Saved(d: Directory, name: string, searchName: string, phone: string, list: seq<PhoneInput>): Directory {
    Directory(d.customers[d.nextCustomer := Customer(name, searchName, NormalizePhone(phone))], d.nextCustomer + 1,
              WithRows(d.phones, d.nextPhone, d.nextCustomer, list), d.nextPhone + |list|)
  }

  lemma SavedIsKeyed(d: Directory, name: string, searchName: string, phone: string, list: seq<PhoneInput>)
    requires Keyed(d)
    ensures Keyed(Saved(d, name, searchName, phone, list))
  {
    RowsInserted(d.phones, d.nextPhone, d.nextCustomer, list);
  }

  /** Every customer of `d` has the same row and the same phone rows in `after`. */
  ghost predicate OthersKept(d: Directory, after: Directory) {
    forall c :: c in d.customers ==>
                  && c in after.customers && after.customers[c] == d.customers[c]
                  && SameRowsOf(d.phones, after.phones, c)
  }

  ghost predicate SameRowsOf(before: map<nat, PhoneRow>, after: map<nat, PhoneRow>, c: nat) {
    && (forall id :: id in before && before[id].owner == c ==> id in after && after[id] == before[id])
    && forall id :: id in after && after[id].owner == c ==> id in before && before[id] == after[id]
  }

  /** Nothing about the customers that were there changes. */
  lemma SavedKeepsOthers(d: Directory, name: string, searchName: string, phone: string, list: seq<PhoneInput>)
    requires Keyed(d)
    ensures var after := Saved(d, name, searchName, phone, list);
            && d.nextCustomer !in d.customers && after.customers.Keys == d.customers.Keys + {d.nextCustomer}
            && OthersKept(d, after)
  {
    hide NormalizePhone;
    RowsInserted(d.phones, d.nextPhone, d.nextCustomer, list);
  }

  // ----- the phones of a new record -----

  /** No two of the phones are the same number. */
  predicate DistinctPhones(list: seq<PhoneInput>) {
    forall i, j :: 0 <= i < j < |list| ==> NormalizePhone(list[i].phone) != NormalizePhone(list[j].phone)
  }

  predicate SoleMain(list: seq<PhoneInput>, p: nat) {
    p < |list| && forall i :: 0 <= i < |list| ==> (list[i].primary <==> i == p)
  }

  /**
   A record is saved with its phones right exactly when the numbers differ and, if there are any, one of them
   is primary and is the phone of the legacy column.
   */
  lemma SavedRightIff(d: Directory, name: string, searchName: string, phone: string, list: seq<PhoneInput>)
    requires Keyed(d)
    ensures var after := Saved(d, name, searchName, phone, list);
            PhonesRight(after.phones, after.customers, d.nextCustomer)
            <==> DistinctPhones(list)
                 && (list == []
                     || exists p: nat :: SoleMain(list, p) && NormalizePhone(list[p].phone) == NormalizePhone(phone))
  {
    hide NormalizePhone, Saved, Added, DistinctPhones, NoDuplicates, SolePrimary, SoleMain, HasRows;
    var after := Saved(d, name, searchName, phone, list);
    SavedAdds(d, name, searchName, phone, list);
    NewRows(d, after, list);
    NewDuplicates(d, after, list);
    NewPrimary(d, after, list, NormalizePhone(phone));
  }

  /** `after` has one row per phone for the customer that `d` would add next. */
  ghost predicate Added(d: Directory, after: Directory, list: seq<PhoneInput>) {
    Inserted(d.phones, d.nextPhone, d.nextCustomer, list, after.phones)
  }

  lemma SavedAdds(d: Directory, name: string, searchName: string, phone: string, list: seq<PhoneInput>)
    ensures var after := Saved(d, name, searchName, phone, list);
            && Added(d, after, list) && d.nextCustomer in after.customers
            && after.customers[d.nextCustomer] == Customer(name, searchName, NormalizePhone(phone))
  {
    hide NormalizePhone, WithRows, Inserted;
    RowsInserted(d.phones, d.nextPhone, d.nextCustomer, list);
  }

  lemma NewRows(d: Directory, after: Directory, list: seq<PhoneInput>)
    requires Keyed(d) && Added(d, after, list)
    ensures HasRows(after.phones, d.nextCustomer) <==> list != []
  {
    hide NormalizePhone;
    if list != [] {
      assert after.phones[d.nextPhone].owner == d.nextCustomer;
    }
  }

  lemma NewPhones(d: Directory, after: Directory, list: seq<PhoneInput>)
    requires Keyed(d) && Added(d, after, list)
    ensures AllPhones(after.phones, d.nextCustomer) == set p | p in list :: NormalizePhone(p.phone)
  {
    hide NormalizePhone;
    var c, n := d.nextCustomer, d.nextPhone;
    var given := set p | p in list :: NormalizePhone(p.phone);
    forall p | p in given ensures p in AllPhones(after.phones, c) {
      var i :| 0 <= i < |list| && NormalizePhone(list[i].phone) == p;
      assert after.phones[n + i].owner == c && after.phones[n + i].phone == p;
    }
    forall p | p in AllPhones(after.phones, c) ensures p in given {
      var id :| id in after.phones && after.phones[id].owner == c && after.phones[id].phone == p;
      assert list[id - n] in list;
    }
  }

  /** The phones under which a saved record is known. */
  lemma SavedPhones(d: Directory, name: string, searchName: string, phone: string, list: seq<PhoneInput>)
    requires Keyed(d)
    ensures var after := Saved(d, name, searchName, phone, list);
            EffectivePhones(after.phones, after.customers, d.nextCustomer)
            == (if list == [] then {NormalizePhone(phone)} else set p | p in list :: NormalizePhone(p.phone)) - {""}
  {
    hide NormalizePhone, Saved, Added, HasRows;
    var after := Saved(d, name, searchName, phone, list);
    SavedAdds(d, name, searchName, phone, list);
    NewRows(d, after, list);
    NewPhones(d, after, list);
    assert RowPhones(after.phones, d.nextCustomer) == AllPhones(after.phones, d.nextCustomer) - {""};
  }

  lemma NewDuplicates(d: Directory, after: Directory, list: seq<PhoneInput>)
    requires Keyed(d) && Added(d, after, list)
    ensures NoDuplicates(after.phones, d.nextCustomer) <==> DistinctPhones(list)
  {
    hide NormalizePhone;
    var c, n := d.nextCustomer, d.nextPhone;
    if NoDuplicates(after.phones, c) {
      forall i, j | 0 <= i < j < |list| ensures NormalizePhone(list[i].phone) != NormalizePhone(list[j].phone) {
        assert after.phones[n + i].phone != after.phones[n + j].phone;
      }
    }
  }

  lemma NewPrimary(d: Directory, after: Directory, list: seq<PhoneInput>, phone: string)
    requires Keyed(d) && Added(d, after, list)
    ensures (exists id :: SolePrimary(after.phones, d.nextCustomer, id) && phone == after.phones[id].phone)
       <==> exists p: nat :: SoleMain(list, p) && NormalizePhone(list[p].phone) == phone
  {
    hide NormalizePhone;
    var c, n := d.nextCustomer, d.nextPhone;
    assert forall id: nat :: IsPrimary(after.phones, c, id) <==> n <= id < n + |list| && list[id - n].primary;
    forall p: nat | SoleMain(list, p) ensures SolePrimary(after.phones, c, n + p) {
      assert IsPrimary(after.phones, c, n + p);
    }
    forall id: nat | SolePrimary(after.phones, c, id) ensures n <= id && SoleMain(list, id - n) {
      forall i: nat | i < |list| ensures list[i].primary <==> i == id - n {
        assert IsPrimary(after.phones, c, n + i) <==> list[i].primary;
      }
    }
    if p: nat :| SoleMain(list, p) && NormalizePhone(list[p].phone) == phone {
      assert SolePrimary(after.phones, c, n + p) && after.phones[n + p].phone == phone;
    }
  }

  /** Deletes and reinserts the phone rows of a customer. */
  method SyncCustomerPhones(db: ShopDb, c: nat, list: seq<PhoneInput>)
    requires PhonesKeyed(db.phones, db.nextPhone, db.customers.Keys) && c in db.customers
    modifies db`phones, db`nextPhone
    ensures db.phones == WithRows(WithoutOwner(old(db.phones), c), old(db.nextPhone), c, list)
    ensures db.nextPhone == old(db.nextPhone) + |list| && PhonesKeyed(db.phones, db.nextPhone, db.customers.Keys)
  {
    hide NormalizePhone;
    db.phones := WithoutOwner(db.phones, c);
    ghost var kept := db.phones;
    for i := 0 to |list|
      invariant db.phones == WithRows(kept, old(db.nextPhone), c, list[..i])
      invariant db.nextPhone == old(db.nextPhone) + i && PhonesKeyed(db.phones, db.nextPhone, db.customers.Keys)
    {
      assert list[..i + 1][..i] == list[..i];
      InsertPhone(db, PhoneRow(c, NormalizePhone(list[i].phone), list[i].primary));
    }
    assert list[..|list|] == list;
  }

  /** `Customer.save`: the row, with the phone normalized, and its phones. */
  method SaveCustomer(db: ShopDb, name: string, searchName: string, phone: string, list: seq<PhoneInput>)
    returns (id: nat)
    requires db.Valid()
    modifies db`customers, db`nextCustomer, db`phones, db`nextPhone
    ensures db.Valid() && id == old(db.nextCustomer) && id in db.customers
    ensures DirectoryOf(db) == Saved(old(DirectoryOf(db)), name, searchName, phone, list)
  {
    hide NormalizePhone, WithRows;
    id := db.nextCustomer;
    assert WithoutOwner(db.phones, id) == db.phones;
    db.customers := db.customers[id := Customer(name, searchName, NormalizePhone(phone))];
    db.nextCustomer := db.nextCustomer + 1;
    SyncCustomerPhones(db, id, list);
  }

  // ----- POST /api/customers -----

  datatype NewCustomer = CustomerCreated(id: nat) | NameMissing | PrimaryMissing

  /** The phones of a request: the list, or else the single phone as primary. */
  function PhonesOfRequest(phone: string, phones: Option<seq<PhoneInput>>): (list: seq<PhoneInput>) {
    match phones
    case None => if Strip(phone) == "" then [] else [PhoneInput(Strip(phone), true)]
    case Some(given) =>
      seq(|given|, i requires 0 <= i < |given| => given[i].(phone := Strip(given[i].phone)))
  }

  /** A single phone that is not blank is one primary phone; listed phones keep their order and flags. */
  lemma RequestPhones(phone: string, given: seq<PhoneInput>)
    ensures Strip(phone) == "" ==> PhonesOfRequest(phone, None) == []
    ensures Strip(phone) != "" ==> PhonesOfRequest(phone, None) == [PhoneInput(Strip(phone), true)]
    ensures var list := PhonesOfRequest(phone, Some(given));
            && |list| == |given|
            && forall i :: 0 <= i < |given| ==>
                 list[i].phone == Strip(given[i].phone) && list[i].primary == given[i].primary
  {
    hide Strip;
  }

  predicate AnyMain(list: seq<PhoneInput>) {
    exists i :: 0 <= i < |list| && list[i].primary
  }

  /** The first primary phone, or the first phone when none is primary. */
  function PrimaryPhone(list: seq<PhoneInput>): string {
    if list == [] then ""
    else
      var i := FirstMain(list);
      list[if i < |list| then i else 0].phone
  }

  function FirstMain(list: seq<PhoneInput>): (i: nat)
    ensures i <= |list| && (i < |list| ==> list[i].primary)
    ensures forall j :: 0 <= j < i ==> !list[j].primary
  {
    if list == [] || list[0].primary then 0 else 1 + FirstMain(list[1..])
  }

  /** What a request must satisfy for its record to have its phones right. */
  ghost predicate ProperPhones(list: seq<PhoneInput>, phone: string) {
    && DistinctPhones(list)
    && (list == [] || exists p: nat :: SoleMain(list, p) && (list[p].phone != "" || NormalizePhone(phone) == ""))
  }

  /** The phone for the legacy column: the first primary one of the list, or the single phone when that is blank. */
  function LegacyPhone(list: seq<PhoneInput>, phone: string): string {
    if PrimaryPhone(list) != "" then PrimaryPhone(list) else phone
  }

  lemma LegacyPhoneIs(list: seq<PhoneInput>, phone: string, p: nat)
    ensures list == [] ==> LegacyPhone(list, phone) == phone
    ensures p < |list| && list[p].primary && (forall q :: 0 <= q < p ==> !list[q].primary) ==>
              LegacyPhone(list, phone) == if list[p].phone == "" then phone else list[p].phone
    ensures list != [] && !AnyMain(list) ==>
              LegacyPhone(list, phone) == if list[0].phone == "" then phone else list[0].phone
  {
    if p < |list| && list[p].primary && forall q :: 0 <= q < p ==> !list[q].primary {
      assert FirstMain(list) == p;
    }
  }

  lemma LegacyOfRequest(list: seq<PhoneInput>, phone: string)
    ensures list == [] ==> PrimaryPhone(list) == ""
    ensures var legacy := NormalizePhone(LegacyPhone(list, phone));
            ProperPhones(list, phone)
            <==> DistinctPhones(list)
                 && (list == [] || exists p: nat :: SoleMain(list, p) && NormalizePhone(list[p].phone) == legacy)
  {
    hide DistinctPhones;
    forall p: nat | SoleMain(list, p) ensures PrimaryPhone(list) == list[p].phone {
      assert list[p].primary && FirstMain(list) <= p;
    }
    assert NormalizePhone("") == "";
  }

  /** Two primary phones are accepted, and so is the same phone twice; neither record has its phones right. */
  lemma ImproperPhonesAreAccepted()
    ensures var two := PhonesOfRequest("", Some([PhoneInput("1", true), PhoneInput("2", true)]));
            AnyMain(two) && !ProperPhones(two, "")
    ensures var same := PhonesOfRequest("", Some([PhoneInput("1", true), PhoneInput("1", false)]));
            AnyMain(same) && !ProperPhones(same, "")
  {
    var two := PhonesOfRequest("", Some([PhoneInput("1", true), PhoneInput("2", true)]));
    assert two[0].primary && two[1].primary;
    var same := PhonesOfRequest("", Some([PhoneInput("1", true), PhoneInput("1", false)]));
    assert same[0].primary && same[0].phone == same[1].phone;
  }

  /**
   A nameless request and a list without a primary phone are refused; nothing else is, so the phones of an
   accepted record are right exactly when the request was proper.
   */
  method CreateCustomer(db: ShopDb, name: string, phone: string, phones: Option<seq<PhoneInput>>, fold: Folding)
    returns (outcome: NewCustomer)
    requires db.Valid()
    modifies db`customers, db`nextCustomer, db`phones, db`nextPhone
    ensures db.Valid()
    ensures var list := PhonesOfRequest(phone, phones);
            outcome == if Strip(name) == "" then NameMissing
                       else if list != [] && !AnyMain(list) then PrimaryMissing
                       else CustomerCreated(old(db.nextCustomer))
    ensures !outcome.CustomerCreated? ==> DirectoryOf(db) == old(DirectoryOf(db))
    ensures outcome.CustomerCreated? ==>
              var list, id := PhonesOfRequest(phone, phones), outcome.id;
              && id !in old(db.customers) && db.customers.Keys == old(db.customers).Keys + {id}
              && db.customers[id].name == Strip(name) && db.customers[id].searchName == fold(Strip(name))
              && EffectivePhones(db.phones, db.customers, id)
                 == (if list == [] then {NormalizePhone(Strip(phone))}
                     else set p | p in list :: NormalizePhone(p.phone)) - {""}
              && (PhonesRight(db.phones, db.customers, id) <==> ProperPhones(list, Strip(phone)))
              && Added(old(DirectoryOf(db)), DirectoryOf(db), list)
              && db.customers[id].phone == NormalizePhone(LegacyPhone(list, Strip(phone)))
    ensures outcome.CustomerCreated? ==> OthersKept(old(DirectoryOf(db)), DirectoryOf(db))
  {
    hide NormalizePhone, WithRows, Strip, PhonesOfRequest, PrimaryPhone, AnyMain, ProperPhones, DistinctPhones,
      PhonesRight, EffectivePhones, Saved, OthersKept, Added, PhonesKeyed, CustomersKeyed, OrdersKeyed, ItemsKeyed;
    if Strip(name) == "" {
      return NameMissing;
    }
    var list := PhonesOfRequest(phone, phones);
    if list != [] && !AnyMain(list) {
      return PrimaryMissing;
    }
    var legacy := LegacyPhone(list, Strip(phone));
    ghost var before := DirectoryOf(db);
    var id := SaveCustomer(db, Strip(name), fold(Strip(name)), legacy, list);
    SavedAdds(before, Strip(name), fold(Strip(name)), legacy, list);
    SavedRightIff(before, Strip(name), fold(Strip(name)), legacy, list);
    LegacyOfRequest(list, Strip(phone));
    SavedPhones(before, Strip(name), fold(Strip(name)), legacy, list);
    SavedKeepsOthers(before, Strip(name), fold(Strip(name)), legacy, list);
    return CustomerCreated(id);
  }
}
