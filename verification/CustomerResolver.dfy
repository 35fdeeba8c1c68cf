/**
 Which customer an order belongs to when the request names none: looked up by phone, then by name, or else
 created on the spot, with one shared walk-in customer for orders that carry neither.
 */
module CustomerResolver {
  import opened Common
  import opened Shop
  import opened Customers
  import opened CustomerRecords

  const WALK_IN := "Kh\U{00E1}ch l\U{1EBB}"
  const UNNAMED := "Kh\U{00E1}ch"

  // ----- the choice among several customers with one phone -----

  /** Orders are compared by creation time, then by the customer's id. */
  predicate Before(a: (int, nat), b: (int, nat)) {
    a.0 < b.0 || (a.0 == b.0 && a.1 < b.1)
  }

  predicate PlacedBy(o: Order, owners: set<nat>) {
    o.customer.Some? && o.customer.value in owners
  }

  /** The earliest order of any of the customers. */
  function Earliest(orders: seq<Order>, owners: set<nat>): Option<(int, nat)> {
    if orders == [] then None
    else
      var last, rest := orders[|orders| - 1], Earliest(orders[..|orders| - 1], owners);
      if PlacedBy(last, owners) && (rest.None? || Before((last.created, last.customer.value), rest.value))
      then Some((last.created, last.customer.value)) else rest
  }

  function Least(ids: set<nat>): (least: nat)
    requires ids != {}
    ensures least in ids && forall id :: id in ids ==> least <= id
  {
    assert exists least :: least in ids && forall id :: id in ids ==> least <= id by {
      var some :| some in ids;
      LeastExists(ids, some);
    }
    var least :| least in ids && forall id :: id in ids ==> least <= id;
    least
  }

  lemma {:induction false} LeastExists(ids: set<nat>, some: nat)
    requires some in ids
    ensures exists least :: least in ids && forall id :: id in ids ==> least <= id
    decreases some
  {
    if smaller :| smaller in ids && smaller < some {
      LeastExists(ids, smaller);
    } else {
      assert some in ids && forall id :: id in ids ==> some <= id;
    }
  }

  /** The customer with the earliest order, or the least id when none of them ever ordered. */
  function Winner(orders: seq<Order>, owners: set<nat>): nat
    requires owners != {}
  {
    match Earliest(orders, owners)
    case Some(first) => first.1
    case None => Least(owners)
  }

  lemma {:induction false} EarliestIs(orders: seq<Order>, owners: set<nat>)
    ensures match Earliest(orders, owners)
            case None => forall i :: 0 <= i < |orders| ==> !PlacedBy(orders[i], owners)
            case Some(first) =>
              && (exists i :: 0 <= i < |orders| && PlacedBy(orders[i], owners)
                              && (orders[i].created, orders[i].customer.value) == first)
              && forall i :: 0 <= i < |orders| && PlacedBy(orders[i], owners) ==>
                   !Before((orders[i].created, orders[i].customer.value), first)
  {
    if orders == [] {
    } else {
      EarliestIs(orders[..|orders| - 1], owners);
    }
  }

  /** The winner is one of them, and its first order is as early as anybody's. */
  lemma WinnerIsEarliest(orders: seq<Order>, owners: set<nat>)
    requires owners != {}
    ensures var w := Winner(orders, owners);
            && w in owners
            && (forall i :: 0 <= i < |orders| && PlacedBy(orders[i], owners) ==>
                  exists j :: 0 <= j < |orders| && orders[j].customer == Some(w)
                              && !Before((orders[i].created, orders[i].customer.value), (orders[j].created, w)))
            && ((forall i :: 0 <= i < |orders| ==> !PlacedBy(orders[i], owners)) ==> forall c :: c in owners ==> w <= c)
  {
    EarliestIs(orders, owners);
  }

  /** One more order of the winner leaves it the winner. */
  lemma WinnerStays(orders: seq<Order>, owners: set<nat>, o: Order)
    requires owners != {} && o.customer == Some(Winner(orders, owners))
    ensures Winner(orders + [o], owners) == Winner(orders, owners)
  {
    assert (orders + [o])[..|orders|] == orders;
    EarliestIs(orders, owners);
  }

  // ----- lookup -----

  /** The customers with a row for the phone. */
  function Holders(phones: map<nat, PhoneRow>, phone: string): set<nat> {
    set id | id in phones && phones[id].phone == phone :: phones[id].owner
  }

  /** The customers whose legacy column is the phone. */
  function LegacyHolders(customers: map<nat, Customer>, phone: string): set<nat> {
    set c | c in customers && NormalizePhone(customers[c].phone) == phone
  }

  function Named(customers: map<nat, Customer>, searchName: string): set<nat> {
    set c | c in customers && customers[c].searchName == searchName
  }

  function LowerAscii(text: string): string {
    if text == "" then ""
    else [if 'A' <= text[0] <= 'Z' then (text[0] as int + 32) as char else text[0]] + LowerAscii(text[1..])
  }

  /** Letter by letter: a capital becomes the small letter at its place in the alphabet, everything else stays. */
  lemma LowerByCharacter(c: char, text: string)
    ensures LowerAscii("") == ""
    ensures var lower := LowerAscii([c] + text);
            && lower != [] && lower[1..] == LowerAscii(text)
            && (if 'A' <= c <= 'Z' then 'a' <= lower[0] <= 'z' && lower[0] as int - 'a' as int == c as int - 'A' as int
                else lower[0] == c)
  {
    assert ([c] + text)[1..] == text;
  }

  function WalkIns(customers: map<nat, Customer>): set<nat> {
    set c | c in customers && LowerAscii(customers[c].name) == LowerAscii(WALK_IN)
  }

  /** The request carries neither a phone nor a name. */
  predicate Anonymous(phone: string, name: string) {
    Blank(phone) && Blank(name)
  }

  /** `_resolve_customer_id_by_phone`: without a phone the name is not looked at. */
  function ByPhone(d: Directory, orders: seq<Order>, phone: string, name: string, fold: Folding): Option<nat> {
    var wanted := NormalizePhone(phone);
    if wanted == "" then None
    else if Holders(d.phones, wanted) != {} then Some(Winner(orders, Holders(d.phones, wanted)))
    else if LegacyHolders(d.customers, wanted) != {} then Some(Least(LegacyHolders(d.customers, wanted)))
    else if !Blank(name) && Named(d.customers, fold(Strip(name))) != {}
      then Some(Least(Named(d.customers, fold(Strip(name)))))
    else None
  }

  /** The customer that is there already, if any; the walk-in customer stands for anonymous requests. */
  function Found(d: Directory, orders: seq<Order>, phone: string, name: string, fold: Folding): Option<nat> {
    var known := ByPhone(d, orders, phone, name, fold);
    if known.Some? then known
    else if Anonymous(phone, name) && WalkIns(d.customers) != {} then Some(Least(WalkIns(d.customers)))
    else None
  }

  lemma FoundIsKnown(d: Directory, orders: seq<Order>, phone: string, name: string, fold: Folding)
    requires Keyed(d)
    ensures ByPhone(d, orders, phone, name, fold).Some? ==> ByPhone(d, orders, phone, name, fold).value in d.customers
  {
    hide NormalizePhone, Strip, Winner;
    var holders := Holders(d.phones, NormalizePhone(phone));
    if holders != {} {
      WinnerIsEarliest(orders, holders);
    }
  }

  /**
   Whom a request finds: with a phone, first a customer with a row for it, then the first with it in the legacy
   column, then the first of that name; without a phone nobody.
   */
  lemma ByPhoneFinds(d: Directory, orders: seq<Order>, phone: string, name: string, fold: Folding)
    ensures var wanted, found := NormalizePhone(phone), ByPhone(d, orders, phone, name, fold);
            if wanted == "" then found.None?
            else if exists c :: HasRow(d, wanted, c) then found.Some? && HasRow(d, wanted, found.value)
            else if exists c :: HasLegacy(d, wanted, c) then
              found.Some? && HasLegacy(d, wanted, found.value)
              && forall c :: HasLegacy(d, wanted, c) ==> found.value <= c
            else if !Blank(name) && exists c :: IsCalled(d, fold(Strip(name)), c) then
              && found.Some? && IsCalled(d, fold(Strip(name)), found.value)
              && forall c :: IsCalled(d, fold(Strip(name)), c) ==> found.value <= c
            else found.None?
  {
    hide NormalizePhone, Strip, Winner, Blank;
    var wanted, called := NormalizePhone(phone), fold(Strip(name));
    assert forall c :: HasRow(d, wanted, c) <==> c in Holders(d.phones, wanted);
    assert forall c :: HasLegacy(d, wanted, c) <==> c in LegacyHolders(d.customers, wanted);
    assert forall c :: IsCalled(d, called, c) <==> c in Named(d.customers, called);
    if Holders(d.phones, wanted) != {} {
      WinnerIsEarliest(orders, Holders(d.phones, wanted));
    }
  }

  predicate HasRow(d: Directory, phone: string, c: nat) {
    exists id :: id in d.phones && d.phones[id].phone == phone && d.phones[id].owner == c
  }

  predicate HasLegacy(d: Directory, phone: string, c: nat) {
    c in d.customers && NormalizePhone(d.customers[c].phone) == phone
  }

  predicate IsCalled(d: Directory, searchName: string, c: nat) {
    c in d.customers && d.customers[c].searchName == searchName
  }

  /** The customer created for a request that finds none. */
  function Newcomer(d: Directory, phone: string, name: string, fold: Folding): Directory {
    if Anonymous(phone, name) then Saved(d, WALK_IN, fold(WALK_IN), "", [])
    else
      var called := if Blank(name) then UNNAMED else Strip(name);
      Saved(d, called, fold(called), phone, if Blank(phone) then [] else [PhoneInput(phone, true)])
  }

  /** The record of a newcomer: the given name or a stock one, and the phone as its primary row unless it is blank. */
  lemma NewcomerRecord(d: Directory, phone: string, name: string, fold: Folding)
    requires Keyed(d)
    ensures var after, c := Newcomer(d, phone, name, fold), d.nextCustomer;
            && c in after.customers
            && after.customers[c].name
               == (if !Blank(name) then Strip(name) else if Blank(phone) then "Kh\U{00E1}ch l\U{1EBB}"
                                           else "Kh\U{00E1}ch")
            && after.customers[c].searchName == fold(after.customers[c].name)
            && (!(Blank(phone) && Blank(name)) ==> after.customers[c].phone == NormalizePhone(phone))
            && (Blank(phone) && Blank(name) ==> after.customers[c].phone == "")
            && (Blank(phone) ==> after.phones == d.phones)
            && (!Blank(phone) ==> after.phones == d.phones[d.nextPhone := PhoneRow(c, NormalizePhone(phone), true)])
  {
    hide NormalizePhone, Strip, Blank;
    NormalizeNothing();
    OneRow(d.phones, d.nextPhone, d.nextCustomer, phone);
  }

  lemma OneRow(phones: map<nat, PhoneRow>, next: nat, owner: nat, phone: string)
    ensures WithRows(phones, next, owner, []) == phones
    ensures WithRows(phones, next, owner, [PhoneInput(phone, true)])
            == phones[next := PhoneRow(owner, NormalizePhone(phone), true)]
  {
    hide NormalizePhone;
    assert [PhoneInput(phone, true)][..0] == [];
  }

  /** A newcomer has its phones right, and nobody else changes. */
  lemma NewcomerIsRight(d: Directory, phone: string, name: string, fold: Folding)
    requires Keyed(d)
    ensures var after := Newcomer(d, phone, name, fold);
            && d.nextCustomer !in d.customers && after.customers.Keys == d.customers.Keys + {d.nextCustomer}
            && Keyed(after) && OthersKept(d, after) && PhonesRight(after.phones, after.customers, d.nextCustomer)
  {
    hide NormalizePhone, Strip, Saved, OthersKept, PhonesRight, Keyed, Blank;
    var called := if Anonymous(phone, name) then WALK_IN else if Blank(name) then UNNAMED else Strip(name);
    var legacy := if Anonymous(phone, name) then "" else phone;
    var list := if Blank(phone) then [] else [PhoneInput(phone, true)];
    SavedIsKeyed(d, called, fold(called), legacy, list);
    SavedKeepsOthers(d, called, fold(called), legacy, list);
    SavedRightIff(d, called, fold(called), legacy, list);
    assert list != [] ==> SoleMain(list, 0);
  }


  /** The directory and the customer a request ends with. */
  function Settled(d: Directory, orders: seq<Order>, phone: string, name: string, fold: Folding): (Directory, nat) {
    match Found(d, orders, phone, name, fold)
    case Some(known) => (d, known)
    case None => (Newcomer(d, phone, name, fold), d.nextCustomer)
  }

  /** Settling a request leaves the customers that were there alone, and a newcomer has its phones right. */
  lemma SettledIsRight(d: Directory, orders: seq<Order>, phone: string, name: string, fold: Folding)
    requires Keyed(d)
    ensures var (after, c) := Settled(d, orders, phone, name, fold);
            && Keyed(after) && OthersKept(d, after) && d.customers.Keys <= after.customers.Keys && c in after.customers
            && forall other :: other in after.customers && other !in d.customers ==>
                 other == d.nextCustomer == c && PhonesRight(after.phones, after.customers, other)
  {
    hide NormalizePhone, Strip, Newcomer, PhonesRight, ByPhone;
    assert OthersKept(d, d);
    NewcomerIsRight(d, phone, name, fold);
    FoundIsKnown(d, orders, phone, name, fold);
  }

  // ----- the same request again -----

  /** Somebody found by phone is found again after one more order of theirs. */
  lemma FoundByPhoneAgain(d: Directory, orders: seq<Order>, o: Order, phone: string, name: string, fold: Folding)
    requires ByPhone(d, orders, phone, name, fold).Some? ==> o.customer == ByPhone(d, orders, phone, name, fold)
    ensures ByPhone(d, orders + [o], phone, name, fold) == ByPhone(d, orders, phone, name, fold)
  {
    hide NormalizePhone, Strip, Winner;
    var holders := Holders(d.phones, NormalizePhone(phone));
    if NormalizePhone(phone) != "" && holders != {} {
      WinnerStays(orders, holders, o);
    }
  }

  /** The one holder of a phone wins. */
  lemma SoleHolder(orders: seq<Order>, c: nat)
    ensures Winner(orders, {c}) == c
  {
    WinnerIsEarliest(orders, {c});
  }

  /** A newcomer with a phone is found by it: in its row, or in its legacy column when the phone is blank. */
  lemma NewcomerIsFound(d: Directory, orders: seq<Order>, phone: string, name: string, fold: Folding)
    requires Keyed(d) && Found(d, orders, phone, name, fold).None?
             && !Anonymous(phone, name) && NormalizePhone(phone) != ""
    ensures forall later :: ByPhone(Newcomer(d, phone, name, fold), later, phone, name, fold) == Some(d.nextCustomer)
  {
    hide NormalizePhone, Strip, Winner, Keyed, Blank, Saved, WithRows;
    var wanted, c := NormalizePhone(phone), d.nextCustomer;
    var called := if Blank(name) then UNNAMED else Strip(name);
    var list := if Blank(phone) then [] else [PhoneInput(phone, true)];
    var after := Newcomer(d, phone, name, fold);
    HoldersOfSaved(d, called, fold(called), phone, list, wanted);
    NormalizeTwice(phone);
    if Blank(phone) {
      assert LegacyHolders(after.customers, wanted) == {c};
    } else {
      assert Holders(after.phones, wanted) == {c};
      forall later ensures Winner(later, {c}) == c { SoleHolder(later, c); }
    }
  }

  lemma HoldersOfSaved(d: Directory, name: string, searchName: string, phone: string, list: seq<PhoneInput>,
                       wanted: string)
    requires Keyed(d) && |list| <= 1
    ensures var after := Saved(d, name, searchName, phone, list);
            && Holders(after.phones, wanted)
               == Holders(d.phones, wanted)
                  + (if list != [] && NormalizePhone(list[0].phone) == wanted then {d.nextCustomer} else {})
            && LegacyHolders(after.customers, wanted)
               == LegacyHolders(d.customers, wanted)
                  + (if NormalizePhone(NormalizePhone(phone)) == wanted then {d.nextCustomer} else {})
            && WalkIns(after.customers)
               == WalkIns(d.customers) + (if LowerAscii(name) == LowerAscii(WALK_IN) then {d.nextCustomer} else {})
  {
    hide NormalizePhone, LowerAscii, WithRows, Holders, Added;
    SavedAdds(d, name, searchName, phone, list);
    HoldersOfAdded(d, Saved(d, name, searchName, phone, list), list, wanted);
  }

  lemma HoldersOfAdded(d: Directory, after: Directory, list: seq<PhoneInput>, wanted: string)
    requires Keyed(d) && Added(d, after, list) && |list| <= 1
    ensures Holders(after.phones, wanted)
            == Holders(d.phones, wanted)
               + (if list != [] && NormalizePhone(list[0].phone) == wanted then {d.nextCustomer} else {})
  {
    hide NormalizePhone;
    if list != [] {
      var row := after.phones[d.nextPhone];
      assert row == PhoneRow(d.nextCustomer, NormalizePhone(list[0].phone), list[0].primary);
    }
    forall c | c in Holders(d.phones, wanted) ensures c in Holders(after.phones, wanted) {
      var id :| id in d.phones && d.phones[id].phone == wanted && d.phones[id].owner == c;
      assert after.phones[id] == d.phones[id];
    }
  }

  /** The walk-in customer, once there, is found by every anonymous request. */
  lemma WalkInIsFound(d: Directory, orders: seq<Order>, o: Order, phone: string, name: string, fold: Folding)
    requires Keyed(d) && Anonymous(phone, name) && ByPhone(d, orders, phone, name, fold).None?
    requires o.customer == Some(Settled(d, orders, phone, name, fold).1)
    ensures var (after, c) := Settled(d, orders, phone, name, fold);
            Found(after, orders + [o], phone, name, fold) == Some(c)
  {
    hide NormalizePhone, Strip, Winner, Keyed, Saved, LowerAscii;
    HoldersOfSaved(d, WALK_IN, fold(WALK_IN), "", [], NormalizePhone(phone));
    assert NormalizePhone("") == "" by { NormalizeNothing(); }
  }

  lemma NormalizeNothing()
    ensures NormalizePhone("") == ""
  {
  }

  /**
   Once an order has been placed, the same request finds the same customer again exactly when it has a phone
   or neither phone nor name. A name alone is never looked up, so it makes a new customer every time.
   */
  lemma FoundAgainIff(d: Directory, orders: seq<Order>, o: Order, phone: string, name: string, fold: Folding)
    requires Keyed(d) && o.customer == Some(Settled(d, orders, phone, name, fold).1)
    ensures var (after, c) := Settled(d, orders, phone, name, fold);
            Found(after, orders + [o], phone, name, fold) == Some(c)
            <==> NormalizePhone(phone) != "" || Anonymous(phone, name)
  {
    hide NormalizePhone, Strip, Winner, Keyed, Newcomer, Anonymous;
    if ByPhone(d, orders, phone, name, fold).Some? {
      FoundByPhoneAgain(d, orders, o, phone, name, fold);
    } else if Anonymous(phone, name) {
      WalkInIsFound(d, orders, o, phone, name, fold);
    } else if NormalizePhone(phone) != "" {
      NewcomerIsFound(d, orders, phone, name, fold);
    }
  }

  /** `_resolve_or_create_customer_id`. */
  method ResolveOrCreateCustomerId(db: ShopDb, phone: string, name: string, fold: Folding) returns (id: nat)
    requires db.Valid()
    modifies db`customers, db`nextCustomer, db`phones, db`nextPhone
    ensures db.Valid() && id in db.customers
    ensures (DirectoryOf(db), id) == Settled(old(DirectoryOf(db)), db.orders, phone, name, fold)
  {
    hide NormalizePhone, Strip, Saved, WithRows, LowerAscii, PhonesKeyed, CustomersKeyed, OrdersKeyed, ItemsKeyed;
    var known := ByPhone(DirectoryOf(db), db.orders, phone, name, fold);
    FoundIsKnown(DirectoryOf(db), db.orders, phone, name, fold);
    if known.Some? {
      return known.value;
    }
    if !Blank(name) || !Blank(phone) {
      var called := if Blank(name) then UNNAMED else Strip(name);
      id := SaveCustomer(db, called, fold(called), phone, if Blank(phone) then [] else [PhoneInput(phone, true)]);
      return;
    }
    if WalkIns(db.customers) != {} {
      return Least(WalkIns(db.customers));
    }
    id := SaveCustomer(db, WALK_IN, fold(WALK_IN), "", []);
  }

  // ----- after a merge -----

  /** Some order of the two merged customers precedes every order of the others, counted as the target's. */
  ghost predicate Leads(orders: seq<Order>, source: nat, target: nat, others: set<nat>) {
    exists j :: 0 <= j < |orders| && PlacedBy(orders[j], {source, target})
                && forall i :: 0 <= i < |orders| && PlacedBy(orders[i], others) ==>
                     Before((orders[j].created, target), (orders[i].created, orders[i].customer.value))
  }

  /** Who wins a phone once the source's orders are the target's. */
  lemma WinnerAfterMergeIff(orders: seq<Order>, owners: set<nat>, source: nat, target: nat)
    requires target in owners && source !in owners
    ensures Winner(Relinked(orders, {source}, target), owners) == target
       <==> if exists i :: 0 <= i < |orders| && PlacedBy(orders[i], owners + {source})
            then Leads(orders, source, target, owners - {target})
            else forall c :: c in owners ==> target <= c
  {
    var merged := Relinked(orders, {source}, target);
    EarliestIs(merged, owners);
    assert forall i :: 0 <= i < |orders| ==> (PlacedBy(merged[i], owners) <==> PlacedBy(orders[i], owners + {source}));
    assert forall i :: 0 <= i < |orders| ==>
             (merged[i].customer == Some(target) <==> PlacedBy(orders[i], {source, target}));
    assert forall i :: 0 <= i < |orders| && PlacedBy(orders[i], owners - {target}) ==> merged[i] == orders[i];
  }

  /** After a merge the phone's rows belong to the target and to everybody else who had it. */
  lemma HoldersAfterMerge(phones0: map<nat, PhoneRow>, phones: map<nat, PhoneRow>, customers0: map<nat, Customer>,
                          customers: map<nat, Customer>, source: nat, target: nat, wanted: string)
    requires OthersUntouched(phones0, phones, customers0, customers, source, target)
    requires wanted in RowPhones(phones, target)
    ensures Holders(phones, wanted) == Holders(phones0, wanted) - {source} + {target}
  {
    forall c | c in Holders(phones0, wanted) && c != source ensures c in Holders(phones, wanted) {
      var id :| id in phones0 && phones0[id].phone == wanted && phones0[id].owner == c;
      assert phones[id] == phones0[id];
    }
  }

  /**
   Orders follow a merge: a phone of the source leads to the target afterwards, exactly unless another customer
   has it too and ordered before both.
   */
  lemma MergeRedirectsIff(d0: Directory, d: Directory, orders: seq<Order>, source: nat, target: nat,
                          phone: string, name: string, fold: Folding)
    requires source != target && target in d0.customers && source in d0.customers && target in d.customers
    requires OthersUntouched(d0.phones, d.phones, d0.customers, d.customers, source, target)
    requires EffectivePhones(d.phones, d.customers, target)
          == EffectivePhones(d0.phones, d0.customers, target) + EffectivePhones(d0.phones, d0.customers, source)
    requires HasRows(d.phones, target) || d.customers[target].phone == ""
    requires NormalizePhone(phone) in EffectivePhones(d0.phones, d0.customers, source)
    ensures var others := Holders(d0.phones, NormalizePhone(phone)) - {source, target};
            ByPhone(d, Relinked(orders, {source}, target), phone, name, fold) == Some(target)
            <==> if exists i :: 0 <= i < |orders| && PlacedBy(orders[i], others + {source, target})
                 then Leads(orders, source, target, others)
                 else forall c :: c in others ==> target <= c
  {
    hide NormalizePhone, Strip, Winner, OthersUntouched, EffectivePhones, Leads, Relinked;
    var wanted := NormalizePhone(phone);
    assert wanted in RowPhones(d.phones, target) by { OnRows(d, target, wanted); }
    HoldersAfterMerge(d0.phones, d.phones, d0.customers, d.customers, source, target, wanted);
    var owners := Holders(d.phones, wanted);
    WinnerAfterMergeIff(orders, owners, source, target);
    var others := Holders(d0.phones, wanted) - {source, target};
    assert others == owners - {target} && owners + {source} == others + {source, target};
  }

  lemma OnRows(d: Directory, c: nat, phone: string)
    requires c in d.customers && (HasRows(d.phones, c) || d.customers[c].phone == "")
    requires phone in EffectivePhones(d.phones, d.customers, c)
    ensures phone in RowPhones(d.phones, c) && phone != ""
  {
  }
}
