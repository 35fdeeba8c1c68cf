/**
 The duplicate finder: customers that share a phone, or a name stripped of diacritics, are
 grouped by that key, and every set of customers is reported at most once.
 */
module Duplicates {
  import opened Shop

  datatype Kind = ByPhone | ByName

  datatype Keyed = Keyed(key: string, customer: nat)

  datatype Group = Group(key: string, kind: Kind, customers: seq<nat>)

  function Members(customers: seq<nat>): set<nat> {
    set c | c in customers
  }

  /** The customers a list of query rows puts under a key. */
  function Holders(rows: seq<Keyed>, key: string): set<nat> {
    set r | r in rows && r.key == key :: r.customer
  }

  /** The customers that share a non-empty phone, or a non-empty search name. */
  function Sharing(kind: Kind, key: string, phones: map<nat, PhoneRow>, customers: map<nat, Customer>): set<nat> {
    match kind
    case ByPhone =>
      set id | id in phones && phones[id].phone == key && key != "" && phones[id].owner in customers :: phones[id].owner
    case ByName => set c | c in customers && customers[c].searchName == key && key != ""
  }

  /** A group reports at least two distinct customers, and exactly those sharing its key. */
  predicate GroupSound(g: Group, phones: map<nat, PhoneRow>, customers: map<nat, Customer>) {
    && |g.customers| >= 2
    && (forall i, j :: 0 <= i < j < |g.customers| ==> g.customers[i] != g.customers[j])
    && Members(g.customers) == Sharing(g.kind, g.key, phones, customers)
  }

  predicate NoSetTwice(groups: seq<Group>) {
    forall i, j :: 0 <= i < j < |groups| ==> Members(groups[i].customers) != Members(groups[j].customers)
  }

  predicate Reported(groups: seq<Group>, s: set<nat>) {
    exists i :: 0 <= i < |groups| && Members(groups[i].customers) == s
  }

  /** The rows of the phone query: customer_phones joined to customers, empty phones dropped. */
  method PhoneQuery(phones: map<nat, PhoneRow>, next: nat, customers: map<nat, Customer>) returns (rows: seq<Keyed>)
    requires forall id :: id in phones ==> id < next
    ensures forall r :: r in rows ==> r.key != ""
    ensures forall key :: Holders(rows, key) == Sharing(ByPhone, key, phones, customers)
  {
    rows := [];
    for id := 0 to next
      invariant forall r :: r in rows <==> exists i :: 0 <= i < id && PhoneRowAt(phones, customers, i, r)
    {
      if id in phones && phones[id].phone != "" && phones[id].owner in customers {
        var r := Keyed(phones[id].phone, phones[id].owner);
        assert PhoneRowAt(phones, customers, id, r);
        rows := rows + [r];
      }
    }
    forall key ensures Holders(rows, key) == Sharing(ByPhone, key, phones, customers) {
      forall c | c in Sharing(ByPhone, key, phones, customers) ensures c in Holders(rows, key) {
        var id :| id in phones && phones[id].phone == key && key != ""
                  && phones[id].owner in customers && phones[id].owner == c;
        assert PhoneRowAt(phones, customers, id, Keyed(key, c));
      }
    }
  }

  predicate PhoneRowAt(phones: map<nat, PhoneRow>, customers: map<nat, Customer>, id: nat, r: Keyed) {
    id in phones && phones[id].phone != "" && phones[id].owner in customers
    && r == Keyed(phones[id].phone, phones[id].owner)
  }

  /** The rows of the name query. */
  method NameQuery(customers: map<nat, Customer>) returns (rows: seq<Keyed>)
    ensures forall r :: r in rows ==> r.key != ""
    ensures forall key :: Holders(rows, key) == Sharing(ByName, key, map[], customers)
  {
    rows := [];
    var rest := customers.Keys;
    while rest != {}
      invariant rest <= customers.Keys
      invariant forall r :: r in rows <==>
                  r.customer in customers.Keys - rest && customers[r.customer].searchName == r.key && r.key != ""
      decreases |rest|
    {
      var c :| c in rest;
      rest := rest - {c};
      if customers[c].searchName != "" {
        rows := rows + [Keyed(customers[c].searchName, c)];
      }
    }
    forall key ensures Holders(rows, key) == Sharing(ByName, key, map[], customers) {
      forall c | c in Sharing(ByName, key, map[], customers) ensures c in Holders(rows, key) {
        assert Keyed(key, c) in rows;
      }
    }
  }

  /** Collects the rows into lists by key, keys in order of first appearance. */
  method GroupByKey(rows: seq<Keyed>) returns (keys: seq<string>, lists: map<string, seq<nat>>)
    ensures forall key :: key in keys <==> key in lists
    ensures forall key :: key in lists <==> Holders(rows, key) != {}
    ensures forall key :: key in lists ==> Members(lists[key]) == Holders(rows, key)
  {
    hide Holders, Members;
    keys, lists := [], map[];
    NoHolders();
    assert rows[..0] == [];
    for i := 0 to |rows|
      invariant forall key :: key in keys <==> key in lists
      invariant forall key :: key in lists <==> Holders(rows[..i], key) != {}
      invariant forall key :: key in lists ==> Members(lists[key]) == Holders(rows[..i], key)
    {
      var r := rows[i];
      assert rows[..i + 1] == rows[..i] + [r];
      HoldersAppend(rows[..i], r);
      if r.key !in lists {
        keys := keys + [r.key];
        MembersAppend([], r.customer);
        assert [] + [r.customer] == [r.customer];
        lists := lists[r.key := [r.customer]];
      } else {
        MembersAppend(lists[r.key], r.customer);
        lists := lists[r.key := lists[r.key] + [r.customer]];
      }
    }
    assert rows[..|rows|] == rows;
  }

  lemma NoHolders()
    ensures forall key :: Holders([], key) == {}
    ensures Members([]) == {}
  {
  }

  lemma HoldersAppend(rows: seq<Keyed>, r: Keyed)
    ensures forall key :: Holders(rows + [r], key) == Holders(rows, key) + if key == r.key then {r.customer} else {}
  {
    forall key ensures Holders(rows + [r], key) == Holders(rows, key) + if key == r.key then {r.customer} else {} {
      forall c | c in Holders(rows, key) ensures c in Holders(rows + [r], key) {
        assert Keyed(key, c) in rows + [r];
      }
    }
  }

  lemma MembersAppend(customers: seq<nat>, c: nat)
    ensures Members(customers + [c]) == Members(customers) + {c}
  {
  }

  /** Drops repeated customers of one group, keeping the first occurrence. */
  method Unique(members: seq<nat>) returns (unique: seq<nat>, ids: set<nat>)
    ensures ids == Members(members) == Members(unique) && |unique| == |ids|
    ensures forall i, j :: 0 <= i < j < |unique| ==> unique[i] != unique[j]
  {
    unique, ids := [], {};
    for i := 0 to |members|
      invariant ids == Members(members[..i]) == Members(unique) && |unique| == |ids|
      invariant forall i, j :: 0 <= i < j < |unique| ==> unique[i] != unique[j]
    {
      var c := members[i];
      assert Members(members[..i + 1]) == Members(members[..i]) + {c};
      if c !in ids {
        assert Members(unique + [c]) == Members(unique) + {c};
        unique, ids := unique + [c], ids + {c};
      }
    }
    assert members[..|members|] == members;
  }

  /** What holds of the groups while they are emitted, `seen` being the sets already reported. */
  predicate Emitted(groups: seq<Group>, seen: set<set<nat>>, phones: map<nat, PhoneRow>,
                    customers: map<nat, Customer>) {
    && (forall i :: 0 <= i < |groups| ==>
          GroupSound(groups[i], phones, customers) && Members(groups[i].customers) in seen)
    && (forall s :: s in seen ==> Reported(groups, s))
    && NoSetTwice(groups)
  }

  /** Everything after the first `n` groups is of this kind and covers a set that was not reported before. */
  predicate NewGroups(groups: seq<Group>, n: nat, kind: Kind, seen: set<set<nat>>) {
    forall i :: n <= i < |groups| ==> groups[i].kind == kind && Members(groups[i].customers) !in seen
  }

  /** `_emit_group`: appends the group unless it is too small or its customer set was reported. */
  method EmitGroup(groups: seq<Group>, seen: set<set<nat>>, key: string, kind: Kind, members: seq<nat>,
                   phones: map<nat, PhoneRow>, customers: map<nat, Customer>)
    returns (groups': seq<Group>, seen': set<set<nat>>)
    requires Emitted(groups, seen, phones, customers)
    requires Members(members) == Sharing(kind, key, phones, customers)
    ensures Emitted(groups', seen', phones, customers) && seen <= seen'
    ensures |Sharing(kind, key, phones, customers)| >= 2 ==> Sharing(kind, key, phones, customers) in seen'
    ensures groups <= groups' && NewGroups(groups', |groups|, kind, seen)
  {
    groups', seen' := groups, seen;
    var unique, ids := Unique(members);
    if |members| < 2 {
      DistinctAreFewer(members);
      return;
    }
    if |unique| < 2 || ids in seen {
      return;
    }
    seen' := seen + {ids};
    var g := Group(key, kind, unique);
    groups' := groups + [g];
    forall s | s in seen' ensures Reported(groups', s) {
      if s == ids {
        assert groups'[|groups|] == g;
      } else {
        var i :| 0 <= i < |groups| && Members(groups[i].customers) == s;
        assert groups'[i] == groups[i];
      }
    }
  }

  lemma DistinctAreFewer(members: seq<nat>)
    requires |members| < 2
    ensures |Members(members)| < 2
  {
    if |members| == 0 {
      assert Members(members) == {};
    } else {
      assert Members(members) == {members[0]};
    }
  }

  lemma TwoMembers(customers: seq<nat>)
    requires |customers| >= 2 && customers[0] != customers[1]
    ensures |Members(customers)| >= 2
  {
    assert {customers[0], customers[1]} <= Members(customers);
    SubsetIsSmaller({customers[0], customers[1]}, Members(customers));
  }

  lemma {:induction false} SubsetIsSmaller(a: set<nat>, b: set<nat>)
    requires a <= b
    ensures |a| <= |b|
  {
    if a != {} {
      var x :| x in a;
      SubsetIsSmaller(a - {x}, b - {x});
    }
  }

  /** Emits the groups of one kind of key. */
  method EmitAll(groups: seq<Group>, seen: set<set<nat>>, kind: Kind, rows: seq<Keyed>,
                 phones: map<nat, PhoneRow>, customers: map<nat, Customer>)
    returns (groups': seq<Group>, seen': set<set<nat>>)
    requires Emitted(groups, seen, phones, customers)
    requires forall key :: Holders(rows, key) == Sharing(kind, key, phones, customers)
    ensures Emitted(groups', seen', phones, customers) && seen <= seen'
    ensures forall key :: |Sharing(kind, key, phones, customers)| >= 2 ==>
              Sharing(kind, key, phones, customers) in seen'
    ensures groups <= groups' && NewGroups(groups', |groups|, kind, seen)
  {
    hide Emitted, Sharing;
    groups', seen' := groups, seen;
    var keys, lists := GroupByKey(rows);
    for i := 0 to |keys|
      invariant Emitted(groups', seen', phones, customers) && seen <= seen'
      invariant forall key :: key in keys[..i] && |Sharing(kind, key, phones, customers)| >= 2 ==>
                                Sharing(kind, key, phones, customers) in seen'
      invariant groups <= groups' && NewGroups(groups', |groups|, kind, seen)
    {
      groups', seen' := EmitGroup(groups', seen', keys[i], kind, lists[keys[i]], phones, customers);
    }
    assert keys[..|keys|] == keys;
    forall key | |Sharing(kind, key, phones, customers)| >= 2 ensures key in keys {
      assert Holders(rows, key) != {};
    }
  }

  /** Sound and complete, and no customer set twice; one that a phone explains is reported under a phone. */
  method ListDuplicateCustomers(db: ShopDb) returns (groups: seq<Group>)
    requires db.Valid()
    ensures forall i :: 0 <= i < |groups| ==> GroupSound(groups[i], db.phones, db.customers)
    ensures NoSetTwice(groups)
    ensures forall kind, key :: |Sharing(kind, key, db.phones, db.customers)| >= 2 ==>
                                  Reported(groups, Sharing(kind, key, db.phones, db.customers))
    ensures forall i, key :: 0 <= i < |groups| && groups[i].kind == ByName ==>
                               Members(groups[i].customers) != Sharing(ByPhone, key, db.phones, db.customers)
  {
    var phoneRows := PhoneQuery(db.phones, db.nextPhone, db.customers);
    var nameRows := NameQuery(db.customers);
    var seen: set<set<nat>> := {};
    groups := [];
    groups, seen := EmitAll(groups, seen, ByPhone, phoneRows, db.phones, db.customers);
    ghost var byPhone, seenByPhone := groups, seen;
    groups, seen := EmitAll(groups, seen, ByName, nameRows, db.phones, db.customers);
    assert forall i :: 0 <= i < |byPhone| ==> groups[i] == byPhone[i] && groups[i].kind == ByPhone;
    forall i, key | 0 <= i < |groups| && groups[i].kind == ByName
      ensures Members(groups[i].customers) != Sharing(ByPhone, key, db.phones, db.customers)
    {
      TwoMembers(groups[i].customers);
    }
    forall kind: Kind, key: string | |Sharing(kind, key, db.phones, db.customers)| >= 2
      ensures Reported(groups, Sharing(kind, key, db.phones, db.customers))
    {
      assert Sharing(kind, key, db.phones, db.customers) in seen;
    }
  }
}
