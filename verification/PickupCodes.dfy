/**
 Pickup codes: a reference, a dash and one letter for the delivery type. A code is drawn at random
 until it is free on its due date; a delivery-type change only replaces the letter.
 */
module PickupCodes {
  import opened Common
  import opened Shop

  const MAX_REFERENCE_LEN := 6
  const LETTERS := "ABCDLMNV"
  const DIGITS := "0123456789"

  /** The random source: the reference drawn for a length and an attempt. */
  type Draw = (nat, nat) -> string

  /** What the generator can draw: a letter and then digits. */
  predicate IsReference(reference: string, len: nat) {
    |reference| == len > 0 && reference[0] in LETTERS && forall i :: 1 <= i < len ==> reference[i] in DIGITS
  }

  ghost predicate DrawsReferences(draw: Draw) {
    forall len: nat, attempt: nat :: len > 0 ==> IsReference(draw(len, attempt), len)
  }

  function Suffix(deliveryType: string): char {
    if deliveryType == "pickup" then 'T' else if deliveryType == "bus" then 'B' else 'S'
  }

  /** T for pickup, B for the bus, S for everything else. */
  lemma Letters(deliveryType: string)
    ensures Suffix("pickup") == 'T' && Suffix("bus") == 'B' && Suffix("delivery") == 'S'
    ensures deliveryType != "pickup" && deliveryType != "bus" ==> Suffix(deliveryType) == 'S'
  {
  }

  function CodeFor(reference: string, deliveryType: string): string {
    reference + ['-', Suffix(deliveryType)]
  }

  /** Some reference without a dash, then a dash and one letter. */
  predicate SuffixForm(code: string) {
    |code| >= 2 && code[|code| - 2] == '-' && '-' !in code[..|code| - 2]
  }

  /** The letter is that of the delivery type. */
  predicate SuffixMatches(code: string, deliveryType: string) {
    SuffixForm(code) && code[|code| - 1] == Suffix(deliveryType)
  }

  /** The index of the first dash, or the length when there is none. */
  function FirstDash(code: string): (i: nat)
    ensures i <= |code| && '-' !in code[..i] && (i < |code| ==> code[i] == '-')
  {
    if code == "" || code[0] == '-' then 0
    else
      var i := 1 + FirstDash(code[1..]);
      assert code[..i] == [code[0]] + code[1..][..i - 1];
      i
  }

  /** `_replace_public_code_suffix`: a code without a dash is left as it is. */
  function ReplaceSuffix(code: string, deliveryType: string): string {
    var i := FirstDash(code);
    if i == |code| then code else CodeFor(code[..i], deliveryType)
  }

  lemma FirstDashIs(code: string, n: nat)
    requires n < |code| && code[n] == '-' && '-' !in code[..n]
    ensures FirstDash(code) == n
  {
    var i := FirstDash(code);
    assert forall k :: 0 <= k < n ==> code[..n][k] == code[k];
    assert forall k :: 0 <= k < i ==> code[..i][k] == code[k];
  }

  /** Replacing the letter makes the code match, and replacing it back restores the code. */
  lemma ReplacedSuffixMatches(code: string, after: string)
    requires SuffixForm(code)
    ensures SuffixMatches(ReplaceSuffix(code, after), after)
    ensures forall before :: SuffixMatches(code, before) ==> ReplaceSuffix(ReplaceSuffix(code, after), before) == code
  {
    var n := |code| - 2;
    FirstDashIs(code, n);
    var replaced := ReplaceSuffix(code, after);
    assert replaced[..n] == code[..n];
    FirstDashIs(replaced, n);
    assert forall before :: SuffixMatches(code, before) ==> code == code[..n] + ['-', Suffix(before)];
  }

  /** A code without a dash stays; of any other only what comes before the first dash does. */
  lemma ReplacedFromFirstDash(code: string, n: nat, deliveryType: string)
    ensures '-' !in code ==> ReplaceSuffix(code, deliveryType) == code
    ensures n < |code| && code[n] == '-' && '-' !in code[..n] ==>
              ReplaceSuffix(code, deliveryType) == code[..n] + ['-', Suffix(deliveryType)]
  {
    var i := FirstDash(code);
    if n < |code| && code[n] == '-' && '-' !in code[..n] {
      FirstDashIs(code, n);
    }
  }

  lemma DrawnCodeMatches(reference: string, len: nat, deliveryType: string)
    requires IsReference(reference, len)
    ensures SuffixMatches(CodeFor(reference, deliveryType), deliveryType)
  {
    var code := CodeFor(reference, deliveryType);
    assert code[..|code| - 2] == reference;
    assert forall i :: 1 <= i < len ==> reference[i] in DIGITS && '-' !in DIGITS;
  }

  /** An order other than `except` holds the code on a due date; a missing due date never matches. */
  predicate Taken(orders: seq<Order>, due: Option<string>, code: string, except: Option<nat>) {
    exists i: nat :: i < |orders| && HoldsCode(orders[i], due, code) && except != Some(i)
  }

  predicate HoldsCode(o: Order, due: Option<string>, code: string) {
    due.Some? && o.dueDate == due && o.code == code
  }

  /** No two orders due the same day share a non-empty code. */
  ghost predicate CodesUnique(orders: seq<Order>) {
    forall i: nat, j: nat :: i < |orders| && j < |orders| && i != j && orders[i].code != "" ==>
                               !HoldsCode(orders[j], orders[i].dueDate, orders[i].code)
  }

  /** Two different orders due on the same day never carry the same code, unless it is empty. */
  lemma UniqueMeans(orders: seq<Order>)
    ensures CodesUnique(orders) <==>
              forall i, j :: 0 <= i < j < |orders| && orders[i].code != "" && orders[i].dueDate.Some?
                             && orders[i].dueDate == orders[j].dueDate ==>
                               orders[i].code != orders[j].code
  {
    if CodesUnique(orders) {
      forall i, j | 0 <= i < j < |orders| && orders[i].code != "" && orders[i].dueDate.Some?
                    && orders[i].dueDate == orders[j].dueDate
        ensures orders[i].code != orders[j].code
      {
        assert !HoldsCode(orders[j], orders[i].dueDate, orders[i].code);
      }
    }
  }

  /** A code is taken on a date when another order due that day carries it; without a date none is. */
  lemma TakenMeans(orders: seq<Order>, due: string, code: string, except: nat)
    ensures !Taken(orders, None, code, None) && !Taken(orders, None, code, Some(except))
    ensures Taken(orders, Some(due), code, None) <==>
              exists i :: 0 <= i < |orders| && orders[i].dueDate == Some(due) && orders[i].code == code
    ensures Taken(orders, Some(due), code, Some(except)) <==>
              exists i :: 0 <= i < |orders| && i != except && orders[i].dueDate == Some(due) && orders[i].code == code
  {
  }

  ghost predicate SuffixesMatch(orders: seq<Order>) {
    forall i :: 0 <= i < |orders| && orders[i].code != "" ==> SuffixMatches(orders[i].code, orders[i].deliveryType)
  }

  function Attempts(len: nat): nat {
    if len == 3 then 30 else 50
  }

  /** Every code the generator would try on this due date is taken. */
  ghost predicate Exhausted(orders: seq<Order>, due: Option<string>, deliveryType: string, draw: Draw) {
    forall len: nat, attempt: nat :: 3 <= len <= MAX_REFERENCE_LEN && attempt < Attempts(len) ==>
      Taken(orders, due, CodeFor(draw(len, attempt), deliveryType), None)
  }

  /**
   The code is the first free one the generator draws: up to 30 draws of length 3, then up to 50 of each longer
   one.
   */
  ghost predicate Drawn(orders: seq<Order>, due: Option<string>, deliveryType: string, draw: Draw, code: string) {
    exists len: nat, attempt: nat ::
      && 3 <= len <= 6 && attempt < (if len == 3 then 30 else 50) && code == CodeFor(draw(len, attempt), deliveryType)
      && !Taken(orders, due, code, None)
      && (forall l: nat, a: nat :: 3 <= l < len && a < (if l == 3 then 30 else 50) ==>
            Taken(orders, due, CodeFor(draw(l, a), deliveryType), None))
      && forall a: nat :: a < attempt ==> Taken(orders, due, CodeFor(draw(len, a), deliveryType), None)
  }

  /** Draws until a code is free on the due date; fails only when every draw was taken. */
  method GenerateUniquePublicOrderCode(db: ShopDb, due: Option<string>, deliveryType: string, draw: Draw)
    returns (code: Option<string>)
    requires DrawsReferences(draw)
    ensures code.Some? ==> !Taken(db.orders, due, code.value, None) && SuffixMatches(code.value, deliveryType)
    ensures code.Some? ==> Drawn(db.orders, due, deliveryType, draw, code.value)
    ensures code.None? ==> Exhausted(db.orders, due, deliveryType, draw)
  {
    for len := 3 to MAX_REFERENCE_LEN + 1
      invariant forall l: nat, a: nat :: 3 <= l < len && a < Attempts(l) ==>
                  Taken(db.orders, due, CodeFor(draw(l, a), deliveryType), None)
    {
      for attempt := 0 to Attempts(len)
        invariant forall a: nat :: a < attempt ==> Taken(db.orders, due, CodeFor(draw(len, a), deliveryType), None)
      {
        var candidate := CodeFor(draw(len, attempt), deliveryType);
        if !Taken(db.orders, due, candidate, None) {
          DrawnCodeMatches(draw(len, attempt), len, deliveryType);
          return Some(candidate);
        }
      }
    }
    return None;
  }

  datatype Decision = Keep | Regenerate

  /**
   The code an edited order should carry: none without one; a fresh draw when the date changes and the owner asks
   for it or the old code is taken there; else the old code, with the letter of a new type unless that is taken.
   */
  ghost predicate RightCode(orders: seq<Order>, id: nat, due: Option<string>, deliveryType: string,
                            decision: Option<Decision>, draw: Draw, code: string)
    requires id < |orders|
  {
    var o := orders[id];
    if o.code == "" then code == ""
    else if due != o.dueDate && (decision == Some(Regenerate) || Taken(orders, due, o.code, Some(id))) then
      Drawn(orders, due, deliveryType, draw, code)
    else if deliveryType == o.deliveryType then code == o.code
    else if !Taken(orders, due, ReplaceSuffix(o.code, deliveryType), Some(id)) then
      code == ReplaceSuffix(o.code, deliveryType)
    else Drawn(orders, due, deliveryType, draw, code)
  }

  datatype CodeOutcome = NewCode(code: string) | DecisionRequired | GenerationFailed

  /** The date step of an edit: keep the code, draw a new one, or draw because the kept one is taken on the new date. */
  method RedatedCode(db: ShopDb, id: nat, newDue: Option<string>, newType: string, decision: Option<Decision>,
                     draw: Draw)
    returns (outcome: CodeOutcome)
    requires id < |db.orders| && DrawsReferences(draw)
    ensures var o := db.orders[id];
            && (outcome.DecisionRequired? <==> newDue != o.dueDate && o.code != "" && decision.None?)
            && (outcome.GenerationFailed? ==> o.code != "" && Exhausted(db.orders, newDue, newType, draw))
            && (outcome.NewCode? ==> outcome.code == o.code || (o.code != "" && SuffixMatches(outcome.code, newType)))
            && (outcome.NewCode? && o.code != "" && newDue != o.dueDate ==>
                  !Taken(db.orders, newDue, outcome.code, Some(id)))
            && (outcome.NewCode?
                && (newDue == o.dueDate
                    || (decision != Some(Regenerate) && !Taken(db.orders, newDue, o.code, Some(id)))) ==>
                  outcome.code == o.code)
            && (outcome.NewCode? && o.code != "" && newDue != o.dueDate
                && (decision == Some(Regenerate) || Taken(db.orders, newDue, o.code, Some(id))) ==>
                  Drawn(db.orders, newDue, newType, draw, outcome.code))
  {
    hide SuffixForm, Exhausted, DrawsReferences, Drawn;
    var o := db.orders[id];
    if newDue == o.dueDate || o.code == "" {
      return NewCode(o.code);
    }
    if decision.None? {
      return DecisionRequired;
    }
    if decision == Some(Regenerate) || Taken(db.orders, newDue, o.code, Some(id)) {
      var drawn := GenerateUniquePublicOrderCode(db, newDue, newType, draw);
      return if drawn.None? then GenerationFailed else NewCode(drawn.value);
    }
    return NewCode(o.code);
  }

  /** The type step of an edit: replace the letter, or draw when the result is taken; None when nothing can be drawn. */
  method RetypedCode(db: ShopDb, id: nat, current: string, newDue: Option<string>, newType: string, draw: Draw)
    returns (code: Option<string>)
    requires id < |db.orders| && DrawsReferences(draw)
    ensures code.None? ==> current != "" && Exhausted(db.orders, newDue, newType, draw)
    ensures current == "" || newType == db.orders[id].deliveryType ==> code == Some(current)
    ensures code.Some? && current != "" && newType != db.orders[id].deliveryType ==>
              !Taken(db.orders, newDue, code.value, Some(id))
              && (SuffixForm(current) ==> SuffixMatches(code.value, newType))
              && code.value != ""
    ensures current != "" && newType != db.orders[id].deliveryType ==>
              if !Taken(db.orders, newDue, ReplaceSuffix(current, newType), Some(id))
              then code == Some(ReplaceSuffix(current, newType))
              else code.Some? ==> Drawn(db.orders, newDue, newType, draw, code.value)
  {
    hide Exhausted, DrawsReferences, Taken, Drawn;
    if current == "" || newType == db.orders[id].deliveryType {
      return Some(current);
    }
    var replaced := ReplaceSuffix(current, newType);
    if SuffixForm(current) {
      ReplacedSuffixMatches(current, newType);
    }
    if !Taken(db.orders, newDue, replaced, Some(id)) {
      return Some(replaced);
    }
    code := GenerateUniquePublicOrderCode(db, newDue, newType, draw);
    if code.Some? {
      NobodyHolds(db.orders, newDue, code.value, id);
    }
  }

  lemma NobodyHolds(orders: seq<Order>, due: Option<string>, code: string, id: nat)
    requires !Taken(orders, due, code, None)
    ensures !Taken(orders, due, code, Some(id))
  {
  }

  /** The code an edited order ends up with on its new due date and delivery type. */
  method EditedCode(db: ShopDb, id: nat, newDue: Option<string>, newType: string, decision: Option<Decision>,
                    draw: Draw)
    returns (outcome: CodeOutcome)
    requires id < |db.orders| && DrawsReferences(draw)
    ensures var o := db.orders[id];
            && (outcome.DecisionRequired? <==> newDue != o.dueDate && o.code != "" && decision.None?)
            && (outcome.GenerationFailed? ==> o.code != "" && Exhausted(db.orders, newDue, newType, draw))
            && (outcome.NewCode? ==> (outcome.code == "" <==> o.code == ""))
            && (outcome.NewCode? && o.code != ""
                && (newDue != o.dueDate || newType != o.deliveryType || CodesUnique(db.orders)) ==>
                  !Taken(db.orders, newDue, outcome.code, Some(id)))
            && (outcome.NewCode? && SuffixForm(o.code) ==>
                  SuffixMatches(outcome.code, newType) || (outcome.code == o.code && newType == o.deliveryType))
            && (outcome.NewCode? ==> RightCode(db.orders, id, newDue, newType, decision, draw, outcome.code))
  {
    hide SuffixForm, Exhausted, DrawsReferences, Taken, CodesUnique, Drawn, ReplaceSuffix;
    outcome := RedatedCode(db, id, newDue, newType, decision, draw);
    if outcome.NewCode? {
      FormOfMatch(outcome.code, newType);
      FormOfMatch(db.orders[id].code, newType);
      DrawnStays(db.orders, id, newDue, newType, draw, outcome.code);
      var retyped := RetypedCode(db, id, outcome.code, newDue, newType, draw);
      outcome := if retyped.None? then GenerationFailed else NewCode(retyped.value);
    }
    OwnCodeIsFree(db.orders, id);
  }

  /** A drawn code carries the letter of its type already, and is free for the order that is edited. */
  lemma DrawnStays(orders: seq<Order>, id: nat, due: Option<string>, deliveryType: string, draw: Draw, code: string)
    requires DrawsReferences(draw)
    ensures Drawn(orders, due, deliveryType, draw, code) ==>
              ReplaceSuffix(code, deliveryType) == code && !Taken(orders, due, code, Some(id)) && code != ""
  {
    hide Taken;
    if Drawn(orders, due, deliveryType, draw, code) {
      var len: nat, attempt: nat :|
        3 <= len <= 6 && code == CodeFor(draw(len, attempt), deliveryType) && !Taken(orders, due, code, None);
      DrawnCodeMatches(draw(len, attempt), len, deliveryType);
      SameLetter(code, deliveryType);
      NobodyHolds(orders, due, code, id);
    }
  }

  lemma SameLetter(code: string, deliveryType: string)
    requires SuffixMatches(code, deliveryType)
    ensures ReplaceSuffix(code, deliveryType) == code
  {
    FirstDashIs(code, |code| - 2);
    assert code == code[..|code| - 2] + ['-', Suffix(deliveryType)];
  }

  lemma FormOfMatch(code: string, deliveryType: string)
    ensures SuffixMatches(code, deliveryType) ==> SuffixForm(code)
    ensures SuffixForm(code) ==> code != ""
  {
  }

  lemma OwnCodeIsFree(orders: seq<Order>, id: nat)
    requires id < |orders|
    ensures CodesUnique(orders) && orders[id].code != "" ==>
              !Taken(orders, orders[id].dueDate, orders[id].code, Some(id))
  {
  }
}
