/** packages/utils/src/order-pricing.ts over exact numbers. */
module OrderPricing {

  import opened JsText

  /** A field as JavaScript's Number sees it: null, undefined or the empty string; something
      that converts to no finite number; or a number. */
  datatype Raw = Absent | NotFinite | Num(n: real)

  type Money = Option<real>

  function FiniteNumber(value: Raw): Money {
    if value.Num? then Some(value.n) else None
  }

  function PaiseToRupees(value: Raw): Money {
    match FiniteNumber(value)
    case None => None
    case Some(n) => Some(n / 100.0)
  }

  function FirstDefined(values: seq<Money>): Money {
    if values == [] then None
    else if values[0].Some? then values[0]
    else FirstDefined(values[1..])
  }

  function FirstPositive(values: seq<Money>): Money {
    if values == [] then None
    else if values[0].Some? && values[0].value > 0.0 then values[0]
    else FirstPositive(values[1..])
  }

  function OrElse(value: Money, default: real): real {
    if value.Some? then value.value else default
  }

  function AtLeastZero(n: real): real { if n < 0.0 then 0.0 else n }

  datatype Item = Item(
    quantity: Raw, price: Raw, unitPrice: Raw, lineTotal: Raw, unitPricePaise: Raw, lineTotalPaise: Raw)

  datatype Line = Line(quantity: real, unitPrice: real, lineTotal: real)

  function NormalizeOrderLine(item: Item): Line {
    var quantity := AtLeastZero(OrElse(FiniteNumber(item.quantity), 0.0));
    var unitPrice := AtLeastZero(OrElse(FirstDefined([
      FiniteNumber(item.unitPrice), FiniteNumber(item.price), PaiseToRupees(item.unitPricePaise)]), 0.0));
    var stored := FirstPositive([FiniteNumber(item.lineTotal), PaiseToRupees(item.lineTotalPaise)]);
    Line(quantity, unitPrice, OrElse(stored, quantity * unitPrice))
  }

  /** The five amounts an order or its checkout snapshot may carry, in rupees and in paise. */
  datatype Amounts = Amounts(
    subtotal: Raw, subtotalPaise: Raw,
    deliveryFee: Raw, deliveryFeePaise: Raw,
    discountAmount: Raw, discountPaise: Raw,
    taxAmount: Raw, taxPaise: Raw,
    grandTotal: Raw, grandTotalPaise: Raw
  )

  const NO_AMOUNTS := Amounts(Absent, Absent, Absent, Absent, Absent, Absent, Absent, Absent, Absent, Absent)

  /** An order: its own amounts, the snapshot's, and the deltas of its substitutions. A missing
      order or snapshot has no amounts; missing substitutions are none. */
  datatype Order = Order(current: Amounts, totalAmount: Raw, snapshot: Amounts, deltasPaise: seq<Raw>)

  datatype Pricing = Pricing(subtotal: real, deliveryFee: real, discountAmount: real, taxAmount: real, grandTotal: real)

  function SumDeltas(deltasPaise: seq<Raw>): real {
    if deltasPaise == [] then 0.0
    else SumDeltas(deltasPaise[..|deltasPaise| - 1]) + OrElse(PaiseToRupees(deltasPaise[|deltasPaise| - 1]), 0.0)
  }

  function SumLines(items: seq<Item>): real {
    if items == [] then 0.0
    else SumLines(items[..|items| - 1]) + NormalizeOrderLine(items[|items| - 1]).lineTotal
  }

  predicate HasNonzero(values: seq<Money>) {
    exists i :: 0 <= i < |values| && values[i].Some? && values[i].value != 0.0
  }

  predicate HasZero(values: seq<Money>) {
    exists i :: 0 <= i < |values| && values[i] == Some(0.0)
  }

  function SubtotalValues(a: Amounts): seq<Money> { [FiniteNumber(a.subtotal), PaiseToRupees(a.subtotalPaise)] }

  predicate HasCurrentEvidence(order: Order) {
    var a := order.current;
    || HasNonzero(SubtotalValues(a) + [
         FiniteNumber(a.deliveryFee), PaiseToRupees(a.deliveryFeePaise),
         FiniteNumber(a.discountAmount), PaiseToRupees(a.discountPaise),
         FiniteNumber(a.taxAmount), PaiseToRupees(a.taxPaise)])
    || order.deltasPaise != []
  }

  function Subtotal(order: Order, items: seq<Item>): real {
    var itemSubtotal := SumLines(items);
    var snapshotSubtotal := FirstDefined(SubtotalValues(order.snapshot));
    var positiveCurrent := FirstPositive(SubtotalValues(order.current));
    if order.deltasPaise != [] then
      var repriced :=
        if snapshotSubtotal.Some? then Some(AtLeastZero(snapshotSubtotal.value + SumDeltas(order.deltasPaise))) else None;
      AtLeastZero(OrElse(FirstDefined([repriced, if items != [] then Some(itemSubtotal) else None, positiveCurrent]), 0.0))
    else if positiveCurrent.Some? then AtLeastZero(positiveCurrent.value)
    else if HasCurrentEvidence(order) && HasZero(SubtotalValues(order.current)) then 0.0
    else AtLeastZero(OrElse(FirstPositive([snapshotSubtotal, Some(itemSubtotal)]), 0.0))
  }

  /** A fee, discount or tax: the first positive of the order's and the snapshot's amounts. */
  function Component(current: Raw, currentPaise: Raw, snapshot: Raw, snapshotPaise: Raw): real {
    AtLeastZero(OrElse(FirstPositive([
      FiniteNumber(current), PaiseToRupees(currentPaise),
      FiniteNumber(snapshot), PaiseToRupees(snapshotPaise)]), 0.0))
  }

  function DeliveryFee(order: Order): real {
    Component(order.current.deliveryFee, order.current.deliveryFeePaise,
              order.snapshot.deliveryFee, order.snapshot.deliveryFeePaise)
  }

  function DiscountAmount(order: Order): real {
    Component(order.current.discountAmount, order.current.discountPaise,
              order.snapshot.discountAmount, order.snapshot.discountPaise)
  }

  function TaxAmount(order: Order): real {
    Component(order.current.taxAmount, order.current.taxPaise,
              order.snapshot.taxAmount, order.snapshot.taxPaise)
  }

  function GrandTotalValues(order: Order): seq<Money> {
    [FiniteNumber(order.current.grandTotal), PaiseToRupees(order.current.grandTotalPaise), FiniteNumber(order.totalAmount)]
  }

  function CalculatedTotal(order: Order, items: seq<Item>): real {
    AtLeastZero(Subtotal(order, items) + DeliveryFee(order) + TaxAmount(order) - DiscountAmount(order))
  }

  function GrandTotal(order: Order, items: seq<Item>): real {
    var calculated := CalculatedTotal(order, items);
    var snapshotTotal := FirstDefined([
      FiniteNumber(order.snapshot.grandTotal), PaiseToRupees(order.snapshot.grandTotalPaise)]);
    var positiveCurrent := FirstPositive(GrandTotalValues(order));
    if order.deltasPaise != [] then
      var repriced :=
        if snapshotTotal.Some? then Some(AtLeastZero(snapshotTotal.value + SumDeltas(order.deltasPaise))) else None;
      AtLeastZero(OrElse(FirstDefined([Some(calculated), FiniteNumber(order.totalAmount), repriced, positiveCurrent]), 0.0))
    else if positiveCurrent.Some? then AtLeastZero(positiveCurrent.value)
    else if HasCurrentEvidence(order) && HasZero(GrandTotalValues(order)) then 0.0
    else AtLeastZero(OrElse(FirstPositive([snapshotTotal, Some(calculated)]), 0.0))
  }

  function NormalizeOrderPricing(order: Order, items: seq<Item>): (p: Pricing)
    ensures p.subtotal >= 0.0 && p.deliveryFee >= 0.0 && p.discountAmount >= 0.0
    ensures p.taxAmount >= 0.0 && p.grandTotal >= 0.0
  {
    Pricing(Subtotal(order, items), DeliveryFee(order), DiscountAmount(order), TaxAmount(order), GrandTotal(order, items))
  }

  // ----- a result is a fixed point -----

  ghost predicate NonNegative(p: Pricing) {
    p.subtotal >= 0.0 && p.deliveryFee >= 0.0 && p.discountAmount >= 0.0 && p.taxAmount >= 0.0 && p.grandTotal >= 0.0
  }

  /** A pricing stored back as an order's own amounts, with nothing else known. */
  function StoredBack(p: Pricing): Order {
    Order(
      Amounts(Num(p.subtotal), Absent, Num(p.deliveryFee), Absent, Num(p.discountAmount), Absent,
              Num(p.taxAmount), Absent, Num(p.grandTotal), Absent),
      Absent, NO_AMOUNTS, [])
  }

  lemma FirstDefinedOfTwo(a: Money, b: Money)
    ensures FirstDefined([a, b]) == if a.Some? then a else b
  {
    var values, tail := [a, b], [b];
    assert values[1..] == tail && tail[1..] == [];
    assert FirstDefined(tail) == if b.Some? then b else FirstDefined(tail[1..]);
    assert FirstDefined(values) == if a.Some? then a else FirstDefined(tail);
  }

  lemma FirstDefinedOfThree(a: Money, b: Money, c: Money)
    ensures FirstDefined([a, b, c]) == if a.Some? then a else FirstDefined([b, c])
    ensures FirstDefined([b, c]) == if b.Some? then b else c
  {
    FirstDefinedOfTwo(b, c);
    assert [a, b, c][1..] == [b, c];
  }

  lemma FirstPositiveOfTwo(a: Money, b: Money)
    ensures FirstPositive([a, b]) == if a.Some? && a.value > 0.0 then a else if b.Some? && b.value > 0.0 then b else None
  {
    var values, tail := [a, b], [b];
    assert values[1..] == tail && tail[1..] == [];
    assert FirstPositive(tail) == if b.Some? && b.value > 0.0 then b else FirstPositive(tail[1..]);
    assert FirstPositive(values) == if a.Some? && a.value > 0.0 then a else FirstPositive(tail);
  }

  lemma FirstPositiveOfThree(a: Money, b: Money, c: Money)
    ensures FirstPositive([a, b, c]) == if a.Some? && a.value > 0.0 then a else FirstPositive([b, c])
  {}

  lemma FirstPositiveOfFour(a: Money, b: Money, c: Money, d: Money)
    ensures FirstPositive([a, b, c, d]) == if a.Some? && a.value > 0.0 then a else FirstPositive([b, c, d])
  {}

  lemma StoredComponent(n: real)
    requires n >= 0.0
    ensures Component(Num(n), Absent, Absent, Absent) == n
  {}

  /** The amounts that can come out are the non-negative ones, and storing any of them as an
      order without items and pricing it again changes nothing, zeros included. */
  lemma StoredBackUnchanged(p: Pricing)
    requires NonNegative(p)
    ensures NormalizeOrderPricing(StoredBack(p), []) == p
  {
    var order := StoredBack(p);
    StoredComponent(p.deliveryFee);
    StoredComponent(p.discountAmount);
    StoredComponent(p.taxAmount);
    hide Component;
    StoredSubtotal(p);
    hide Subtotal;
    StoredGrandTotal(p);
  }

  lemma StoredSubtotal(p: Pricing)
    requires NonNegative(p)
    ensures Subtotal(StoredBack(p), []) == p.subtotal
  {
    var order := StoredBack(p);
    FirstPositiveOfTwo(Some(p.subtotal), None);
    FirstDefinedOfTwo(None, None);
    FirstPositiveOfTwo(None, Some(0.0));
  }

  lemma StoredGrandTotal(p: Pricing)
    requires NonNegative(p)
    ensures GrandTotal(StoredBack(p), []) == p.grandTotal
  {
    var order := StoredBack(p);
    var a := order.current;
    StoredSubtotal(p);
    StoredComponent(p.deliveryFee);
    StoredComponent(p.discountAmount);
    StoredComponent(p.taxAmount);
    hide Component, Subtotal;
    FirstPositiveOfThree(Some(p.grandTotal), None, None);
    FirstPositiveOfTwo(None, None);
    assert GrandTotalValues(order)[0] == Some(p.grandTotal);
    var evidence := SubtotalValues(a) + [
      FiniteNumber(a.deliveryFee), PaiseToRupees(a.deliveryFeePaise),
      FiniteNumber(a.discountAmount), PaiseToRupees(a.discountPaise),
      FiniteNumber(a.taxAmount), PaiseToRupees(a.taxPaise)];
    assert evidence[0] == Some(p.subtotal) && evidence[2] == Some(p.deliveryFee) && evidence[6] == Some(p.taxAmount);
    if p.grandTotal == 0.0 && !HasCurrentEvidence(order) {
      assert CalculatedTotal(order, []) == 0.0;
      FirstDefinedOfTwo(None, None);
      FirstPositiveOfTwo(None, Some(0.0));
    }
  }

  // ----- substitutions are replayed -----

  /** With substitutions the total is made of its parts, whatever totals are stored. */
  lemma SubstitutedTotal(order: Order, items: seq<Item>)
    requires order.deltasPaise != []
    ensures var p := NormalizeOrderPricing(order, items);
            var total := p.subtotal + p.deliveryFee + p.taxAmount - p.discountAmount;
            p.grandTotal == if total < 0.0 then 0.0 else total
  {}

  /** What the deltas come to in rupees; one that is no number counts as none. */
  ghost function DeltasInRupees(deltasPaise: seq<Raw>): real {
    if deltasPaise == [] then 0.0
    else (if deltasPaise[0].Num? then deltasPaise[0].n / 100.0 else 0.0) + DeltasInRupees(deltasPaise[1..])
  }

  lemma {:induction false} DeltasByFields(deltasPaise: seq<Raw>)
    ensures SumDeltas(deltasPaise) == DeltasInRupees(deltasPaise)
    decreases |deltasPaise|
  {
    if deltasPaise != [] {
      var first, rest := deltasPaise[0], deltasPaise[1..];
      DeltasByFields(rest);
      OneDelta(first);
      assert deltasPaise == [first] + rest;
      DeltasAppend([first], rest);
    }
  }

  /** With substitutions the subtotal is the snapshot's, whether positive or not, plus all
      deltas, never below zero; without a number there, the sum of the lines; and without
      lines, the order's own. */
  lemma SubstitutedSubtotal(order: Order, items: seq<Item>)
    requires order.deltasPaise != []
    ensures var (a, s) := (order.current, order.snapshot);
            var (p, deltas) := (NormalizeOrderPricing(order, items), DeltasInRupees(order.deltasPaise));
            if s.subtotal.Num? then
              p.subtotal == if s.subtotal.n + deltas < 0.0 then 0.0 else s.subtotal.n + deltas
            else if s.subtotalPaise.Num? then
              p.subtotal == if s.subtotalPaise.n / 100.0 + deltas < 0.0 then 0.0 else s.subtotalPaise.n / 100.0 + deltas
            else if items != [] then p.subtotal == LinesTotal(items)
            else FirstOfFour(p.subtotal, a.subtotal, a.subtotalPaise, Absent, Absent)
  {
    var (a, s) := (order.current, order.snapshot);
    DeltasByFields(order.deltasPaise);
    LinesByFields(items);
    LinesNotNegative(items);
    OwnSubtotalFields(order);
    FirstDefinedOfTwo(FiniteNumber(s.subtotal), PaiseToRupees(s.subtotalPaise));
    var snapshotSubtotal := FirstDefined(SubtotalValues(s));
    var repriced :=
      if snapshotSubtotal.Some? then Some(AtLeastZero(snapshotSubtotal.value + SumDeltas(order.deltasPaise))) else None;
    FirstDefinedOfThree(repriced, if items != [] then Some(SumLines(items)) else None, FirstPositive(SubtotalValues(a)));
    hide FirstPositive, FirstDefined, SumLines, LinesTotal, SumDeltas, DeltasInRupees, HasCurrentEvidence;
  }

  /** Only the sum of the deltas matters, so substitutions can be merged or split. */
  lemma OnlyDeltaSumMatters(order: Order, deltasPaise: seq<Raw>, items: seq<Item>)
    requires order.deltasPaise != [] && deltasPaise != [] && SumDeltas(deltasPaise) == SumDeltas(order.deltasPaise)
    ensures NormalizeOrderPricing(order.(deltasPaise := deltasPaise), items) == NormalizeOrderPricing(order, items)
  {}

  lemma {:induction false} DeltasAppend(a: seq<Raw>, b: seq<Raw>)
    ensures SumDeltas(a + b) == SumDeltas(a) + SumDeltas(b)
    decreases |b|
  {
    if b == [] {
      assert a + b == a;
    } else {
      assert (a + b)[..|a + b| - 1] == a + b[..|b| - 1];
      DeltasAppend(a, b[..|b| - 1]);
    }
  }

  lemma OneDelta(d: Raw)
    ensures SumDeltas([d]) == OrElse(PaiseToRupees(d), 0.0)
  {}

  lemma RemoveOne(b: seq<Raw>, i: nat)
    requires i < |b|
    ensures multiset(b[..i] + b[i + 1..]) == multiset(b) - multiset{b[i]}
  {
    hide *;
    var before, one, after := b[..i], [b[i]], b[i + 1..];
    assert b == before + one + after;
    assert multiset(before + one + after) == multiset(before) + multiset{b[i]} + multiset(after);
    assert multiset(before + after) == multiset(before) + multiset(after);
  }

  lemma RemoveDelta(b: seq<Raw>, i: nat)
    requires i < |b|
    ensures SumDeltas(b) == SumDeltas(b[..i] + b[i + 1..]) + OrElse(PaiseToRupees(b[i]), 0.0)
  {
    hide SumDeltas, PaiseToRupees;
    var before, one, after := b[..i], [b[i]], b[i + 1..];
    assert b == before + one + after;
    DeltasAppend(before, after);
    DeltasAppend(before + one, after);
    DeltasAppend(before, one);
    OneDelta(b[i]);
  }

  lemma {:induction false} DeltasPermute(a: seq<Raw>, b: seq<Raw>)
    requires multiset(a) == multiset(b)
    ensures SumDeltas(a) == SumDeltas(b)
    decreases |a|
  {
    if a == [] {
      assert |multiset(b)| == 0;
    } else {
      var last := |a| - 1;
      assert a[last] in multiset(b);
      var i :| 0 <= i < |b| && b[i] == a[last];
      hide SumDeltas, PaiseToRupees;
      RemoveOne(a, last);
      RemoveDelta(a, last);
      RemoveOne(b, i);
      RemoveDelta(b, i);
      assert a[..last] + a[last + 1..] == a[..last];
      DeltasPermute(a[..last], b[..i] + b[i + 1..]);
    }
  }

  /** The order in which substitutions are recorded never changes a price. */
  lemma SubstitutionOrderIrrelevant(order: Order, deltasPaise: seq<Raw>, items: seq<Item>)
    requires multiset(deltasPaise) == multiset(order.deltasPaise)
    ensures NormalizeOrderPricing(order.(deltasPaise := deltasPaise), items) == NormalizeOrderPricing(order, items)
  {
    DeltasPermute(deltasPaise, order.deltasPaise);
    if order.deltasPaise == [] {
      assert |multiset(deltasPaise)| == 0;
      assert order.(deltasPaise := deltasPaise) == order;
    } else {
      assert |multiset(order.deltasPaise)| != 0;
      OnlyDeltaSumMatters(order, deltasPaise, items);
    }
  }

  /** With substitutions and a checkout subtotal, nothing but that subtotal, the deltas in any
      order, and the fee, discount and tax has an effect: neither items nor stored subtotals
      nor stored totals do. */
  lemma ReplayDeterminedBy(order: Order, items: seq<Item>, other: Order, otherItems: seq<Item>)
    requires order.deltasPaise != [] && multiset(other.deltasPaise) == multiset(order.deltasPaise)
    requires FirstDefined(SubtotalValues(order.snapshot)).Some?
    requires FirstDefined(SubtotalValues(other.snapshot)) == FirstDefined(SubtotalValues(order.snapshot))
    requires DeliveryFee(other) == DeliveryFee(order) && DiscountAmount(other) == DiscountAmount(order)
    requires TaxAmount(other) == TaxAmount(order)
    ensures NormalizeOrderPricing(other, otherItems) == NormalizeOrderPricing(order, items)
  {
    assert |multiset(order.deltasPaise)| != 0;
    DeltasPermute(other.deltasPaise, order.deltasPaise);
    SubstitutedSubtotal(order, items);
    SubstitutedSubtotal(other, otherItems);
    hide Subtotal, Component;
    SubstitutedTotal(order, items);
    SubstitutedTotal(other, otherItems);
  }

  // ----- the price of a line -----

  ghost function Quantity(item: Item): real {
    if item.quantity.Num? && item.quantity.n > 0.0 then item.quantity.n else 0.0
  }

  /** The first of unit price, price and unit price in paise that is a number. */
  ghost function UnitPrice(item: Item): real {
    var n := if item.unitPrice.Num? then item.unitPrice.n
             else if item.price.Num? then item.price.n
             else if item.unitPricePaise.Num? then item.unitPricePaise.n / 100.0
             else 0.0;
    if n < 0.0 then 0.0 else n
  }

  /** A positive stored total, rupees before paise, or quantity times unit price. */
  ghost function LineTotal(item: Item): real {
    if IsPositive(item.lineTotal) then item.lineTotal.n
    else if IsPositive(item.lineTotalPaise) then item.lineTotalPaise.n / 100.0
    else Quantity(item) * UnitPrice(item)
  }

  ghost function LinesTotal(items: seq<Item>): real {
    if items == [] then 0.0 else LineTotal(items[0]) + LinesTotal(items[1..])
  }

  lemma LineByFields(item: Item)
    ensures NormalizeOrderLine(item) == Line(Quantity(item), UnitPrice(item), LineTotal(item))
  {
    FirstPositiveOfTwo(FiniteNumber(item.lineTotal), PaiseToRupees(item.lineTotalPaise));
    FirstDefinedOfThree(FiniteNumber(item.unitPrice), FiniteNumber(item.price), PaiseToRupees(item.unitPricePaise));
    hide FirstDefined, FirstPositive;
  }

  lemma {:induction false} LinesAppend(a: seq<Item>, b: seq<Item>)
    ensures SumLines(a + b) == SumLines(a) + SumLines(b)
    decreases |b|
  {
    hide NormalizeOrderLine;
    if b == [] {
      assert a + b == a;
    } else {
      assert (a + b)[..|a + b| - 1] == a + b[..|b| - 1];
      LinesAppend(a, b[..|b| - 1]);
    }
  }

  lemma OneLine(item: Item)
    ensures SumLines([item]) == NormalizeOrderLine(item).lineTotal
  {}

  lemma {:induction false} LinesByFields(items: seq<Item>)
    ensures SumLines(items) == LinesTotal(items)
    decreases |items|
  {
    hide NormalizeOrderLine, LineTotal;
    if items != [] {
      var first, rest := items[0], items[1..];
      LinesByFields(rest);
      OneLine(first);
      LineByFields(first);
      assert items == [first] + rest;
      LinesAppend([first], rest);
    }
  }

  // ----- which source counts -----

  ghost predicate IsPositive(value: Raw) { value.Num? && value.n > 0.0 }

  ghost predicate Nonzero(value: Raw) { value.Num? && value.n != 0.0 }

  /** The order carries some amount other than zero, its totals left aside. */
  ghost predicate OwnNonzero(a: Amounts) {
    || Nonzero(a.subtotal) || Nonzero(a.subtotalPaise) || Nonzero(a.deliveryFee) || Nonzero(a.deliveryFeePaise)
    || Nonzero(a.discountAmount) || Nonzero(a.discountPaise) || Nonzero(a.taxAmount) || Nonzero(a.taxPaise)
  }

  ghost predicate NoOwnSubtotal(order: Order) {
    !IsPositive(order.current.subtotal) && !IsPositive(order.current.subtotalPaise)
  }

  ghost predicate NoOwnTotal(order: Order) {
    !IsPositive(order.current.grandTotal) && !IsPositive(order.current.grandTotalPaise) && !IsPositive(order.totalAmount)
  }

  ghost predicate ZeroSubtotal(order: Order) {
    NoOwnSubtotal(order) && (order.current.subtotal == Num(0.0) || order.current.subtotalPaise == Num(0.0))
  }

  ghost predicate ZeroTotal(order: Order) {
    && NoOwnTotal(order)
    && (order.current.grandTotal == Num(0.0) || order.current.grandTotalPaise == Num(0.0) || order.totalAmount == Num(0.0))
  }

  lemma EvidenceByFields(order: Order)
    ensures HasCurrentEvidence(order) <==> OwnNonzero(order.current) || order.deltasPaise != []
  {
    var a := order.current;
    var values := SubtotalValues(a) + [
      FiniteNumber(a.deliveryFee), PaiseToRupees(a.deliveryFeePaise),
      FiniteNumber(a.discountAmount), PaiseToRupees(a.discountPaise),
      FiniteNumber(a.taxAmount), PaiseToRupees(a.taxPaise)];
    assert values[0] == FiniteNumber(a.subtotal) && values[1] == PaiseToRupees(a.subtotalPaise);
    assert values[2] == FiniteNumber(a.deliveryFee) && values[3] == PaiseToRupees(a.deliveryFeePaise);
    assert values[4] == FiniteNumber(a.discountAmount) && values[5] == PaiseToRupees(a.discountPaise);
    assert values[6] == FiniteNumber(a.taxAmount) && values[7] == PaiseToRupees(a.taxPaise);
  }

  lemma OwnSubtotalFields(order: Order)
    ensures var (a, first) := (order.current, FirstPositive(SubtotalValues(order.current)));
            && (IsPositive(a.subtotal) ==> first == Some(a.subtotal.n))
            && (!IsPositive(a.subtotal) && IsPositive(a.subtotalPaise) ==> first == Some(a.subtotalPaise.n / 100.0))
            && (NoOwnSubtotal(order) ==> first == None)
    ensures HasZero(SubtotalValues(order.current)) <==>
            order.current.subtotal == Num(0.0) || order.current.subtotalPaise == Num(0.0)
  {
    var (x, y) := (FiniteNumber(order.current.subtotal), PaiseToRupees(order.current.subtotalPaise));
    FirstPositiveOfTwo(x, y);
    assert SubtotalValues(order.current)[0] == x && SubtotalValues(order.current)[1] == y;
  }

  lemma OwnTotalFields(order: Order)
    ensures var (a, first) := (order.current, FirstPositive(GrandTotalValues(order)));
            && (IsPositive(a.grandTotal) ==> first == Some(a.grandTotal.n))
            && (!IsPositive(a.grandTotal) && IsPositive(a.grandTotalPaise) ==> first == Some(a.grandTotalPaise.n / 100.0))
            && (!IsPositive(a.grandTotal) && !IsPositive(a.grandTotalPaise) && IsPositive(order.totalAmount) ==>
                  first == Some(order.totalAmount.n))
            && (NoOwnTotal(order) ==> first == None)
    ensures HasZero(GrandTotalValues(order)) <==>
            || order.current.grandTotal == Num(0.0) || order.current.grandTotalPaise == Num(0.0)
            || order.totalAmount == Num(0.0)
  {
    var (x, y) := (FiniteNumber(order.current.grandTotal), PaiseToRupees(order.current.grandTotalPaise));
    var z := FiniteNumber(order.totalAmount);
    FirstPositiveOfThree(x, y, z);
    FirstPositiveOfTwo(y, z);
    var values := GrandTotalValues(order);
    assert values[0] == x && values[1] == y && values[2] == z;
  }

  /** Without substitutions each positive amount of the order's own wins over all the snapshot
      or the items say: rupees before paise, and totalAmount last. */
  lemma OwnAmountsPreferred(order: Order, items: seq<Item>)
    requires order.deltasPaise == []
    ensures var (a, p) := (order.current, NormalizeOrderPricing(order, items));
            && (IsPositive(a.subtotal) ==> p.subtotal == a.subtotal.n)
            && (!IsPositive(a.subtotal) && IsPositive(a.subtotalPaise) ==> p.subtotal == a.subtotalPaise.n / 100.0)
            && (IsPositive(a.grandTotal) ==> p.grandTotal == a.grandTotal.n)
            && (!IsPositive(a.grandTotal) && IsPositive(a.grandTotalPaise) ==> p.grandTotal == a.grandTotalPaise.n / 100.0)
            && (!IsPositive(a.grandTotal) && !IsPositive(a.grandTotalPaise) && IsPositive(order.totalAmount) ==>
                  p.grandTotal == order.totalAmount.n)
  {
    OwnSubtotalFields(order);
    OwnTotalFields(order);
    hide FirstPositive, FirstDefined, Component;
  }

  /** What a fee, discount or tax is, with or without substitutions: the first positive of the
      order's rupees and paise and the snapshot's rupees and paise, or zero. */
  ghost predicate FirstOfFour(n: real, a: Raw, b: Raw, c: Raw, d: Raw) {
    && (IsPositive(a) ==> n == a.n)
    && (!IsPositive(a) && IsPositive(b) ==> n == b.n / 100.0)
    && (!IsPositive(a) && !IsPositive(b) && IsPositive(c) ==> n == c.n)
    && (!IsPositive(a) && !IsPositive(b) && !IsPositive(c) && IsPositive(d) ==> n == d.n / 100.0)
    && (!IsPositive(a) && !IsPositive(b) && !IsPositive(c) && !IsPositive(d) ==> n == 0.0)
  }

  lemma FirstOfComponent(a: Raw, b: Raw, c: Raw, d: Raw)
    ensures FirstOfFour(Component(a, b, c, d), a, b, c, d)
  {
    var (w, x, y, z) := (FiniteNumber(a), PaiseToRupees(b), FiniteNumber(c), PaiseToRupees(d));
    FirstPositiveOfFour(w, x, y, z);
    FirstPositiveOfThree(x, y, z);
    FirstPositiveOfTwo(y, z);
  }

  lemma ComponentSources(order: Order, items: seq<Item>)
    ensures var (a, s, p) := (order.current, order.snapshot, NormalizeOrderPricing(order, items));
            && FirstOfFour(p.deliveryFee, a.deliveryFee, a.deliveryFeePaise, s.deliveryFee, s.deliveryFeePaise)
            && FirstOfFour(p.discountAmount, a.discountAmount, a.discountPaise, s.discountAmount, s.discountPaise)
            && FirstOfFour(p.taxAmount, a.taxAmount, a.taxPaise, s.taxAmount, s.taxPaise)
  {
    var (a, s) := (order.current, order.snapshot);
    FirstOfComponent(a.deliveryFee, a.deliveryFeePaise, s.deliveryFee, s.deliveryFeePaise);
    FirstOfComponent(a.discountAmount, a.discountPaise, s.discountAmount, s.discountPaise);
    FirstOfComponent(a.taxAmount, a.taxPaise, s.taxAmount, s.taxPaise);
    hide Component, FirstOfFour;
  }

  /** What the snapshot says of an amount: its rupees if they are a number, even zero, and only
      then its paise. It counts if positive. */
  ghost function SnapshotAmount(rupees: Raw, paise: Raw): Money {
    if rupees.Num? then (if rupees.n > 0.0 then Some(rupees.n) else None)
    else if IsPositive(paise) then Some(paise.n / 100.0)
    else None
  }

  lemma SnapshotOrElse(rupees: Raw, paise: Raw, n: real)
    requires n >= 0.0
    ensures var amount := FirstDefined([FiniteNumber(rupees), PaiseToRupees(paise)]);
            OrElse(FirstPositive([amount, Some(n)]), 0.0) == OrElse(SnapshotAmount(rupees, paise), n) >= 0.0
  {
    var (x, y) := (FiniteNumber(rupees), PaiseToRupees(paise));
    FirstDefinedOfTwo(x, y);
    FirstPositiveOfTwo(if x.Some? then x else y, Some(n));
  }

  /** Without an own subtotal, or a zero that is final, the snapshot's counts, and failing that
      the sum of the lines. */
  lemma SubtotalFallback(order: Order, items: seq<Item>)
    requires order.deltasPaise == [] && NoOwnSubtotal(order)
    requires ZeroSubtotal(order) ==> !OwnNonzero(order.current)
    ensures NormalizeOrderPricing(order, items).subtotal ==
            OrElse(SnapshotAmount(order.snapshot.subtotal, order.snapshot.subtotalPaise), LinesTotal(items))
  {
    LinesByFields(items);
    OwnSubtotalFields(order);
    EvidenceByFields(order);
    LinesNotNegative(items);
    SnapshotOrElse(order.snapshot.subtotal, order.snapshot.subtotalPaise, SumLines(items));
    hide FirstPositive, FirstDefined, HasCurrentEvidence, HasZero, OwnNonzero, SumLines;
  }

  /** The same for the total, which failing all else is the sum of its parts. */
  lemma TotalFallback(order: Order, items: seq<Item>)
    requires order.deltasPaise == [] && NoOwnTotal(order)
    requires ZeroTotal(order) ==> !OwnNonzero(order.current)
    ensures var p := NormalizeOrderPricing(order, items);
            p.grandTotal == OrElse(SnapshotAmount(order.snapshot.grandTotal, order.snapshot.grandTotalPaise),
                                   var total := p.subtotal + p.deliveryFee + p.taxAmount - p.discountAmount;
                                   if total < 0.0 then 0.0 else total)
  {
    hide FirstPositive, FirstDefined, HasCurrentEvidence, HasZero, OwnNonzero, Subtotal, Component;
    hide SnapshotAmount;
    OwnTotalFields(order);
    EvidenceByFields(order);
    assert FirstPositive(GrandTotalValues(order)) == None;
    assert !(HasCurrentEvidence(order) && HasZero(GrandTotalValues(order)));
    hide GrandTotalValues, NoOwnTotal, ZeroTotal, FiniteNumber, PaiseToRupees;
    SnapshotOrElse(order.snapshot.grandTotal, order.snapshot.grandTotalPaise, CalculatedTotal(order, items));
  }

  /** A stored zero subtotal is final, whatever snapshot and items say, exactly if some amount
      of the order's own is not zero. */
  lemma ZeroSubtotalFinal(order: Order)
    requires order.deltasPaise == [] && ZeroSubtotal(order)
    ensures OwnNonzero(order.current) <==>
            forall s, items :: NormalizeOrderPricing(order.(snapshot := s), items).subtotal == 0.0
  {
    forall s, items | OwnNonzero(order.current)
      ensures NormalizeOrderPricing(order.(snapshot := s), items).subtotal == 0.0
    {
      ZeroSubtotalKept(order.(snapshot := s), items);
    }
    var other := order.(snapshot := NO_AMOUNTS.(subtotal := Num(1.0)));
    if !OwnNonzero(order.current) {
      SubtotalFallback(other, []);
      assert NormalizeOrderPricing(other, []).subtotal == 1.0;
    }
  }

  lemma ZeroSubtotalKept(order: Order, items: seq<Item>)
    requires order.deltasPaise == [] && ZeroSubtotal(order) && OwnNonzero(order.current)
    ensures NormalizeOrderPricing(order, items).subtotal == 0.0
  {
    OwnSubtotalFields(order);
    EvidenceByFields(order);
    hide FirstPositive, FirstDefined, HasCurrentEvidence, HasZero, OwnNonzero, SumLines;
  }

  /** The same for a stored zero total; the totals themselves do not count as such an amount. */
  lemma ZeroTotalFinal(order: Order)
    requires order.deltasPaise == [] && ZeroTotal(order)
    ensures OwnNonzero(order.current) <==>
            forall s, items :: NormalizeOrderPricing(order.(snapshot := s), items).grandTotal == 0.0
  {
    forall s, items | OwnNonzero(order.current)
      ensures NormalizeOrderPricing(order.(snapshot := s), items).grandTotal == 0.0
    {
      ZeroTotalKept(order.(snapshot := s), items);
    }
    var other := order.(snapshot := NO_AMOUNTS.(grandTotal := Num(1.0)));
    if !OwnNonzero(order.current) {
      TotalFallback(other, []);
      assert NormalizeOrderPricing(other, []).grandTotal == 1.0;
    }
  }

  lemma ZeroTotalKept(order: Order, items: seq<Item>)
    requires order.deltasPaise == [] && ZeroTotal(order) && OwnNonzero(order.current)
    ensures NormalizeOrderPricing(order, items).grandTotal == 0.0
  {
    OwnTotalFields(order);
    EvidenceByFields(order);
    hide FirstPositive, FirstDefined, HasCurrentEvidence, HasZero, OwnNonzero, Subtotal, Component;
  }

  function WithoutSubtotal(order: Order): Order {
    order.(current := order.current.(subtotal := Absent, subtotalPaise := Absent))
  }

  function WithoutTotal(order: Order): Order {
    order.(current := order.current.(grandTotal := Absent, grandTotalPaise := Absent), totalAmount := Absent)
  }

  /** A subtotal that is not positive prices as if it were absent, unless some amount of the
      order's own is not zero. */
  lemma ZeroSubtotalIgnored(order: Order, items: seq<Item>)
    requires order.deltasPaise == [] && !OwnNonzero(order.current)
    ensures NormalizeOrderPricing(WithoutSubtotal(order), items) == NormalizeOrderPricing(order, items)
  {
    var other := WithoutSubtotal(order);
    assert NoOwnSubtotal(order) && !OwnNonzero(other.current);
    SubtotalFallback(order, items);
    SubtotalFallback(other, items);
    EvidenceByFields(order);
    EvidenceByFields(other);
    hide OwnNonzero, HasCurrentEvidence, Subtotal, SumLines, Component;
  }

  /** So does a total. */
  lemma ZeroTotalIgnored(order: Order, items: seq<Item>)
    requires order.deltasPaise == [] && !OwnNonzero(order.current) && NoOwnTotal(order)
    ensures NormalizeOrderPricing(WithoutTotal(order), items) == NormalizeOrderPricing(order, items)
  {
    var other := WithoutTotal(order);
    assert !OwnNonzero(other.current);
    EvidenceByFields(order);
    EvidenceByFields(other);
    hide OwnNonzero, HasCurrentEvidence;
    TotalFallback(order, items);
    TotalFallback(other, items);
    hide GrandTotal, SumLines;
  }

  lemma {:induction false} LinesNotNegative(items: seq<Item>)
    ensures SumLines(items) >= 0.0
    decreases |items|
  {
    if items != [] {
      LinesNotNegative(items[..|items| - 1]);
      LineNotNegative(items[|items| - 1]);
    }
  }

  lemma LineNotNegative(item: Item)
    ensures NormalizeOrderLine(item).lineTotal >= 0.0
  {
    FirstPositiveOfTwo(FiniteNumber(item.lineTotal), PaiseToRupees(item.lineTotalPaise));
    hide FirstDefined, FirstPositive;
    var line := NormalizeOrderLine(item);
    ProductNotNegative(line.quantity, line.unitPrice);
  }

  lemma ProductNotNegative(a: real, b: real)
    requires a >= 0.0 && b >= 0.0
    ensures a * b >= 0.0
  {}

  /** With no amounts anywhere, subtotal and total are the sum of the lines. */
  lemma ItemFallback(items: seq<Item>)
    ensures NormalizeOrderPricing(Order(NO_AMOUNTS, Absent, NO_AMOUNTS, []), items)
            == Pricing(LinesTotal(items), 0.0, 0.0, 0.0, LinesTotal(items))
  {
    var order := Order(NO_AMOUNTS, Absent, NO_AMOUNTS, []);
    LinesNotNegative(items);
    LinesByFields(items);
    SubtotalFallback(order, items);
    TotalFallback(order, items);
    ComponentSources(order, items);
    hide NormalizeOrderPricing, SumLines;
  }

  // ----- stale zeros -----

  function Unstale(value: Raw): Raw { if value == Num(0.0) then Absent else value }

  function UnstaleComponents(a: Amounts): Amounts {
    a.(deliveryFee := Unstale(a.deliveryFee), deliveryFeePaise := Unstale(a.deliveryFeePaise),
       discountAmount := Unstale(a.discountAmount), discountPaise := Unstale(a.discountPaise),
       taxAmount := Unstale(a.taxAmount), taxPaise := Unstale(a.taxPaise))
  }

  lemma UnstaleComponent(a: Raw, b: Raw, c: Raw, d: Raw)
    ensures Component(Unstale(a), Unstale(b), Unstale(c), Unstale(d)) == Component(a, b, c, d)
  {
    var (w, x, y, z) := (FiniteNumber(a), PaiseToRupees(b), FiniteNumber(c), PaiseToRupees(d));
    var (w', x') := (FiniteNumber(Unstale(a)), PaiseToRupees(Unstale(b)));
    var (y', z') := (FiniteNumber(Unstale(c)), PaiseToRupees(Unstale(d)));
    FirstPositiveOfFour(w, x, y, z);
    FirstPositiveOfThree(x, y, z);
    FirstPositiveOfTwo(y, z);
    FirstPositiveOfFour(w', x', y', z');
    FirstPositiveOfThree(x', y', z');
    FirstPositiveOfTwo(y', z');
  }

  /** A fee, discount or tax stored as zero, anywhere, is as good as none at all. */
  lemma StaleZerosIgnored(order: Order, items: seq<Item>)
    ensures NormalizeOrderPricing(
              order.(current := UnstaleComponents(order.current), snapshot := UnstaleComponents(order.snapshot)), items)
            == NormalizeOrderPricing(order, items)
  {
    var other := order.(current := UnstaleComponents(order.current), snapshot := UnstaleComponents(order.snapshot));
    var (a, b) := (order.current, order.snapshot);
    UnstaleComponent(a.deliveryFee, a.deliveryFeePaise, b.deliveryFee, b.deliveryFeePaise);
    UnstaleComponent(a.discountAmount, a.discountPaise, b.discountAmount, b.discountPaise);
    UnstaleComponent(a.taxAmount, a.taxPaise, b.taxAmount, b.taxPaise);
    EvidenceByFields(order);
    EvidenceByFields(other);
    hide Component, HasCurrentEvidence;
    assert Subtotal(other, items) == Subtotal(order, items);
    hide Subtotal;
  }

  // ----- rupees or paise -----

  function ToPaise(value: Raw): Raw { if value.Num? then Num(value.n * 100.0) else value }

  ghost predicate RupeesOnly(a: Amounts) {
    a.subtotalPaise == a.deliveryFeePaise == a.discountPaise == a.taxPaise == a.grandTotalPaise == Absent
  }

  function InPaise(a: Amounts): Amounts {
    Amounts(Absent, ToPaise(a.subtotal), Absent, ToPaise(a.deliveryFee), Absent, ToPaise(a.discountAmount),
            Absent, ToPaise(a.taxAmount), Absent, ToPaise(a.grandTotal))
  }

  lemma SameInPaise(value: Raw)
    ensures PaiseToRupees(ToPaise(value)) == FiniteNumber(value)
  {}

  lemma ComponentInPaise(a: Raw, b: Raw)
    ensures Component(Absent, ToPaise(a), Absent, ToPaise(b)) == Component(a, Absent, b, Absent)
  {
    SameInPaise(a);
    SameInPaise(b);
    var (x, y) := (FiniteNumber(a), FiniteNumber(b));
    FirstPositiveOfFour(x, None, y, None);
    FirstPositiveOfThree(None, y, None);
    FirstPositiveOfTwo(y, None);
    FirstPositiveOfFour(None, x, None, y);
    FirstPositiveOfThree(x, None, y);
    FirstPositiveOfTwo(None, y);
  }

  lemma PairInPaise(value: Raw)
    ensures var (rupees, paise) := ([FiniteNumber(value), None], [None, PaiseToRupees(ToPaise(value))]);
            && FirstDefined(paise) == FirstDefined(rupees)
            && FirstPositive(paise) == FirstPositive(rupees)
            && (HasZero(paise) <==> HasZero(rupees))
  {}

  lemma TotalsInPaise(value: Raw, total: Money)
    ensures var (rupees, paise) := ([FiniteNumber(value), None, total], [None, PaiseToRupees(ToPaise(value)), total]);
            FirstPositive(paise) == FirstPositive(rupees) && (HasZero(paise) <==> HasZero(rupees))
  {
    SameInPaise(value);
    var x := FiniteNumber(value);
    FirstPositiveOfThree(x, None, total);
    FirstPositiveOfThree(None, x, total);
    FirstPositiveOfTwo(None, total);
    FirstPositiveOfTwo(x, total);
    assert [x, None, total][0] == x == [None, x, total][1];
    assert [x, None, total][2] == total == [None, x, total][2];
  }

  /** An order kept in rupees is priced like the same order kept in paise. */
  lemma UnitsDoNotMatter(order: Order, items: seq<Item>)
    requires RupeesOnly(order.current) && RupeesOnly(order.snapshot)
    ensures NormalizeOrderPricing(order.(current := InPaise(order.current), snapshot := InPaise(order.snapshot)), items)
            == NormalizeOrderPricing(order, items)
  {
    var other := order.(current := InPaise(order.current), snapshot := InPaise(order.snapshot));
    var (a, b) := (order.current, order.snapshot);
    ComponentInPaise(a.deliveryFee, b.deliveryFee);
    ComponentInPaise(a.discountAmount, b.discountAmount);
    ComponentInPaise(a.taxAmount, b.taxAmount);
    hide Component;
    EvidenceByFields(order);
    EvidenceByFields(other);
    assert HasCurrentEvidence(other) <==> HasCurrentEvidence(order);
    hide HasCurrentEvidence, HasZero, OwnNonzero;
    PairInPaise(a.subtotal);
    PairInPaise(b.subtotal);
    PairInPaise(b.grandTotal);
    assert Subtotal(other, items) == Subtotal(order, items);
    hide Subtotal;
    TotalsInPaise(a.grandTotal, FiniteNumber(order.totalAmount));
  }
}
