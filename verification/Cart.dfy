/** apps/admin-dashboard/src/hooks/useCart.ts: the cart a customer sees and the copy in the
    browser's storage. */
module Cart {

  // ----- JavaScript numbers, as far as they matter here -----

  datatype Number = NaN | PosInfinity | NegInfinity | Finite(n: real)

  /** `Number(x) || 0`. */
  function OrZero(x: Number): Number { if x == NaN then Finite(0.0) else x }

  /** `Math.max(0, x)`, for x that is not NaN. */
  function MaxZero(x: Number): Number {
    match x
    case PosInfinity => x
    case Finite(n) => if n < 0.0 then Finite(0.0) else x
    case _ => Finite(0.0)
  }

  predicate IsPositive(x: Number) { x == PosInfinity || (x.Finite? && x.n > 0.0) }

  function Plus(x: Number, y: Number): Number {
    match (x, y)
    case (Finite(a), Finite(b)) => Finite(a + b)
    case (NaN, _) => NaN
    case (_, NaN) => NaN
    case (PosInfinity, NegInfinity) => NaN
    case (NegInfinity, PosInfinity) => NaN
    case (PosInfinity, _) => PosInfinity
    case (_, PosInfinity) => PosInfinity
    case _ => NegInfinity
  }

  // ----- items -----

  /** An object read from storage or handed in as a product, its fields after String() and
      Number(); a missing string is empty, a missing number 0. */
  datatype Item = Item(id: string, name: string, price: Number, quantity: Number, image: string)

  function NormalizeCartItem(raw: Item): Item {
    raw.(price := OrZero(raw.price), quantity := MaxZero(OrZero(raw.quantity)))
  }

  predicate Kept(item: Item) { item.id != "" && IsPositive(item.quantity) }

  function Filter(items: seq<Item>, p: Item -> bool): seq<Item> {
    if items == [] then [] else
    Filter(items[..|items| - 1], p) + if p(items[|items| - 1]) then [items[|items| - 1]] else []
  }

  function Map(items: seq<Item>, f: Item -> Item): (r: seq<Item>)
    ensures |r| == |items|
  {
    if items == [] then [] else Map(items[..|items| - 1], f) + [f(items[|items| - 1])]
  }

  function Normalize(items: seq<Item>): seq<Item> {
    Filter(Map(items, NormalizeCartItem), Kept)
  }

  /** JSON has no NaN and no infinities: they are written as null, and null reads as 0. */
  function ThroughJson(x: Number): Number { if x.Finite? then x else Finite(0.0) }

  function ItemThroughJson(item: Item): Item {
    item.(price := ThroughJson(item.price), quantity := ThroughJson(item.quantity))
  }

  /** What `readCart` makes of what `persistCart` wrote. */
  function ReadBack(cart: seq<Item>): seq<Item> {
    Normalize(Map(cart, ItemThroughJson))
  }

  // ----- the actions -----

  datatype Action =
    | Add(product: Item)
    | Remove(id: string)
    | Update(id: string, quantity: Number)
    | Clear

  predicate HasId(cart: seq<Item>, id: string) { exists i :: 0 <= i < |cart| && cart[i].id == id }

  /** `quantity <= 0`, which NaN is not. */
  predicate NotAbove0(x: Number) { x == NegInfinity || (x.Finite? && x.n <= 0.0) }

  function Updated(cart: seq<Item>, action: Action): seq<Item> {
    match action
    case Add(product) =>
      if product.id == "" then cart
      else if HasId(cart, product.id) then
        Map(cart, (item: Item) =>
          if item.id == product.id then item.(quantity := Plus(item.quantity, Finite(1.0))) else item)
      else cart + [Item(product.id, product.name, OrZero(product.price), Finite(1.0), product.image)]
    case Remove(id) => Filter(cart, (item: Item) => item.id != id)
    case Update(id, quantity) =>
      if NotAbove0(quantity) then Filter(cart, (item: Item) => item.id != id)
      else Map(cart, (item: Item) => if item.id == id then item.(quantity := quantity) else item)
    case Clear => []
  }

  function After(cart: seq<Item>, action: Action): seq<Item> { Normalize(Updated(cart, action)) }

  /** The hook's state: `setCart`, and `localStorage` as the cart last written to it. */
  class CartHook {
    var cart: seq<Item>
    var stored: seq<Item>

    /** Whatever storage holds, every price and quantity is finite; ids that are distinct
        there make the cart sound. */
    constructor (inStorage: seq<Item>)
      ensures stored == inStorage && cart == ReadBack(inStorage)
      ensures AllFinite(cart) && (DistinctIds(inStorage) ==> Sound(cart))
    {
      stored := inStorage;
      cart := ReadBack(inStorage);
      ReadBackFinite(inStorage);
      if DistinctIds(inStorage) {
        ReadBackSound(inStorage);
      }
    }

    method Commit(updated: seq<Item>)
      modifies this
      ensures cart == Normalize(updated) && stored == cart
    {
      var next := Normalize(updated);
      stored := next;
      cart := next;
    }

    method Perform(action: Action)
      modifies this
      ensures cart == After(old(cart), action) && stored == cart
    {
      Commit(Updated(cart, action));
    }

    /** Every run of actions keeps the cart sound and equal to its stored copy, and unless one
        of them brings in an infinity, reading storage back gives the cart. */
    method PerformAll(actions: seq<Action>)
      requires Sound(cart)
      modifies this
      ensures Sound(cart) && cart == AfterAll(old(cart), actions)
      ensures if actions == [] then stored == old(stored) else stored == cart
      ensures AllFinite(old(cart)) && NoInfinityBrought(old(cart), actions) && actions != [] ==>
                AllFinite(cart) && ReadBack(stored) == cart
    {
      ghost var before := cart;
      for i := 0 to |actions|
        invariant Sound(cart) && cart == AfterAll(before, actions[..i])
        invariant if i == 0 then stored == old(stored) else stored == cart
      {
        assert actions[..i + 1][..i] == actions[..i];
        ActionKeepsSound(cart, actions[i]);
        Perform(actions[i]);
      }
      assert actions[..|actions|] == actions;
      if AllFinite(before) && NoInfinityBrought(before, actions) {
        RunReadsBack(before, actions);
        assert ReadsBackAt(before, actions, |actions|);
        ReadBackExact(cart);
      }
    }
  }

  ghost function AfterAll(cart: seq<Item>, actions: seq<Action>): seq<Item>
    decreases |actions|
  {
    if actions == [] then cart else After(AfterAll(cart, actions[..|actions| - 1]), actions[|actions| - 1])
  }

  // ----- what every run keeps -----

  ghost predicate DistinctIds(cart: seq<Item>) {
    forall i, j :: 0 <= i < j < |cart| ==> cart[i].id != cart[j].id
  }

  /** Distinct, non-empty ids; positive quantities; no price that is not a number. */
  ghost predicate Sound(cart: seq<Item>) {
    DistinctIds(cart) && forall i :: 0 <= i < |cart| ==> Kept(cart[i]) && cart[i].price != NaN
  }

  lemma {:induction false} MapAt(items: seq<Item>, f: Item -> Item)
    ensures forall i :: 0 <= i < |items| ==> Map(items, f)[i] == f(items[i])
    decreases |items|
  {
    if items != [] {
      MapAt(items[..|items| - 1], f);
    }
  }

  /** A filter keeps what passes, in order: position i comes from position from[i]. */
  lemma {:induction false} FilterFrom(items: seq<Item>, p: Item -> bool) returns (from: seq<nat>)
    ensures |from| == |Filter(items, p)|
    ensures forall i :: 0 <= i < |from| ==> from[i] < |items| && Filter(items, p)[i] == items[from[i]] && p(items[from[i]])
    ensures forall i, j :: 0 <= i < j < |from| ==> from[i] < from[j]
    decreases |items|
  {
    from := [];
    if items != [] {
      var last := |items| - 1;
      from := FilterFrom(items[..last], p);
      if p(items[last]) {
        from := from + [last];
      }
    }
  }

  lemma FilterKeepsIdsDistinct(items: seq<Item>, p: Item -> bool)
    requires DistinctIds(items)
    ensures DistinctIds(Filter(items, p))
    ensures forall i :: 0 <= i < |Filter(items, p)| ==> p(Filter(items, p)[i]) && Filter(items, p)[i] in items
  {}

  lemma NormalizeMakesSound(items: seq<Item>)
    requires DistinctIds(items)
    ensures Sound(Normalize(items))
  {
    MapAt(items, NormalizeCartItem);
    var mapped := Map(items, NormalizeCartItem);
    FilterKeepsIdsDistinct(mapped, Kept);
  }

  lemma UpdatedKeepsIdsDistinct(cart: seq<Item>, action: Action)
    requires DistinctIds(cart)
    ensures DistinctIds(Updated(cart, action))
  {
    match action
    case Add(product) =>
      var f := (item: Item) =>
        if item.id == product.id then item.(quantity := Plus(item.quantity, Finite(1.0))) else item;
      MapAt(cart, f);
    case Remove(id) =>
      FilterKeepsIdsDistinct(cart, (item: Item) => item.id != id);
    case Update(id, quantity) =>
      FilterKeepsIdsDistinct(cart, (item: Item) => item.id != id);
      MapAt(cart, (item: Item) => if item.id == id then item.(quantity := quantity) else item);
    case Clear =>
  }

  lemma ActionKeepsSound(cart: seq<Item>, action: Action)
    requires Sound(cart)
    ensures Sound(After(cart, action))
  {
    UpdatedKeepsIdsDistinct(cart, action);
    NormalizeMakesSound(Updated(cart, action));
  }

  // ----- storage -----

  ghost predicate AllFinite(cart: seq<Item>) {
    forall i :: 0 <= i < |cart| ==> cart[i].price.Finite? && cart[i].quantity.Finite?
  }

  lemma {:induction false} FilterAll(items: seq<Item>, p: Item -> bool)
    requires forall i :: 0 <= i < |items| ==> p(items[i])
    ensures Filter(items, p) == items
    decreases |items|
  {
    if items != [] {
      FilterAll(items[..|items| - 1], p);
    }
  }

  lemma {:induction false} MapSame(items: seq<Item>, f: Item -> Item)
    requires forall i :: 0 <= i < |items| ==> f(items[i]) == items[i]
    ensures Map(items, f) == items
    decreases |items|
  {
    if items != [] {
      MapSame(items[..|items| - 1], f);
    }
  }

  lemma NormalizeSame(cart: seq<Item>)
    requires forall i :: 0 <= i < |cart| ==> Kept(cart[i]) && cart[i].price != NaN
    ensures Normalize(cart) == cart
  {
    MapSame(cart, NormalizeCartItem);
    FilterAll(cart, Kept);
  }

  lemma ReadBackFinite(cart: seq<Item>)
    ensures AllFinite(ReadBack(cart))
  {
    MapAt(cart, ItemThroughJson);
    var read := Map(cart, ItemThroughJson);
    MapAt(read, NormalizeCartItem);
    var from := FilterFrom(Map(read, NormalizeCartItem), Kept);
  }

  /** What is read back from storage is the cart, exactly if every price and quantity is
      finite: an infinite one is stored as null and comes back as 0. */
  lemma ReadBackExact(cart: seq<Item>)
    requires Sound(cart)
    ensures ReadBack(cart) == cart <==> AllFinite(cart)
  {
    if AllFinite(cart) {
      MapSame(cart, ItemThroughJson);
      NormalizeSame(cart);
    } else {
      ReadBackFinite(cart);
    }
  }

  /** A stored cart with distinct ids is read as a sound one. */
  lemma ReadBackSound(items: seq<Item>)
    requires DistinctIds(items)
    ensures Sound(ReadBack(items))
  {
    MapAt(items, ItemThroughJson);
    NormalizeMakesSound(Map(items, ItemThroughJson));
  }

  /** The action puts an infinite price or quantity into this cart: a new product of infinite
      price, or an infinite quantity for a product that is there. */
  ghost predicate BringsInfinity(cart: seq<Item>, action: Action) {
    match action
    case Add(product) => product.id != "" && !HasId(cart, product.id) && !OrZero(product.price).Finite?
    case Update(id, quantity) => quantity == PosInfinity && HasId(cart, id)
    case _ => false
  }

  lemma FilterFinite(cart: seq<Item>, p: Item -> bool)
    requires AllFinite(cart)
    ensures AllFinite(Filter(cart, p))
  {
    var from := FilterFrom(cart, p);
  }

  lemma AddFinite(cart: seq<Item>, product: Item)
    requires Sound(cart) && AllFinite(cart)
    ensures AllFinite(After(cart, Add(product))) <==> !BringsInfinity(cart, Add(product))
  {
    var updated := Updated(cart, Add(product));
    if product.id != "" && HasId(cart, product.id) {
      MapAt(cart, (item: Item) =>
        if item.id == product.id then item.(quantity := Plus(item.quantity, Finite(1.0))) else item);
    }
    hide Normalize, Map;
    NormalizeSame(updated);
    if BringsInfinity(cart, Add(product)) {
      assert updated[|cart|].price == OrZero(product.price);
    }
  }

  lemma UpdateFinite(cart: seq<Item>, id: string, quantity: Number)
    requires Sound(cart) && AllFinite(cart)
    ensures AllFinite(After(cart, Update(id, quantity))) <==> !BringsInfinity(cart, Update(id, quantity))
  {
    if IsPositive(quantity) {
      QuantitySet(cart, id, quantity);
      hide After;
    } else {
      NoQuantityRemoves(cart, id, quantity);
      RemoveExact(cart, id);
      FilterFinite(cart, (item: Item) => item.id != id);
    }
  }

  /** An action leaves a finite cart finite exactly if it brings in no infinity. */
  lemma StaysFinite(cart: seq<Item>, action: Action)
    requires Sound(cart) && AllFinite(cart)
    ensures AllFinite(After(cart, action)) <==> !BringsInfinity(cart, action)
  {
    match action
    case Add(product) =>
      AddFinite(cart, product);
    case Remove(id) =>
      RemoveExact(cart, id);
      FilterFinite(cart, (item: Item) => item.id != id);
    case Update(id, quantity) =>
      UpdateFinite(cart, id, quantity);
    case Clear =>
  }

  ghost predicate NoInfinityBrought(cart: seq<Item>, actions: seq<Action>) {
    forall i :: 0 <= i < |actions| ==> !BringsInfinity(AfterAll(cart, actions[..i]), actions[i])
  }

  /** After the first n actions, what storage gives back is the cart. */
  ghost predicate ReadsBackAt(cart: seq<Item>, actions: seq<Action>, n: nat)
    requires n <= |actions|
  {
    ReadBack(AfterAll(cart, actions[..n])) == AfterAll(cart, actions[..n])
  }

  lemma {:induction false} RunKeepsSound(cart: seq<Item>, actions: seq<Action>)
    requires Sound(cart)
    ensures Sound(AfterAll(cart, actions))
    decreases |actions|
  {
    hide Sound, After;
    if actions != [] {
      var front := actions[..|actions| - 1];
      RunKeepsSound(cart, front);
      ActionKeepsSound(AfterAll(cart, front), actions[|actions| - 1]);
    }
  }

  lemma {:induction false} FiniteSoFar(cart: seq<Item>, actions: seq<Action>, n: nat)
    requires Sound(cart) && AllFinite(cart) && n <= |actions| && NoInfinityBrought(cart, actions)
    ensures AllFinite(AfterAll(cart, actions[..n]))
    decreases n
  {
    hide Sound, AllFinite, After, BringsInfinity;
    if n == 0 {
      assert actions[..0] == [];
    } else {
      FiniteSoFar(cart, actions, n - 1);
      RunKeepsSound(cart, actions[..n - 1]);
      StaysFinite(AfterAll(cart, actions[..n - 1]), actions[n - 1]);
      assert actions[..n][..n - 1] == actions[..n - 1];
    }
  }

  /** Along a run from a sound and finite cart, storage gives the cart back after every
      commit, exactly if no action brings in an infinity. */
  lemma RunReadsBack(cart: seq<Item>, actions: seq<Action>)
    requires Sound(cart) && AllFinite(cart)
    ensures (forall n :: 0 <= n <= |actions| ==> ReadsBackAt(cart, actions, n)) <==> NoInfinityBrought(cart, actions)
  {
    hide Sound, AllFinite, After, BringsInfinity, ReadBack;
    if NoInfinityBrought(cart, actions) {
      forall n | 0 <= n <= |actions|
        ensures ReadsBackAt(cart, actions, n)
      {
        FiniteSoFar(cart, actions, n);
        RunKeepsSound(cart, actions[..n]);
        ReadBackExact(AfterAll(cart, actions[..n]));
      }
    }
    if forall n :: 0 <= n <= |actions| ==> ReadsBackAt(cart, actions, n) {
      forall i | 0 <= i < |actions|
        ensures !BringsInfinity(AfterAll(cart, actions[..i]), actions[i])
      {
        var now := AfterAll(cart, actions[..i]);
        assert ReadsBackAt(cart, actions, i) && ReadsBackAt(cart, actions, i + 1);
        RunKeepsSound(cart, actions[..i]);
        RunKeepsSound(cart, actions[..i + 1]);
        assert actions[..i + 1][..i] == actions[..i];
        ReadBackExact(now);
        ReadBackExact(After(now, actions[i]));
        StaysFinite(now, actions[i]);
      }
    }
  }

  /** No product of infinite price, no infinite quantity. */
  ghost predicate FiniteAction(action: Action) {
    match action
    case Add(product) => OrZero(product.price).Finite?
    case Update(_, quantity) => quantity != PosInfinity
    case _ => true
  }

  /** From a stored cart with distinct ids, after any run of actions the cart is sound, and
      storage has given it back after every commit exactly if no action brought in an
      infinity; finite actions never do. */
  lemma RunFromStorage(inStorage: seq<Item>, actions: seq<Action>)
    requires DistinctIds(inStorage)
    ensures var cart := ReadBack(inStorage);
            && Sound(AfterAll(cart, actions))
            && ((forall n :: 0 <= n <= |actions| ==> ReadsBackAt(cart, actions, n)) <==> NoInfinityBrought(cart, actions))
            && ((forall i :: 0 <= i < |actions| ==> FiniteAction(actions[i])) ==> NoInfinityBrought(cart, actions))
  {
    hide ReadBack, AfterAll, Sound, AllFinite, ReadsBackAt;
    ReadBackSound(inStorage);
    ReadBackFinite(inStorage);
    RunKeepsSound(ReadBack(inStorage), actions);
    RunReadsBack(ReadBack(inStorage), actions);
  }

  /** A new product of infinite price is in the cart, but storage does not give it back. */
  lemma InfinitePriceLost()
    ensures var cart := After([], Add(Item("p", "Ghee", PosInfinity, Finite(0.0), "")));
            Sound(cart) && |cart| == 1 && ReadBack(cart) != cart
  {
    var product := Item("p", "Ghee", PosInfinity, Finite(0.0), "");
    var item := product.(quantity := Finite(1.0));
    assert Updated([], Add(product)) == [item];
    hide Normalize, ReadBack;
    ActionKeepsSound([], Add(product));
    NormalizeSame([item]);
    ReadBackExact([item]);
    assert [item][0].price == PosInfinity;
  }

  // ----- totals -----

  function TotalItems(cart: seq<Item>): Number {
    if cart == [] then Finite(0.0) else Plus(TotalItems(cart[..|cart| - 1]), cart[|cart| - 1].quantity)
  }

  predicate NotNegative(x: Number) { x == PosInfinity || (x.Finite? && x.n >= 0.0) }

  lemma {:induction false} TotalNotNegative(cart: seq<Item>)
    requires forall i :: 0 <= i < |cart| ==> IsPositive(cart[i].quantity)
    ensures NotNegative(TotalItems(cart))
    decreases |cart|
  {
    if cart != [] {
      TotalNotNegative(cart[..|cart| - 1]);
    }
  }

  lemma {:induction false} OneMoreOf(cart: seq<Item>, bumped: seq<Item>, k: nat)
    requires forall i :: 0 <= i < |cart| ==> IsPositive(cart[i].quantity)
    requires k < |cart| == |bumped| && bumped[k].quantity == Plus(cart[k].quantity, Finite(1.0))
    requires forall i :: 0 <= i < |cart| && i != k ==> bumped[i] == cart[i]
    ensures TotalItems(bumped) == Plus(TotalItems(cart), Finite(1.0))
    decreases |cart|
  {
    var front, front' := cart[..|cart| - 1], bumped[..|cart| - 1];
    TotalNotNegative(front);
    if k == |cart| - 1 {
      assert front' == front;
    } else {
      OneMoreOf(front, front', k);
    }
  }

  /** Adding a product that has an id raises the number of items by exactly one. */
  lemma AddRaisesTotal(cart: seq<Item>, product: Item)
    requires Sound(cart) && product.id != ""
    ensures TotalItems(After(cart, Add(product))) == Plus(TotalItems(cart), Finite(1.0))
    ensures TotalItems(After(cart, Clear)) == Finite(0.0)
  {
    var updated := Updated(cart, Add(product));
    if HasId(cart, product.id) {
      var k :| 0 <= k < |cart| && cart[k].id == product.id;
      var f := (item: Item) =>
        if item.id == product.id then item.(quantity := Plus(item.quantity, Finite(1.0))) else item;
      MapAt(cart, f);
      assert updated == Map(cart, f);
      NormalizeSame(updated);
      OneMoreOf(cart, updated, k);
    } else {
      NormalizeSame(updated);
      assert updated[..|updated| - 1] == cart;
    }
  }

  /** Removing a product that was not in the cart before it was added restores the cart. */
  lemma RemoveUndoesAdd(cart: seq<Item>, product: Item)
    requires Sound(cart) && product.id != "" && !HasId(cart, product.id)
    ensures After(After(cart, Add(product)), Remove(product.id)) == cart
  {
    var added := Updated(cart, Add(product));
    var last := added[|added| - 1];
    NormalizeSame(added);
    var p := (item: Item) => item.id != product.id;
    FilterAll(cart, p);
    assert added[..|added| - 1] == cart;
    assert Filter(added, p) == cart;
    NormalizeSame(cart);
  }

  /** Removing an id leaves the items of all other ids exactly as they were, and none of it. */
  lemma RemoveExact(cart: seq<Item>, id: string)
    requires Sound(cart)
    ensures After(cart, Remove(id)) == Filter(cart, (item: Item) => item.id != id)
    ensures !HasId(After(cart, Remove(id)), id)
  {
    var p := (item: Item) => item.id != id;
    FilterKeepsIdsDistinct(cart, p);
    NormalizeSame(Filter(cart, p));
  }

  /** Adding raises the quantity of an item that is there by one and changes nothing else; a
      new item goes to the end, with the product's name, price and image and quantity one. */
  lemma AddExact(cart: seq<Item>, product: Item)
    requires Sound(cart)
    ensures var after := After(cart, Add(product));
            if product.id == "" then after == cart
            else if exists i :: 0 <= i < |cart| && cart[i].id == product.id then
              && |after| == |cart|
              && forall i :: 0 <= i < |cart| ==>
                   after[i] == if cart[i].id != product.id then cart[i]
                               else if cart[i].quantity.Finite? then cart[i].(quantity := Finite(cart[i].quantity.n + 1.0))
                               else cart[i]
            else
              var price := if product.price == NaN then Finite(0.0) else product.price;
              after == cart + [Item(product.id, product.name, price, Finite(1.0), product.image)]
    ensures After(cart, Clear) == []
  {
    var updated := Updated(cart, Add(product));
    if product.id != "" && HasId(cart, product.id) {
      MapAt(cart, (item: Item) =>
        if item.id == product.id then item.(quantity := Plus(item.quantity, Finite(1.0))) else item);
    }
    hide Map, Filter;
    assert Normalize(updated) == updated by { NormalizeSame(updated); }
    NormalizeSame([]);
  }

  /** Removing takes out exactly the item with the id, from wherever it stands; an id that is
      not there changes nothing. */
  lemma RemoveSplits(a: seq<Item>, item: Item, b: seq<Item>)
    requires Sound(a + [item] + b)
    ensures After(a + [item] + b, Remove(item.id)) == a + b
    ensures After(a + b, Remove(item.id)) == a + b
  {
    hide Filter, Normalize;
    OthersDiffer(a, item, b);
    OthersRemain(a, item, b, (other: Item) => other.id != item.id);
    NormalizeSame(a + b);
  }

  lemma OthersDiffer(a: seq<Item>, item: Item, b: seq<Item>)
    requires Sound(a + [item] + b)
    ensures forall i :: 0 <= i < |a| ==> a[i].id != item.id
    ensures forall i :: 0 <= i < |b| ==> b[i].id != item.id
    ensures forall i :: 0 <= i < |a + b| ==> Kept((a + b)[i]) && (a + b)[i].price != NaN
  {
    var cart := a + [item] + b;
    assert cart[|a|] == item;
    forall i | 0 <= i < |a|
      ensures a[i].id != item.id && Kept(a[i]) && a[i].price != NaN
    {
      assert cart[i] == a[i];
    }
    forall i | 0 <= i < |b|
      ensures b[i].id != item.id && Kept(b[i]) && b[i].price != NaN
    {
      assert cart[|a| + 1 + i] == b[i];
    }
  }

  lemma OthersRemain(a: seq<Item>, item: Item, b: seq<Item>, p: Item -> bool)
    requires !p(item)
    requires (forall i :: 0 <= i < |a| ==> p(a[i])) && (forall i :: 0 <= i < |b| ==> p(b[i]))
    ensures Filter(a + [item] + b, p) == Filter(a + b, p) == a + b
  {
    hide Filter;
    FilterAll(a, p);
    FilterAll(b, p);
    FilterNone(item, p);
    FilterAppend(a, b, p);
    FilterAppend(a, [item], p);
    assert a + [] == a;
    FilterAppend(a + [item], b, p);
  }

  lemma {:induction false} FilterAppend(a: seq<Item>, b: seq<Item>, p: Item -> bool)
    ensures Filter(a + b, p) == Filter(a, p) + Filter(b, p)
    decreases |b|
  {
    if b == [] {
      assert a + b == a;
    } else {
      assert (a + b)[..|a + b| - 1] == a + b[..|b| - 1];
      FilterAppend(a, b[..|b| - 1], p);
    }
  }

  lemma FilterNone(item: Item, p: Item -> bool)
    requires !p(item)
    ensures Filter([item], p) == []
  {}

  /** What `readCart` makes of one more stored item: it is kept if it has an id and a finite
      positive quantity, with a price that is no finite number read as 0. */
  lemma ReadBackNext(items: seq<Item>, item: Item)
    ensures ReadBack([]) == []
    ensures ReadBack(items + [item]) ==
            ReadBack(items) +
            if item.id != "" && item.quantity.Finite? && item.quantity.n > 0.0
            then [item.(price := if item.price.Finite? then item.price else Finite(0.0))] else []
  {
    assert (items + [item])[..|items|] == items;
    var mapped, last := Map(items, ItemThroughJson), ItemThroughJson(item);
    assert Map(items + [item], ItemThroughJson) == mapped + [last];
    assert (mapped + [last])[..|items|] == mapped;
    var normal := Map(mapped, NormalizeCartItem);
    assert Map(mapped + [last], NormalizeCartItem) == normal + [NormalizeCartItem(last)];
    assert (normal + [NormalizeCartItem(last)])[..|items|] == normal;
  }

  /** Normalized after f, an item comes out unchanged if p, and is dropped otherwise. */
  ghost predicate KeepsOrDrops(item: Item, f: Item -> Item, p: Item -> bool) {
    var normal := NormalizeCartItem(f(item));
    if p(item) then normal == item && Kept(item) else !Kept(normal)
  }

  lemma NormalizeLast(items: seq<Item>, last: Item, f: Item -> Item, p: Item -> bool)
    requires KeepsOrDrops(last, f, p)
    ensures Normalize(Map(items + [last], f)) == Normalize(Map(items, f)) + if p(last) then [last] else []
  {}

  lemma {:induction false} NormalizeFilters(cart: seq<Item>, f: Item -> Item, p: Item -> bool)
    requires forall i :: 0 <= i < |cart| ==> KeepsOrDrops(cart[i], f, p)
    ensures Normalize(Map(cart, f)) == Filter(cart, p)
    decreases |cart|
  {
    if cart != [] {
      hide KeepsOrDrops, Normalize, Map;
      var front, last := cart[..|cart| - 1], cart[|cart| - 1];
      NormalizeFilters(front, f, p);
      assert cart == front + [last];
      NormalizeLast(front, last, f, p);
    }
  }

  /** Setting a quantity that is not positive, NaN included, is removing. */
  lemma NoQuantityRemoves(cart: seq<Item>, id: string, quantity: Number)
    requires Sound(cart) && !IsPositive(quantity)
    ensures After(cart, Update(id, quantity)) == After(cart, Remove(id))
  {
    if quantity == NaN {
      RemoveExact(cart, id);
      NormalizeFilters(cart, (item: Item) => if item.id == id then item.(quantity := quantity) else item,
                       (item: Item) => item.id != id);
    }
  }

  /** Setting a positive quantity changes that quantity and nothing else. */
  lemma QuantitySet(cart: seq<Item>, id: string, quantity: Number)
    requires Sound(cart) && IsPositive(quantity)
    ensures var after := After(cart, Update(id, quantity));
            && |after| == |cart|
            && forall i :: 0 <= i < |cart| ==>
                 after[i] == if cart[i].id == id then cart[i].(quantity := quantity) else cart[i]
  {
    var f := (item: Item) => if item.id == id then item.(quantity := quantity) else item;
    MapAt(cart, f);
    hide Map, Normalize;
    NormalizeSame(Map(cart, f));
  }
}
