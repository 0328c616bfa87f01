/** apps/api-gateway/src/analytics/analytics.service.ts: the figures that businessDashboard
    computes from the orders it has read, over exact numbers. */
module Analytics {

  /** `revenuePaise` is the order's grand total in paise after safeNumber. */
  datatype Order = Order(status: string, storeId: string, revenuePaise: real)

  const DELIVERED := "DELIVERED"
  const CANCELLED := "CANCELLED"
  const PAYMENT_FAILED := "PAYMENT_FAILED"

  // ----- orders by status -----

  ghost function WithStatus(orders: seq<Order>, status: string): nat {
    if orders == [] then 0 else
    WithStatus(orders[..|orders| - 1], status) + if orders[|orders| - 1].status == status then 1 else 0
  }

  ghost predicate Distinct(keys: seq<string>) {
    forall i, j :: 0 <= i < j < |keys| ==> keys[i] != keys[j]
  }

  method CountStatuses(statuses: seq<string>, orders: seq<Order>) returns (counts: map<string, nat>)
    ensures forall s :: s in counts <==> s in statuses || exists i :: 0 <= i < |orders| && orders[i].status == s
    ensures forall s :: s in counts ==> counts[s] == WithStatus(orders, s)
    ensures forall keys :: Lists(keys, counts) ==> SumOf(counts, keys) == |orders|
  {
    counts := map s | s in statuses :: 0;
    for i := 0 to |orders|
      invariant forall s :: s in counts <==> s in statuses || exists k :: 0 <= k < i && orders[k].status == s
      invariant forall s :: s in counts ==> counts[s] == WithStatus(orders[..i], s)
    {
      var status := orders[i].status;
      assert orders[..i + 1][..i] == orders[..i];
      if status !in counts {
        NoneWithStatus(orders[..i], status);
      }
      counts := counts[status := (if status in counts then counts[status] else 0) + 1];
    }
    assert orders[..|orders|] == orders;
    forall keys | Lists(keys, counts)
      ensures SumOf(counts, keys) == |orders|
    {
      SameSum(counts, orders, keys);
      CountsAddUp(orders, keys);
    }
  }

  /** The keys are those of the map, each once. */
  ghost predicate Lists(keys: seq<string>, counts: map<string, nat>) {
    Distinct(keys) && forall s :: s in keys <==> s in counts
  }

  ghost function SumOf(counts: map<string, nat>, keys: seq<string>): nat
    requires forall s :: s in keys ==> s in counts
  {
    if keys == [] then 0 else SumOf(counts, keys[..|keys| - 1]) + counts[keys[|keys| - 1]]
  }

  lemma {:induction false} SameSum(counts: map<string, nat>, orders: seq<Order>, keys: seq<string>)
    requires forall s :: s in keys ==> s in counts && counts[s] == WithStatus(orders, s)
    ensures SumOf(counts, keys) == SumCounts(orders, keys)
    decreases |keys|
  {
    if keys != [] {
      SameSum(counts, orders, keys[..|keys| - 1]);
    }
  }

  lemma {:induction false} NoneWithStatus(orders: seq<Order>, status: string)
    requires forall i :: 0 <= i < |orders| ==> orders[i].status != status
    ensures WithStatus(orders, status) == 0
    decreases |orders|
  {
    if orders != [] {
      NoneWithStatus(orders[..|orders| - 1], status);
    }
  }

  ghost function SumCounts(orders: seq<Order>, keys: seq<string>): nat {
    if keys == [] then 0 else SumCounts(orders, keys[..|keys| - 1]) + WithStatus(orders, keys[|keys| - 1])
  }

  /** Over any listing of the statuses that occur, the counts add up to the orders. */
  lemma {:induction false} CountsAddUp(orders: seq<Order>, keys: seq<string>)
    requires Distinct(keys) && forall i :: 0 <= i < |orders| ==> orders[i].status in keys
    ensures SumCounts(orders, keys) == |orders|
    decreases |orders|
  {
    if orders == [] {
      NothingCounted(keys);
    } else {
      var front, last := orders[..|orders| - 1], orders[|orders| - 1];
      CountsAddUp(front, keys);
      OneMoreCounted(orders, keys);
    }
  }

  lemma {:induction false} NothingCounted(keys: seq<string>)
    ensures SumCounts([], keys) == 0
    decreases |keys|
  {
    if keys != [] {
      NothingCounted(keys[..|keys| - 1]);
    }
  }

  lemma {:induction false} OneMoreCounted(orders: seq<Order>, keys: seq<string>)
    requires orders != [] && Distinct(keys)
    ensures SumCounts(orders, keys) == SumCounts(orders[..|orders| - 1], keys)
                                       + if orders[|orders| - 1].status in keys then 1 else 0
    decreases |keys|
  {
    if keys != [] {
      var front, key := keys[..|keys| - 1], keys[|keys| - 1];
      OneMoreCounted(orders, front);
      assert key !in front;
      assert keys == front + [key];
    }
  }

  // ----- orders by store -----

  datatype Totals = Totals(orders: nat, delivered: nat, cancelled: nat, revenuePaise: real)

  function Plus(a: Totals, b: Totals): Totals {
    Totals(a.orders + b.orders, a.delivered + b.delivered, a.cancelled + b.cancelled, a.revenuePaise + b.revenuePaise)
  }

  const ZERO := Totals(0, 0, 0, 0.0)

  /** What one order contributes. */
  function Contribution(o: Order): Totals {
    Totals(1, if o.status == DELIVERED then 1 else 0, if o.status == CANCELLED then 1 else 0,
           if o.status == DELIVERED then o.revenuePaise else 0.0)
  }

  ghost function StoreTotals(orders: seq<Order>, store: string): Totals {
    if orders == [] then ZERO else
    var last := orders[|orders| - 1];
    Plus(StoreTotals(orders[..|orders| - 1], store), if last.storeId == store then Contribution(last) else ZERO)
  }

  /** The order by order totals of the whole dashboard. */
  ghost function AllTotals(orders: seq<Order>): Totals {
    if orders == [] then ZERO
    else Plus(AllTotals(orders[..|orders| - 1]), Contribution(orders[|orders| - 1]))
  }

  ghost function SumStores(orders: seq<Order>, stores: seq<string>): Totals {
    if stores == [] then ZERO
    else Plus(SumStores(orders, stores[..|stores| - 1]), StoreTotals(orders, stores[|stores| - 1]))
  }

  /** One order's effect on the row of its store. */
  method AddOrder(row: Totals, order: Order) returns (r: Totals)
    ensures r == Plus(row, Contribution(order))
  {
    r := row.(orders := row.orders + 1);
    if order.status == DELIVERED {
      r := r.(delivered := r.delivered + 1, revenuePaise := r.revenuePaise + order.revenuePaise);
    }
    if order.status == CANCELLED {
      r := r.(cancelled := r.cancelled + 1);
    }
  }

  /** Among the first i orders one of store s comes before any of store t. */
  ghost predicate SeenBefore(orders: seq<Order>, i: nat, s: string, t: string)
    requires i <= |orders|
  {
    exists k :: 0 <= k < i && orders[k].storeId == s && forall l :: 0 <= l <= k ==> orders[l].storeId != t
  }

  /** The stores of the first i orders, each once, in the order they are first seen. */
  ghost predicate StoresOf(orders: seq<Order>, i: nat, stores: seq<string>)
    requires i <= |orders|
  {
    && Distinct(stores)
    && (forall s :: s in stores <==> exists k :: 0 <= k < i && orders[k].storeId == s)
    && forall a, b :: 0 <= a < b < |stores| ==> SeenBefore(orders, i, stores[a], stores[b])
  }

  /** Each of these stores has its totals over the first i orders. */
  ghost predicate TotalsOf(orders: seq<Order>, i: nat, stores: seq<string>, rows: map<string, Totals>)
    requires i <= |orders|
  {
    (forall s :: s in stores <==> s in rows) && forall s :: s in rows ==> rows[s] == StoreTotals(orders[..i], s)
  }

  ghost function WithStore(stores: seq<string>, key: string): seq<string> {
    if key in stores then stores else stores + [key]
  }

  lemma StoreAdded(orders: seq<Order>, i: nat, stores: seq<string>)
    requires i < |orders| && StoresOf(orders, i, stores)
    ensures StoresOf(orders, i + 1, WithStore(stores, orders[i].storeId))
  {
    var key := orders[i].storeId;
    var after := WithStore(stores, key);
    forall a, b | 0 <= a < b < |after|
      ensures SeenBefore(orders, i + 1, after[a], after[b])
    {
      if b < |stores| {
        assert SeenBefore(orders, i, stores[a], stores[b]);
      } else {
        assert stores[a] in stores;
        var k :| 0 <= k < i && orders[k].storeId == stores[a];
        assert forall l :: 0 <= l <= k ==> orders[l].storeId in stores;
      }
    }
  }

  lemma TotalsAdded(orders: seq<Order>, i: nat, stores: seq<string>, rows: map<string, Totals>)
    requires i < |orders| && StoresOf(orders, i, stores) && TotalsOf(orders, i, stores, rows)
    ensures var (key, o) := (orders[i].storeId, orders[i]);
            var row := if key in rows then rows[key] else ZERO;
            TotalsOf(orders, i + 1, WithStore(stores, key), rows[key := Plus(row, Contribution(o))])
  {
    hide Contribution, Plus, StoreTotals;
    var key := orders[i].storeId;
    var longer := orders[..i + 1];
    assert longer[..i] == orders[..i] && longer[i] == orders[i];
    if key !in rows {
      NoneOfStore(orders[..i], key);
    }
    LastOrderOfStore(longer, key);
    forall s | s in rows && s != key
      ensures StoreTotals(longer, s) == rows[s]
    {
      PlusZero(rows[s]);
      LastOrderOfStore(longer, s);
    }
  }

  lemma PlusZero(t: Totals)
    ensures Plus(t, ZERO) == t == Plus(ZERO, t)
  {}

  /** The stores in the order they first occur, and the totals of each. */
  method StorePerformance(orders: seq<Order>) returns (stores: seq<string>, rows: map<string, Totals>)
    ensures StoresOf(orders, |orders|, stores) && TotalsOf(orders, |orders|, stores, rows)
    ensures SumStores(orders, stores) == AllTotals(orders)
  {
    hide StoresOf, TotalsOf, SumStores, AllTotals, Contribution, Plus;
    stores, rows := [], map[];
    NoRows(orders);
    for i := 0 to |orders|
      invariant StoresOf(orders, i, stores) && TotalsOf(orders, i, stores, rows)
    {
      var key := orders[i].storeId;
      StoreAdded(orders, i, stores);
      TotalsAdded(orders, i, stores, rows);
      RowsAreStores(orders, i, stores, rows, key);
      var row := if key in rows then rows[key] else ZERO;
      row := AddOrder(row, orders[i]);
      if key !in rows {
        stores := stores + [key];
      }
      rows := rows[key := row];
    }
    AllStoresListed(orders, stores);
    StoresAddUp(orders, stores);
  }

  lemma NoRows(orders: seq<Order>)
    ensures StoresOf(orders, 0, []) && TotalsOf(orders, 0, [], map[])
  {}

  lemma RowsAreStores(orders: seq<Order>, i: nat, stores: seq<string>, rows: map<string, Totals>, key: string)
    requires i <= |orders| && TotalsOf(orders, i, stores, rows)
    ensures key in stores <==> key in rows
  {}

  lemma AllStoresListed(orders: seq<Order>, stores: seq<string>)
    requires StoresOf(orders, |orders|, stores)
    ensures Distinct(stores) && forall i :: 0 <= i < |orders| ==> orders[i].storeId in stores
  {}

  lemma {:induction false} NoneOfStore(orders: seq<Order>, store: string)
    requires forall i :: 0 <= i < |orders| ==> orders[i].storeId != store
    ensures StoreTotals(orders, store) == ZERO
    decreases |orders|
  {
    hide Contribution, Plus;
    PlusZero(ZERO);
    if orders != [] {
      NoneOfStore(orders[..|orders| - 1], store);
    }
  }

  /** Orders, deliveries, cancellations and revenue of the stores add up to the global ones. */
  lemma {:induction false} StoresAddUp(orders: seq<Order>, stores: seq<string>)
    requires Distinct(stores) && forall i :: 0 <= i < |orders| ==> orders[i].storeId in stores
    ensures SumStores(orders, stores) == AllTotals(orders)
    decreases |orders|
  {
    if orders == [] {
      NothingSold(stores);
    } else {
      StoresAddUp(orders[..|orders| - 1], stores);
      OneMoreSold(orders, stores);
    }
  }

  lemma {:induction false} NothingSold(stores: seq<string>)
    ensures SumStores([], stores) == ZERO
    decreases |stores|
  {
    hide Contribution, Plus;
    PlusZero(ZERO);
    if stores != [] {
      NothingSold(stores[..|stores| - 1]);
    }
  }

  lemma {:induction false} OneMoreSold(orders: seq<Order>, stores: seq<string>)
    requires orders != [] && Distinct(stores)
    ensures var last := orders[|orders| - 1];
            SumStores(orders, stores) ==
            Plus(SumStores(orders[..|orders| - 1], stores), if last.storeId in stores then Contribution(last) else ZERO)
    decreases |stores|
  {
    hide Contribution, Plus, StoreTotals;
    PlusZero(ZERO);
    var before, last := orders[..|orders| - 1], orders[|orders| - 1];
    if stores != [] {
      var front, store := stores[..|stores| - 1], stores[|stores| - 1];
      OneMoreSold(orders, front);
      assert store !in front;
      assert stores == front + [store];
      LastOrderOfStore(orders, store);
      PlusSwaps(SumStores(before, front), if last.storeId in front then Contribution(last) else ZERO,
                StoreTotals(before, store), if last.storeId == store then Contribution(last) else ZERO);
    }
  }

  lemma LastOrderOfStore(orders: seq<Order>, store: string)
    requires orders != []
    ensures var last := orders[|orders| - 1];
            StoreTotals(orders, store) ==
            Plus(StoreTotals(orders[..|orders| - 1], store), if last.storeId == store then Contribution(last) else ZERO)
  {}

  lemma PlusSwaps(a: Totals, b: Totals, c: Totals, d: Totals)
    requires b == ZERO || d == ZERO
    ensures Plus(Plus(a, b), Plus(c, d)) == Plus(Plus(a, c), if b == ZERO then d else b)
  {}

  // ----- the lists -----

  function Select(orders: seq<Order>, p: Order -> bool): seq<Order> {
    if orders == [] then [] else
    Select(orders[..|orders| - 1], p) + if p(orders[|orders| - 1]) then [orders[|orders| - 1]] else []
  }

  predicate IsDelivered(o: Order) { o.status == DELIVERED }

  predicate IsCancelled(o: Order) { o.status == CANCELLED }

  predicate IsPaymentFailed(o: Order) { o.status == PAYMENT_FAILED }

  predicate IsActive(o: Order) { o.status !in [DELIVERED, CANCELLED, PAYMENT_FAILED] }

  function Delivered(orders: seq<Order>): seq<Order> { Select(orders, IsDelivered) }

  function Cancelled(orders: seq<Order>): seq<Order> { Select(orders, IsCancelled) }

  function PaymentFailed(orders: seq<Order>): seq<Order> { Select(orders, IsPaymentFailed) }

  function Active(orders: seq<Order>): seq<Order> { Select(orders, IsActive) }

  function Revenue(orders: seq<Order>): real {
    if orders == [] then 0.0 else Revenue(orders[..|orders| - 1]) + orders[|orders| - 1].revenuePaise
  }

  lemma SelectLast(orders: seq<Order>, o: Order, p: Order -> bool)
    ensures Select(orders + [o], p) == Select(orders, p) + if p(o) then [o] else []
  {
    assert (orders + [o])[..|orders|] == orders;
  }

  lemma RevenueLast(orders: seq<Order>, o: Order)
    ensures Revenue(orders + [o]) == Revenue(orders) + o.revenuePaise
  {
    assert (orders + [o])[..|orders|] == orders;
  }

  ghost predicate NoneShared(a: seq<Order>, b: seq<Order>) {
    forall o :: o in a ==> o !in b
  }

  /** A selection has every order that passes as often as it occurs, and no other. */
  lemma {:induction false} SelectedOften(orders: seq<Order>, p: Order -> bool, o: Order)
    ensures multiset(Select(orders, p))[o] == if p(o) then multiset(orders)[o] else 0
    decreases |orders|
  {
    if orders != [] {
      var front, last := orders[..|orders| - 1], orders[|orders| - 1];
      assert orders == front + [last];
      SelectedOften(front, p, o);
    }
  }

  /** Each list has the orders of its status, or of no status that makes an order inactive,
      as often as they occur. */
  lemma ListsByStatus(orders: seq<Order>, o: Order)
    ensures var often := multiset(orders)[o];
            && multiset(Delivered(orders))[o] == (if o.status == "DELIVERED" then often else 0)
            && multiset(Cancelled(orders))[o] == (if o.status == "CANCELLED" then often else 0)
            && multiset(PaymentFailed(orders))[o] == (if o.status == "PAYMENT_FAILED" then often else 0)
            && multiset(Active(orders))[o] ==
               if o.status == "DELIVERED" || o.status == "CANCELLED" || o.status == "PAYMENT_FAILED" then 0 else often
  {
    SelectedOften(orders, IsDelivered, o);
    SelectedOften(orders, IsCancelled, o);
    SelectedOften(orders, IsPaymentFailed, o);
    SelectedOften(orders, IsActive, o);
    hide Select;
  }

  /** The four lists hold exactly the orders, each as often as it occurs. */
  lemma ListsPartition(orders: seq<Order>)
    ensures multiset(Delivered(orders)) + multiset(Cancelled(orders))
            + multiset(PaymentFailed(orders)) + multiset(Active(orders)) == multiset(orders)
    ensures |Delivered(orders)| + |Cancelled(orders)| + |PaymentFailed(orders)| + |Active(orders)| == |orders|
  {
    hide Select, IsDelivered, IsCancelled, IsPaymentFailed, IsActive;
    forall o: Order
      ensures multiset(Delivered(orders))[o] + multiset(Cancelled(orders))[o]
              + multiset(PaymentFailed(orders))[o] + multiset(Active(orders))[o] == multiset(orders)[o]
    {
      SelectedOften(orders, IsDelivered, o);
      SelectedOften(orders, IsCancelled, o);
      SelectedOften(orders, IsPaymentFailed, o);
      SelectedOften(orders, IsActive, o);
      ExactlyOne(o);
    }
    var all := multiset(Delivered(orders)) + multiset(Cancelled(orders))
               + multiset(PaymentFailed(orders)) + multiset(Active(orders));
    assert all == multiset(orders);
    assert |all| == |orders|;
  }

  /** No order is in two of the four lists. */
  lemma ListsDisjoint(orders: seq<Order>)
    ensures NoneShared(Delivered(orders), Cancelled(orders))
    ensures NoneShared(Delivered(orders), PaymentFailed(orders))
    ensures NoneShared(Cancelled(orders), PaymentFailed(orders))
    ensures NoneShared(Active(orders), Delivered(orders))
    ensures NoneShared(Active(orders), Cancelled(orders))
    ensures NoneShared(Active(orders), PaymentFailed(orders))
  {
    forall o: Order
      ensures o in Delivered(orders) ==> IsDelivered(o)
      ensures o in Cancelled(orders) ==> IsCancelled(o)
      ensures o in PaymentFailed(orders) ==> IsPaymentFailed(o)
      ensures o in Active(orders) ==> IsActive(o)
    {
      SelectedOften(orders, IsDelivered, o);
      SelectedOften(orders, IsCancelled, o);
      SelectedOften(orders, IsPaymentFailed, o);
      SelectedOften(orders, IsActive, o);
    }
  }

  lemma ExactlyOne(o: Order)
    ensures if IsDelivered(o) then !IsCancelled(o) && !IsPaymentFailed(o) && !IsActive(o)
            else if IsCancelled(o) then !IsPaymentFailed(o) && !IsActive(o)
            else IsPaymentFailed(o) <==> !IsActive(o)
  {}

  lemma NextTotals(orders: seq<Order>)
    requires orders != []
    ensures AllTotals(orders) == Plus(AllTotals(orders[..|orders| - 1]), Contribution(orders[|orders| - 1]))
  {}

  lemma NextDelivered(orders: seq<Order>)
    requires orders != []
    ensures var before, o := orders[..|orders| - 1], orders[|orders| - 1];
            && Delivered(orders) == Delivered(before) + (if IsDelivered(o) then [o] else [])
            && Cancelled(orders) == Cancelled(before) + (if IsCancelled(o) then [o] else [])
            && Revenue(Delivered(orders))
               == Revenue(Delivered(before)) + if IsDelivered(o) then o.revenuePaise else 0.0
  {
    var front, last := orders[..|orders| - 1], orders[|orders| - 1];
    assert orders == front + [last];
    SelectLast(front, last, IsDelivered);
    SelectLast(front, last, IsCancelled);
    RevenueLast(Delivered(front), last);
    assert Delivered(front) + [] == Delivered(front);
  }

  /** The dashboard's totals are the lengths of the lists and the revenue of the delivered. */
  lemma {:induction false} TotalsOfLists(orders: seq<Order>)
    ensures AllTotals(orders) ==
            Totals(|orders|, |Delivered(orders)|, |Cancelled(orders)|, Revenue(Delivered(orders)))
    decreases |orders|
  {
    if orders != [] {
      var front := orders[..|orders| - 1];
      TotalsOfLists(front);
      hide Select, Revenue, AllTotals, Delivered, Cancelled;
      NextTotals(orders);
      NextDelivered(orders);
    }
  }

  lemma LastSelected(orders: seq<Order>, p: Order -> bool)
    requires orders != []
    ensures var front, last := orders[..|orders| - 1], orders[|orders| - 1];
            AllTotals(Select(orders, p)) == Plus(AllTotals(Select(front, p)), if p(last) then Contribution(last) else ZERO)
  {
    var front, last := orders[..|orders| - 1], orders[|orders| - 1];
    assert orders == front + [last];
    SelectLast(front, last, p);
    if p(last) {
      NextTotals(Select(front, p) + [last]);
      assert (Select(front, p) + [last])[..|Select(front, p)|] == Select(front, p);
    } else {
      assert Select(front, p) + [] == Select(front, p);
      PlusZero(AllTotals(Select(front, p)));
    }
  }

  /** A store's row is what the dashboard would show for that store's orders alone. */
  lemma {:induction false} StoreTotalsOfOrders(orders: seq<Order>, store: string)
    ensures StoreTotals(orders, store) == AllTotals(Select(orders, (o: Order) => o.storeId == store))
    decreases |orders|
  {
    hide Plus, Contribution, AllTotals, Select;
    var p := (o: Order) => o.storeId == store;
    if orders == [] {
      NothingSelected(p);
    } else {
      StoreTotalsOfOrders(orders[..|orders| - 1], store);
      LastSelected(orders, p);
    }
  }

  lemma NothingSelected(p: Order -> bool)
    ensures AllTotals(Select([], p)) == ZERO
  {}
}
