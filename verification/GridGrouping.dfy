/** apps/admin-dashboard/src/components/MilkDeliveryGrid.tsx: which rows of the milk grid
    show the customer, and what the footer says about today's milk. */
module GridGrouping {

  datatype Row = Row(subscriptionId: string, customerId: string, customerName: string, planName: string)

  /** What a row is drawn with. */
  datatype Meta = Meta(index: nat, count: nat, isFirst: bool, groupNumber: nat)

  // ----- what the numbers mean -----

  ghost function Count(rows: seq<Row>, customer: string): nat {
    if rows == [] then 0 else
    Count(rows[..|rows| - 1], customer) + if rows[|rows| - 1].customerId == customer then 1 else 0
  }

  ghost function Customers(rows: seq<Row>): set<string> {
    set i | 0 <= i < |rows| :: rows[i].customerId
  }

  /** The index of a customer's first row. */
  ghost function FirstRow(rows: seq<Row>, customer: string): (k: nat)
    requires customer in Customers(rows)
    ensures k < |rows| && rows[k].customerId == customer
    ensures forall i :: 0 <= i < k ==> rows[i].customerId != customer
  {
    var front := rows[..|rows| - 1];
    if customer in Customers(front) then FirstRow(front, customer) else |rows| - 1
  }

  /** Customers are numbered from 1 in the order of their first rows. */
  ghost function GroupNumber(rows: seq<Row>, customer: string): nat
    requires customer in Customers(rows)
  {
    |Customers(rows[..FirstRow(rows, customer)])| + 1
  }

  ghost function MetaOf(rows: seq<Row>, i: nat): Meta
    requires i < |rows|
  {
    var customer := rows[i].customerId;
    var index := Count(rows[..i + 1], customer);
    Meta(index, Count(rows, customer), index == 1, GroupNumber(rows, customer))
  }

  // ----- the three loops -----

  method CountRows(rows: seq<Row>) returns (counts: map<string, nat>)
    ensures counts.Keys == Customers(rows)
    ensures forall c :: c in counts ==> counts[c] == Count(rows, c)
  {
    counts := map[];
    for i := 0 to |rows|
      invariant counts.Keys == Customers(rows[..i])
      invariant forall c :: c in counts ==> counts[c] == Count(rows[..i], c)
    {
      var c := rows[i].customerId;
      CustomersNext(rows, i);
      CountAbsent(rows[..i], c);
      assert rows[..i + 1][..i] == rows[..i];
      counts := counts[c := (if c in counts then counts[c] else 0) + 1];
    }
    assert rows[..|rows|] == rows;
  }

  method NumberCustomers(rows: seq<Row>) returns (custNum: map<string, nat>)
    ensures custNum.Keys == Customers(rows)
    ensures forall c :: c in custNum ==> custNum[c] == GroupNumber(rows, c)
  {
    custNum := map[];
    var next := 0;
    for i := 0 to |rows|
      invariant custNum.Keys == Customers(rows[..i]) && next == |Customers(rows[..i])|
      invariant forall c :: c in custNum ==> custNum[c] == GroupNumber(rows[..i], c)
    {
      var c := rows[i].customerId;
      CustomersNext(rows, i);
      forall c' | c' in Customers(rows[..i])
        ensures GroupNumber(rows[..i + 1], c') == GroupNumber(rows[..i], c')
      {
        GroupNumberKept(rows, i, c');
      }
      if c !in custNum {
        next := next + 1;
        NewGroupNumber(rows, i);
        custNum := custNum[c := next];
      }
    }
    assert rows[..|rows|] == rows;
  }

  /** No later one of the first n rows has the same subscription. */
  ghost predicate LastOf(rows: seq<Row>, n: nat, i: nat)
    requires i < n <= |rows|
  {
    forall j :: i < j < n ==> rows[j].subscriptionId != rows[i].subscriptionId
  }

  /** The meta of the first n rows is in place; a subscription listed twice keeps what its
      last row got. */
  ghost predicate MetaComplete(rows: seq<Row>, meta: map<string, Meta>, n: nat)
    requires n <= |rows|
  {
    && (forall i :: 0 <= i < n && LastOf(rows, n, i) ==>
          rows[i].subscriptionId in meta && meta[rows[i].subscriptionId] == MetaOf(rows, i))
    && (forall s :: s in meta ==> exists i :: 0 <= i < n && rows[i].subscriptionId == s)
  }

  ghost predicate CountsOf(counts: map<string, nat>, rows: seq<Row>) {
    counts.Keys == Customers(rows) && forall c :: c in counts ==> counts[c] == Count(rows, c)
  }

  lemma MetaAdded(rows: seq<Row>, meta: map<string, Meta>, i: nat)
    requires i < |rows| && MetaComplete(rows, meta, i)
    ensures MetaComplete(rows, meta[rows[i].subscriptionId := MetaOf(rows, i)], i + 1)
  {
    hide MetaOf;
    var after := meta[rows[i].subscriptionId := MetaOf(rows, i)];
    forall k | 0 <= k < i + 1 && LastOf(rows, i + 1, k)
      ensures rows[k].subscriptionId in after && after[rows[k].subscriptionId] == MetaOf(rows, k)
    {
      if k < i {
        assert LastOf(rows, i, k);
        assert rows[k].subscriptionId != rows[i].subscriptionId;
      }
    }
  }

  lemma CountAdded(seen: map<string, nat>, rows: seq<Row>, i: nat)
    requires i < |rows| && CountsOf(seen, rows[..i])
    ensures var c := rows[i].customerId;
            var index := (if c in seen then seen[c] else 0) + 1;
            index == Count(rows[..i + 1], c) && CountsOf(seen[c := index], rows[..i + 1])
  {
    CustomersNext(rows, i);
    CountAbsent(rows[..i], rows[i].customerId);
    assert rows[..i + 1][..i] == rows[..i];
  }

  /** Every row gets its place within its customer's rows, how many those are, and the
      customer's number. */
  method RowGroupMeta(rows: seq<Row>) returns (meta: map<string, Meta>)
    ensures MetaComplete(rows, meta, |rows|)
  {
    hide Count, Customers, GroupNumber, MetaComplete;
    var counts := CountRows(rows);
    var custNum := NumberCustomers(rows);
    var seen: map<string, nat> := map[];
    meta := map[];
    NothingCounted(rows);
    for i := 0 to |rows|
      invariant CountsOf(seen, rows[..i]) && MetaComplete(rows, meta, i)
    {
      var r := rows[i];
      CountAdded(seen, rows, i);
      MetaAdded(rows, meta, i);
      RowHasCustomer(rows, i);
      var count := if r.customerId in counts then counts[r.customerId] else 1;
      var index := (if r.customerId in seen then seen[r.customerId] else 0) + 1;
      seen := seen[r.customerId := index];
      meta := meta[r.subscriptionId := Meta(index, count, index == 1, custNum[r.customerId])];
    }
  }

  lemma NothingCounted(rows: seq<Row>)
    ensures CountsOf(map[], rows[..0]) && MetaComplete(rows, map[], 0)
  {}

  lemma RowHasCustomer(rows: seq<Row>, i: nat)
    requires i < |rows|
    ensures rows[i].customerId in Customers(rows)
  {}

  lemma CustomersNext(rows: seq<Row>, i: nat)
    requires i < |rows|
    ensures Customers(rows[..i + 1]) == Customers(rows[..i]) + {rows[i].customerId}
  {}

  lemma {:induction false} CountAbsent(rows: seq<Row>, customer: string)
    ensures Count(rows, customer) == 0 <==> customer !in Customers(rows)
    decreases |rows|
  {
    if rows != [] {
      var last := |rows| - 1;
      CountAbsent(rows[..last], customer);
      CustomersNext(rows, last);
      assert rows[..last + 1] == rows;
    }
  }

  lemma FirstRowUnique(rows: seq<Row>, customer: string, k: nat)
    requires k < |rows| && rows[k].customerId == customer
    requires forall i :: 0 <= i < k ==> rows[i].customerId != customer
    ensures customer in Customers(rows) && FirstRow(rows, customer) == k
  {}

  lemma GroupNumberKept(rows: seq<Row>, i: nat, customer: string)
    requires i < |rows| && customer in Customers(rows[..i])
    ensures customer in Customers(rows[..i + 1])
    ensures GroupNumber(rows[..i + 1], customer) == GroupNumber(rows[..i], customer)
  {
    var k := FirstRow(rows[..i], customer);
    FirstRowUnique(rows[..i + 1], customer, k);
    assert rows[..i + 1][..k] == rows[..k] == rows[..i][..k];
  }

  lemma NewGroupNumber(rows: seq<Row>, i: nat)
    requires i < |rows| && rows[i].customerId !in Customers(rows[..i])
    ensures rows[i].customerId in Customers(rows[..i + 1])
    ensures GroupNumber(rows[..i + 1], rows[i].customerId) == |Customers(rows[..i])| + 1 == |Customers(rows[..i + 1])|
  {
    assert forall k | 0 <= k < i :: rows[..i][k].customerId in Customers(rows[..i]);
    FirstRowUnique(rows[..i + 1], rows[i].customerId, i);
    assert rows[..i + 1][..i] == rows[..i];
    CustomersNext(rows, i);
  }

  /** The numbers run from 1 to the number of customers, in the order of the first rows. */
  lemma NumbersFollowFirstRows(rows: seq<Row>, a: string, b: string)
    requires a in Customers(rows) && b in Customers(rows)
    ensures 1 <= GroupNumber(rows, a) <= |Customers(rows)|
    ensures GroupNumber(rows, a) < GroupNumber(rows, b) <==> FirstRow(rows, a) < FirstRow(rows, b)
  {
    FewerBefore(rows, a, |rows|);
    assert rows[..|rows|] == rows;
    var (i, j) := (FirstRow(rows, a), FirstRow(rows, b));
    if i < j {
      FewerBefore(rows, a, j);
    } else if j < i {
      FewerBefore(rows, b, i);
    }
  }

  lemma FewerBefore(rows: seq<Row>, customer: string, n: nat)
    requires customer in Customers(rows) && FirstRow(rows, customer) < n <= |rows|
    ensures |Customers(rows[..FirstRow(rows, customer)])| < |Customers(rows[..n])|
  {
    hide FirstRow;
    var k := FirstRow(rows, customer);
    var (before, after) := (Customers(rows[..k]), Customers(rows[..n]));
    assert rows[..n][k].customerId == customer;
    assert customer in after && customer !in before;
    forall c | c in before
      ensures c in after
    {
      var i :| 0 <= i < k && rows[..k][i].customerId == c;
      assert rows[..n][i].customerId == c;
    }
    FewerElements(before, after, customer);
  }

  lemma FewerElements(a: set<string>, b: set<string>, x: string)
    requires a <= b && x in b && x !in a
    ensures |a| < |b|
  {
    assert a + {x} + (b - a - {x}) == b;
  }

  // ----- when the grouping fits the rows -----

  ghost predicate Contiguous(rows: seq<Row>) {
    forall i, j, k :: 0 <= i < j < k < |rows| && rows[i].customerId == rows[k].customerId
                      ==> rows[j].customerId == rows[i].customerId
  }

  /** From row o on, customer blocks numbered g, g + 1, ... follow each other without gap or
      overlap: each starts with the only first row of its customer, which spans the whole
      block, and counts its rows from 1. */
  ghost predicate Tiles(rows: seq<Row>, o: nat, g: nat)
    decreases |rows| - o
  {
    o <= |rows| &&
    (o == |rows| ||
     var first := MetaOf(rows, o);
     && first.isFirst && first.groupNumber == g
     && 0 < first.count <= |rows| - o
     && (forall i :: o <= i < o + first.count ==>
           rows[i].customerId == rows[o].customerId
           && MetaOf(rows, i) == Meta(i - o + 1, first.count, i == o, g))
     && Tiles(rows, o + first.count, g + 1))
  }

  lemma {:induction false} CountAppend(a: seq<Row>, b: seq<Row>, customer: string)
    ensures Count(a + b, customer) == Count(a, customer) + Count(b, customer)
    decreases |b|
  {
    if b == [] {
      assert a + b == a;
    } else {
      assert (a + b)[..|a + b| - 1] == a + b[..|b| - 1];
      CountAppend(a, b[..|b| - 1], customer);
    }
  }

  lemma {:induction false} CountBlock(rows: seq<Row>, customer: string)
    requires forall i :: 0 <= i < |rows| ==> rows[i].customerId == customer
    ensures Count(rows, customer) == |rows|
    decreases |rows|
  {
    if rows != [] {
      CountBlock(rows[..|rows| - 1], customer);
    }
  }

  lemma CountNone(rows: seq<Row>, customer: string)
    requires forall i :: 0 <= i < |rows| ==> rows[i].customerId != customer
    ensures Count(rows, customer) == 0
  {}

  /** The end of the block of equal customers that starts at o. */
  ghost function BlockEnd(rows: seq<Row>, o: nat, e: nat): (end: nat)
    requires o < e <= |rows| && forall i :: o <= i < e ==> rows[i].customerId == rows[o].customerId
    ensures e <= end <= |rows| && forall i :: o <= i < end ==> rows[i].customerId == rows[o].customerId
    ensures end < |rows| ==> rows[end].customerId != rows[o].customerId
    decreases |rows| - e
  {
    if e < |rows| && rows[e].customerId == rows[o].customerId then BlockEnd(rows, o, e + 1) else e
  }

  ghost predicate IsBlock(rows: seq<Row>, o: nat, end: nat) {
    o < end <= |rows| && forall k :: o <= k < end ==> rows[k].customerId == rows[o].customerId
  }

  /** No row outside belongs to the block's customer. */
  ghost predicate HoldsAll(rows: seq<Row>, o: nat, end: nat)
    requires o < end <= |rows|
  {
    forall k :: 0 <= k < o || end <= k < |rows| ==> rows[k].customerId != rows[o].customerId
  }

  lemma IndexInBlock(rows: seq<Row>, o: nat, end: nat, i: nat)
    requires IsBlock(rows, o, end) && HoldsAll(rows, o, end) && o <= i < end
    ensures Count(rows[..i + 1], rows[o].customerId) == i - o + 1
    ensures Count(rows, rows[o].customerId) == end - o
  {
    hide Count;
    var c := rows[o].customerId;
    assert rows[..i + 1] == rows[..o] + rows[o..i + 1];
    CountAppend(rows[..o], rows[o..i + 1], c);
    CountNone(rows[..o], c);
    CountBlock(rows[o..i + 1], c);
    CountSplit(rows, o, end, c);
    CountNone(rows[end..], c);
  }

  /** Row i of a block that holds all rows of its customer. */
  lemma MetaInBlock(rows: seq<Row>, o: nat, end: nat, i: nat)
    requires IsBlock(rows, o, end) && HoldsAll(rows, o, end) && o <= i < end
    ensures MetaOf(rows, i) == Meta(i - o + 1, end - o, i == o, |Customers(rows[..o])| + 1)
  {
    hide Count, Customers, FirstRow;
    FirstRowUnique(rows, rows[o].customerId, o);
    IndexInBlock(rows, o, end, i);
  }

  lemma CountSplit(rows: seq<Row>, o: nat, end: nat, customer: string)
    requires IsBlock(rows, o, end) && rows[o].customerId == customer
    ensures Count(rows, customer) == Count(rows[..o], customer) + (end - o) + Count(rows[end..], customer)
  {
    assert rows == rows[..o] + rows[o..end] + rows[end..];
    CountAppend(rows[..o] + rows[o..end], rows[end..], customer);
    CountAppend(rows[..o], rows[o..end], customer);
    CountBlock(rows[o..end], customer);
  }

  lemma BlockCustomers(rows: seq<Row>, o: nat, end: nat)
    requires IsBlock(rows, o, end) && HoldsAll(rows, o, end)
    ensures |Customers(rows[..end])| == |Customers(rows[..o])| + 1
  {
    var before, after := Customers(rows[..o]), Customers(rows[..end]);
    assert forall k | 0 <= k < o :: rows[..o][k].customerId == rows[k].customerId == rows[..end][k].customerId;
    assert rows[..end][o].customerId in after;
    assert after == before + {rows[o].customerId};
  }

  /** No customer has rows on both sides of o. */
  ghost predicate Separated(rows: seq<Row>, o: nat)
    requires o <= |rows|
  {
    forall i, k :: 0 <= i < o <= k < |rows| ==> rows[i].customerId != rows[k].customerId
  }

  lemma NextBlock(rows: seq<Row>, o: nat) returns (end: nat)
    requires Contiguous(rows) && o < |rows| && Separated(rows, o)
    ensures IsBlock(rows, o, end) && HoldsAll(rows, o, end) && Separated(rows, end)
  {
    end := BlockEnd(rows, o, o + 1);
    assert forall k | end <= k < |rows| :: rows[k].customerId != rows[o].customerId;
  }

  lemma {:induction false} ContiguousTiles(rows: seq<Row>, o: nat)
    requires Contiguous(rows) && o <= |rows| && Separated(rows, o)
    ensures Tiles(rows, o, |Customers(rows[..o])| + 1)
    decreases |rows| - o
  {
    hide MetaOf, Customers, Contiguous, Separated;
    if o < |rows| {
      var end := NextBlock(rows, o);
      forall i | o <= i < end
        ensures MetaOf(rows, i) == Meta(i - o + 1, end - o, i == o, |Customers(rows[..o])| + 1)
      {
        MetaInBlock(rows, o, end, i);
      }
      BlockCustomers(rows, o, end);
      ContiguousTiles(rows, end);
    }
  }

  lemma CountedNowhere(rows: seq<Row>, customer: string, k: nat)
    requires Count(rows, customer) == 0 && k < |rows|
    ensures rows[k].customerId != customer
  {}

  /** A block as long as its customer's count holds all rows of the customer. */
  lemma BlockHoldsAll(rows: seq<Row>, o: nat, end: nat)
    requires IsBlock(rows, o, end) && Count(rows, rows[o].customerId) == end - o
    ensures HoldsAll(rows, o, end)
  {
    hide Count;
    var c := rows[o].customerId;
    CountSplit(rows, o, end, c);
    forall k | 0 <= k < o || end <= k < |rows|
      ensures rows[k].customerId != c
    {
      if k < o {
        CountedNowhere(rows[..o], c, k);
      } else {
        CountedNowhere(rows[end..], c, k - end);
      }
    }
  }

  ghost predicate ContiguousFrom(rows: seq<Row>, o: nat) {
    forall i, j, k :: o <= i < j < k < |rows| && rows[i].customerId == rows[k].customerId
                      ==> rows[j].customerId == rows[i].customerId
  }

  lemma BlockBefore(rows: seq<Row>, o: nat, end: nat)
    requires IsBlock(rows, o, end) && HoldsAll(rows, o, end) && ContiguousFrom(rows, end)
    ensures ContiguousFrom(rows, o)
  {
    forall i, j, k | o <= i < j < k < |rows| && rows[i].customerId == rows[k].customerId
      ensures rows[j].customerId == rows[i].customerId
    {
      if i < end {
        assert rows[i].customerId == rows[o].customerId;
        assert k < end;
      }
    }
  }

  lemma FirstTile(rows: seq<Row>, o: nat, g: nat) returns (end: nat)
    requires Tiles(rows, o, g) && o < |rows|
    ensures IsBlock(rows, o, end) && Count(rows, rows[o].customerId) == end - o && Tiles(rows, end, g + 1)
  {
    hide GroupNumber, FirstRow, Customers, Count;
    end := o + MetaOf(rows, o).count;
  }

  lemma {:induction false} TilesContiguous(rows: seq<Row>, o: nat, g: nat)
    requires Tiles(rows, o, g) && o <= |rows|
    ensures ContiguousFrom(rows, o)
    decreases |rows| - o
  {
    hide Tiles, Count;
    if o < |rows| {
      var end := FirstTile(rows, o, g);
      BlockHoldsAll(rows, o, end);
      TilesContiguous(rows, end, g + 1);
      BlockBefore(rows, o, end);
    }
  }

  /** The spans of the first rows tile the grid, with groups numbered in order, exactly if
      every customer's rows are adjacent. */
  lemma TilesExactly(rows: seq<Row>)
    ensures Tiles(rows, 0, 1) <==> Contiguous(rows)
  {
    hide Tiles;
    if Contiguous(rows) {
      assert Customers(rows[..0]) == {};
      ContiguousTiles(rows, 0);
    }
    if Tiles(rows, 0, 1) {
      TilesContiguous(rows, 0, 1);
    }
  }

  // ----- the sort before it -----

  /** localeCompare: which of two names comes first, as a rank in a total preorder. */
  type Collation = string -> int

  /** Row i is sorted before row j: by customer name, then by plan name, and rows that compare
      equal stay in order. */
  ghost predicate Before(rows: seq<Row>, rank: Collation, i: nat, j: nat)
    requires i < |rows| && j < |rows|
  {
    var (byCustomer, byPlan) := (rank(rows[j].customerName) - rank(rows[i].customerName),
                                 rank(rows[j].planName) - rank(rows[i].planName));
    if byCustomer != 0 then byCustomer > 0
    else if byPlan != 0 then byPlan > 0
    else i < j
  }

  ghost predicate Indices(order: seq<nat>, n: nat) {
    (forall k :: 0 <= k < |order| ==> order[k] < n) && (forall i :: 0 <= i < n ==> i in order)
  }

  /** The first n rows, sorted: order[k] is the index of the row that comes to place k. */
  ghost predicate SortOrder(rows: seq<Row>, rank: Collation, order: seq<nat>, n: nat)
    requires n <= |rows|
  {
    Indices(order, n) && forall j, k :: 0 <= j < k < |order| ==> Before(rows, rank, order[j], order[k])
  }

  /** Where index i comes to stand. */
  ghost function Place(order: seq<nat>, n: nat, i: nat): (k: nat)
    requires Indices(order, n) && i < n
    ensures k < |order| && order[k] == i
  {
    assert i in order;
    var k :| 0 <= k < |order| && order[k] == i;
    k
  }

  function Permuted(rows: seq<Row>, order: seq<nat>): seq<Row>
    requires forall k :: 0 <= k < |order| ==> order[k] < |rows|
  {
    seq(|order|, k requires 0 <= k < |order| => rows[order[k]])
  }

  /** The place of row n among the n rows before it. */
  lemma PlaceOf(rows: seq<Row>, rank: Collation, order: seq<nat>, n: nat) returns (p: nat)
    requires n < |rows| && SortOrder(rows, rank, order, n)
    ensures p <= |order|
    ensures forall k :: 0 <= k < p ==> Before(rows, rank, order[k], n)
    ensures forall k :: p <= k < |order| ==> Before(rows, rank, n, order[k])
  {
    p := |order|;
    while p > 0 && Before(rows, rank, n, order[p - 1])
      invariant p <= |order| && forall k :: p <= k < |order| ==> Before(rows, rank, n, order[k])
    {
      p := p - 1;
    }
  }

  /** The rows can always be sorted. */
  lemma {:induction false} SortOrderExists(rows: seq<Row>, rank: Collation, n: nat) returns (order: seq<nat>)
    requires n <= |rows|
    ensures SortOrder(rows, rank, order, n)
    decreases n
  {
    if n == 0 {
      order := [];
    } else {
      var before := SortOrderExists(rows, rank, n - 1);
      var p := PlaceOf(rows, rank, before, n - 1);
      hide Before;
      order := before[..p] + [n - 1] + before[p..];
      assert order[p] == n - 1;
      forall i | 0 <= i < n - 1
        ensures i in order
      {
        assert before == before[..p] + before[p..];
        assert i in before;
      }
    }
  }

  ghost predicate NoneTwice(order: seq<nat>) {
    forall j, k :: 0 <= j < k < |order| ==> order[j] != order[k]
  }

  lemma PermutedAppend(rows: seq<Row>, a: seq<nat>, b: seq<nat>)
    requires forall k :: 0 <= k < |a| ==> a[k] < |rows|
    requires forall k :: 0 <= k < |b| ==> b[k] < |rows|
    ensures Permuted(rows, a + b) == Permuted(rows, a) + Permuted(rows, b)
  {}

  /** Without its greatest index an order is one of the indices below. */
  lemma GreatestRemoved(order: seq<nat>, n: nat, p: nat)
    requires Indices(order, n + 1) && NoneTwice(order) && p < |order| && order[p] == n
    ensures Indices(order[..p] + order[p + 1..], n) && NoneTwice(order[..p] + order[p + 1..])
  {
    var rest := order[..p] + order[p + 1..];
    forall i | 0 <= i < n
      ensures i in rest
    {
      var k := Place(order, n + 1, i);
      assert rest[if k < p then k else k - 1] == i;
    }
  }

  lemma {:induction false} PermutedSame(rows: seq<Row>, order: seq<nat>, n: nat)
    requires n <= |rows| && Indices(order, n) && NoneTwice(order)
    ensures multiset(Permuted(rows, order)) == multiset(rows[..n])
    decreases n
  {
    hide NoneTwice;
    SomeIndex(order, n);
    if n > 0 {
      var p := Place(order, n, n - 1);
      GreatestRemoved(order, n - 1, p);
      PermutedSame(rows, order[..p] + order[p + 1..], n - 1);
      PermutedAround(rows, order, p);
      assert rows[..n] == rows[..n - 1] + [rows[n - 1]];
    }
  }

  lemma SomeIndex(order: seq<nat>, n: nat)
    requires Indices(order, n)
    ensures order != [] ==> n > 0
  {
    if order != [] {
      assert order[0] < n;
    }
  }

  lemma PermutedAround(rows: seq<Row>, order: seq<nat>, p: nat)
    requires p < |order| && forall k :: 0 <= k < |order| ==> order[k] < |rows|
    ensures var rest := order[..p] + order[p + 1..];
            && (forall k :: 0 <= k < |rest| ==> rest[k] < |rows|)
            && multiset(Permuted(rows, order)) == multiset(Permuted(rows, rest)) + multiset{rows[order[p]]}
  {
    var before, last, after := order[..p], [order[p]], order[p + 1..];
    assert order == before + last + after;
    PermutedAppend(rows, before, after);
    PermutedAppend(rows, before + last, after);
    PermutedAppend(rows, before, last);
    OnePermuted(rows, order[p]);
  }

  lemma OnePermuted(rows: seq<Row>, i: nat)
    requires i < |rows|
    ensures Permuted(rows, [i]) == [rows[i]]
  {}

  /** Sorting keeps every row as often as it is there; customer names ascend, plan names
      ascend among equal customer names, and rows equal in both stay in order. */
  lemma SortedAscends(rows: seq<Row>, rank: Collation, order: seq<nat>)
    requires SortOrder(rows, rank, order, |rows|)
    ensures var sorted := Permuted(rows, order);
            && multiset(sorted) == multiset(rows)
            && forall j, k :: 0 <= j < k < |sorted| ==>
                 && rank(sorted[j].customerName) <= rank(sorted[k].customerName)
                 && (rank(sorted[j].customerName) == rank(sorted[k].customerName) ==>
                       && rank(sorted[j].planName) <= rank(sorted[k].planName)
                       && (rank(sorted[j].planName) == rank(sorted[k].planName) ==> order[j] < order[k]))
  {
    forall j, k | 0 <= j < k < |order|
      ensures order[j] != order[k]
    {
      assert Before(rows, rank, order[j], order[k]);
    }
    PermutedSame(rows, order, |rows|);
    assert rows[..|rows|] == rows;
  }

  lemma SortedInOrder(rows: seq<Row>, rank: Collation, order: seq<nat>, j: nat, k: nat)
    requires SortOrder(rows, rank, order, |rows|) && j < |order| && k < |order|
    ensures Before(rows, rank, order[j], order[k]) <==> j < k
  {
    if k < j {
      assert Before(rows, rank, order[k], order[j]);
    }
  }

  /** No row of another customer is sorted between two rows of one. */
  ghost predicate KeptTogether(rows: seq<Row>, rank: Collation) {
    forall a, b, c ::
      && 0 <= a < |rows| && 0 <= b < |rows| && 0 <= c < |rows|
      && rows[a].customerId == rows[b].customerId && Before(rows, rank, a, c) && Before(rows, rank, c, b)
      ==> rows[c].customerId == rows[a].customerId
  }

  lemma KeptTogetherContiguous(rows: seq<Row>, rank: Collation, order: seq<nat>)
    requires SortOrder(rows, rank, order, |rows|) && KeptTogether(rows, rank)
    ensures Contiguous(Permuted(rows, order))
  {
    hide Before;
    var sorted := Permuted(rows, order);
    forall i, j, k | 0 <= i < j < k < |sorted| && sorted[i].customerId == sorted[k].customerId
      ensures sorted[j].customerId == sorted[i].customerId
    {
      assert Before(rows, rank, order[i], order[j]) && Before(rows, rank, order[j], order[k]);
    }
  }

  lemma ContiguousKeptTogether(rows: seq<Row>, rank: Collation, order: seq<nat>)
    requires SortOrder(rows, rank, order, |rows|) && Contiguous(Permuted(rows, order))
    ensures KeptTogether(rows, rank)
  {
    hide Before;
    var sorted := Permuted(rows, order);
    forall a, b, c |
      && 0 <= a < |rows| && 0 <= b < |rows| && 0 <= c < |rows|
      && rows[a].customerId == rows[b].customerId && Before(rows, rank, a, c) && Before(rows, rank, c, b)
      ensures rows[c].customerId == rows[a].customerId
    {
      var (i, j, k) := (Place(order, |rows|, a), Place(order, |rows|, c), Place(order, |rows|, b));
      SortedInOrder(rows, rank, order, i, j);
      SortedInOrder(rows, rank, order, j, k);
      assert i < j < k && sorted[i].customerId == sorted[k].customerId;
      assert sorted[j].customerId == sorted[i].customerId;
    }
  }

  /** The rows as sorted tile exactly if the sort puts no other customer's row between two of
      one customer. */
  lemma SortedTilesExactly(rows: seq<Row>, rank: Collation, order: seq<nat>)
    requires SortOrder(rows, rank, order, |rows|)
    ensures Tiles(Permuted(rows, order), 0, 1) <==> KeptTogether(rows, rank)
  {
    hide Tiles;
    TilesExactly(Permuted(rows, order));
    if KeptTogether(rows, rank) {
      KeptTogetherContiguous(rows, rank, order);
    }
    if Contiguous(Permuted(rows, order)) {
      ContiguousKeptTogether(rows, rank, order);
    }
  }

  /** Names that compare equal belong to one customer, and a customer has one name. */
  ghost predicate NamesIdentify(rows: seq<Row>, rank: Collation) {
    forall i, j :: 0 <= i < |rows| && 0 <= j < |rows| ==>
      (rank(rows[i].customerName) == rank(rows[j].customerName) <==> rows[i].customerId == rows[j].customerId)
  }

  /** In particular they tile, if each customer has one name and no two customers have names
      that compare equal. */
  lemma SortedTiles(rows: seq<Row>, rank: Collation, order: seq<nat>)
    requires SortOrder(rows, rank, order, |rows|) && NamesIdentify(rows, rank)
    ensures Tiles(Permuted(rows, order), 0, 1)
  {
    hide Tiles;
    SortedTilesExactly(rows, rank, order);
  }

  /** Two customers of the same name whose plans alternate come apart. */
  lemma SameNameComesApart(rank: Collation)
    requires rank("A") < rank("B") < rank("C")
    ensures var rows := [Row("s1", "c1", "Ravi", "A"), Row("s2", "c2", "Ravi", "B"), Row("s3", "c1", "Ravi", "C")];
            SortOrder(rows, rank, [0, 1, 2], |rows|) && !Tiles(Permuted(rows, [0, 1, 2]), 0, 1)
  {
    var rows := [Row("s1", "c1", "Ravi", "A"), Row("s2", "c2", "Ravi", "B"), Row("s3", "c1", "Ravi", "C")];
    hide Tiles;
    var order: seq<nat> := [0, 1, 2];
    assert order[0] == 0 && order[1] == 1 && order[2] == 2;
    SortedTilesExactly(rows, rank, order);
    assert Before(rows, rank, 0, 1) && Before(rows, rank, 1, 2);
  }
}
