/** The fixed-window limiter of mobile-web-preview/server.js, and what it guarantees over
    every run of requests. */
module RateLimiter {

  import opened JsText

  const RATE_WINDOW_MS := 60_000
  const RATE_MAX_REQUESTS := 600

  datatype Bucket = Bucket(start: int, count: nat)

  type Buckets = map<string, Bucket>

  /** The key of a client: requests without a remote address share one. */
  function ClientKey(remoteAddress: Option<string>): string {
    if remoteAddress.None? || remoteAddress.value == "" then "local" else remoteAddress.value
  }

  datatype Request = Request(key: string, now: int)

  predicate OpensBucket(buckets: Buckets, r: Request) {
    r.key !in buckets || r.now - buckets[r.key].start >= RATE_WINDOW_MS
  }

  function NextBucket(buckets: Buckets, r: Request): Bucket {
    if OpensBucket(buckets, r) then Bucket(r.now, 1)
    else buckets[r.key].(count := buckets[r.key].count + 1)
  }

  predicate Admits(buckets: Buckets, r: Request) {
    NextBucket(buckets, r).count <= RATE_MAX_REQUESTS
  }

  class Limiter {
    var rateBuckets: Buckets

    constructor ()
      ensures rateBuckets == map[]
    {
      rateBuckets := map[];
    }

    method RateLimit(remoteAddress: Option<string>, now: int) returns (admitted: bool)
      modifies this
      ensures var key := if remoteAddress.Some? && remoteAddress.value != "" then remoteAddress.value else "local";
              var r := Request(key, now);
              && admitted == Admits(old(rateBuckets), r)
              && rateBuckets == old(rateBuckets)[r.key := NextBucket(old(rateBuckets), r)]
    {
      var key := ClientKey(remoteAddress);
      if key !in rateBuckets || now - rateBuckets[key].start >= RATE_WINDOW_MS {
        rateBuckets := rateBuckets[key := Bucket(now, 1)];
        return true;
      }
      var bucket := rateBuckets[key];
      bucket := bucket.(count := bucket.count + 1);
      rateBuckets := rateBuckets[key := bucket];
      if bucket.count > RATE_MAX_REQUESTS {
        return false;
      }
      return true;
    }

    /** Serves a run of requests, one after the other. */
    method Serve(run: seq<Request>) returns (verdicts: seq<bool>)
      requires rateBuckets == map[] && forall i :: 0 <= i < |run| ==> run[i].key != ""
      modifies this
      ensures rateBuckets == BucketsAfter(run)
      ensures |verdicts| == |run|
      ensures forall i :: 0 <= i < |run| ==> (verdicts[i] <==> AdmitsLast(run[..i + 1]))
    {
      verdicts := [];
      for i := 0 to |run|
        invariant rateBuckets == BucketsAfter(run[..i]) && |verdicts| == i
        invariant forall j :: 0 <= j < i ==> (verdicts[j] <==> AdmitsLast(run[..j + 1]))
      {
        assert run[..i + 1][..i] == run[..i];
        var admitted := RateLimit(Some(run[i].key), run[i].now);
        verdicts := verdicts + [admitted];
      }
      assert run[..|run|] == run;
    }
  }

  // ----- runs -----

  ghost function BucketsAfter(run: seq<Request>): Buckets {
    if run == [] then map[] else
    var before, r := BucketsAfter(run[..|run| - 1]), run[|run| - 1];
    before[r.key := NextBucket(before, r)]
  }

  /** The last request of a run is admitted. */
  ghost predicate AdmitsLast(run: seq<Request>)
    requires run != []
  {
    Admits(BucketsAfter(run[..|run| - 1]), run[|run| - 1])
  }

  ghost predicate Nondecreasing(run: seq<Request>) {
    forall i, j :: 0 <= i < j < |run| ==> run[i].now <= run[j].now
  }

  /** Admitted requests of one key at times from t up to, not including, u. */
  ghost function AdmittedBetween(run: seq<Request>, key: string, t: int, u: int): nat {
    if run == [] then 0 else
    var r := run[|run| - 1];
    AdmittedBetween(run[..|run| - 1], key, t, u) +
    if r.key == key && t <= r.now < u && AdmitsLast(run) then 1 else 0
  }

  ghost function Least(a: int, b: int): int { if a <= b then a else b }

  /** What the state of a key says about the admissions in the window starting at t. */
  ghost predicate WindowInvariant(run: seq<Request>, key: string, t: int) {
    var n, buckets := AdmittedBetween(run, key, t, t + RATE_WINDOW_MS), BucketsAfter(run);
    && (run != [] && run[|run| - 1].now < t ==> n == 0)
    && if key !in buckets then n == 0 else
       var b := buckets[key];
       && b.count >= 1
       && (exists i :: 0 <= i < |run| && run[i].now == b.start)
       && n <= if b.start < t then Least(b.count, RATE_MAX_REQUESTS) - 1
               else if b.start < t + RATE_WINDOW_MS then RATE_MAX_REQUESTS - 1 + Least(b.count, RATE_MAX_REQUESTS)
               else 2 * RATE_MAX_REQUESTS - 1
  }

  lemma {:induction false} WindowInvariantHolds(run: seq<Request>, key: string, t: int)
    requires Nondecreasing(run)
    ensures WindowInvariant(run, key, t)
    decreases |run|
  {
    if run != [] {
      var before, r := run[..|run| - 1], run[|run| - 1];
      WindowInvariantHolds(before, key, t);
      WindowStep(run, key, t);
    }
  }

  lemma WindowStep(run: seq<Request>, key: string, t: int)
    requires Nondecreasing(run) && run != [] && WindowInvariant(run[..|run| - 1], key, t)
    ensures WindowInvariant(run, key, t)
  {
    var before, r := run[..|run| - 1], run[|run| - 1];
    var buckets := BucketsAfter(before);
    if before != [] {
      assert before[|before| - 1].now <= r.now;
    }
    if key in buckets {
      var i :| 0 <= i < |before| && before[i].now == buckets[key].start;
      assert run[i].now == buckets[key].start <= r.now;
    }
    assert run[|run| - 1].now == r.now;
  }

  /** In no half-open window of 60 seconds does a key get more than 1199 requests through. */
  lemma SlidingWindowBound(run: seq<Request>, key: string, t: int)
    requires Nondecreasing(run)
    ensures AdmittedBetween(run, key, t, t + 60_000) <= 1199
  {
    WindowInvariantHolds(run, key, t);
  }

  // ----- what the stored bucket means -----

  /** The index of the request that opened a key's current window, or -1: the last one that
      came 60 seconds or more after the opening before it. Requests only, no stored state. */
  ghost function Opening(run: seq<Request>, key: string): (i: int)
    ensures -1 <= i < |run| && (i >= 0 ==> run[i].key == key)
  {
    if run == [] then -1 else
    var front, r := run[..|run| - 1], run[|run| - 1];
    var previous := Opening(front, key);
    if r.key == key && (previous < 0 || r.now - front[previous].now >= 60_000) then |run| - 1 else previous
  }

  ghost function RequestsFrom(run: seq<Request>, key: string, i: int): nat {
    if run == [] then 0 else
    RequestsFrom(run[..|run| - 1], key, i) + if run[|run| - 1].key == key && i <= |run| - 1 then 1 else 0
  }

  ghost function AdmittedFrom(run: seq<Request>, key: string, i: int): nat {
    if run == [] then 0 else
    AdmittedFrom(run[..|run| - 1], key, i) +
    if run[|run| - 1].key == key && i <= |run| - 1 && AdmitsLast(run) then 1 else 0
  }

  /** The bucket of a key holds the time of the opening and the number of requests since,
      refused ones included; of those, at most 600 were admitted. */
  lemma {:induction false} BucketMeaning(run: seq<Request>, key: string)
    ensures key in BucketsAfter(run) <==> Opening(run, key) >= 0
    ensures key in BucketsAfter(run) ==>
              var b, i := BucketsAfter(run)[key], Opening(run, key);
              && b.start == run[i].now
              && b.count == RequestsFrom(run, key, i)
              && AdmittedFrom(run, key, i) == if b.count <= 600 then b.count else 600
    decreases |run|
  {
    if run != [] {
      var front, r := run[..|run| - 1], run[|run| - 1];
      BucketMeaning(front, key);
      NoneFromTheEnd(front, key, |run| - 1);
    }
  }

  lemma {:induction false} NoneFromTheEnd(run: seq<Request>, key: string, i: int)
    requires |run| <= i
    ensures RequestsFrom(run, key, i) == 0 == AdmittedFrom(run, key, i)
    decreases |run|
  {
    if run != [] {
      NoneFromTheEnd(run[..|run| - 1], key, i);
    }
  }

  /** A request is admitted exactly if at most 600 requests of its key, refused ones and
      itself included, have come since the opening of the window it falls into. */
  lemma AdmissionRule(run: seq<Request>)
    requires run != []
    ensures var key := run[|run| - 1].key;
            AdmitsLast(run) <==> RequestsFrom(run, key, Opening(run, key)) <= 600
  {
    var front, r := run[..|run| - 1], run[|run| - 1];
    BucketMeaning(run, r.key);
    assert BucketsAfter(run)[r.key] == NextBucket(BucketsAfter(front), r);
  }

  /** However often a key was refused in its window, its first request 60 seconds or more
      after the opening is admitted. */
  lemma Recovery(p: seq<Request>, q: seq<Request>, r: Request)
    requires r.key in BucketsAfter(p)
    requires var start := BucketsAfter(p)[r.key].start;
             && (forall i :: 0 <= i < |q| && q[i].key == r.key ==> q[i].now < start + 60_000)
             && start + 60_000 <= r.now
    ensures AdmitsLast(p + q + [r])
  {
    StartKept(p, q, r.key);
    assert (p + q + [r])[..|p + q|] == p + q;
  }

  lemma {:induction false} StartKept(p: seq<Request>, q: seq<Request>, key: string)
    requires key in BucketsAfter(p)
    requires forall i :: 0 <= i < |q| && q[i].key == key ==> q[i].now < BucketsAfter(p)[key].start + RATE_WINDOW_MS
    ensures key in BucketsAfter(p + q) && BucketsAfter(p + q)[key].start == BucketsAfter(p)[key].start
    decreases |q|
  {
    if q == [] {
      assert p + q == p;
    } else {
      var front := q[..|q| - 1];
      StartKept(p, front, key);
      assert (p + q)[..|p + q| - 1] == p + front;
      assert (p + q)[|p + q| - 1] == q[|q| - 1];
    }
  }

  // ----- keys do not affect each other -----

  ghost function Project(run: seq<Request>, key: string): seq<Request> {
    if run == [] then [] else
    Project(run[..|run| - 1], key) + if run[|run| - 1].key == key then [run[|run| - 1]] else []
  }

  /** The verdicts on the requests of one key, in order. */
  ghost function Verdicts(run: seq<Request>, key: string): seq<bool> {
    if run == [] then [] else
    Verdicts(run[..|run| - 1], key) + if run[|run| - 1].key == key then [AdmitsLast(run)] else []
  }

  /** A key is treated as if no other key existed. */
  lemma {:induction false} KeysIndependent(run: seq<Request>, key: string)
    ensures Verdicts(run, key) == Verdicts(Project(run, key), key)
    ensures key in BucketsAfter(run) <==> key in BucketsAfter(Project(run, key))
    ensures key in BucketsAfter(run) ==> BucketsAfter(run)[key] == BucketsAfter(Project(run, key))[key]
    decreases |run|
  {
    if run != [] {
      var front, r := run[..|run| - 1], run[|run| - 1];
      KeysIndependent(front, key);
      if r.key == key {
        var alone := Project(run, key);
        assert alone[..|alone| - 1] == Project(front, key) && alone[|alone| - 1] == r;
      } else {
        assert Project(run, key) == Project(front, key) && Verdicts(run, key) == Verdicts(front, key);
      }
    }
  }

  // ----- the bound is met -----

  ghost function Repeat(r: Request, n: nat): (run: seq<Request>)
    ensures |run| == n && forall i :: 0 <= i < n ==> run[i] == r
  {
    if n == 0 then [] else Repeat(r, n - 1) + [r]
  }

  lemma OneMore(run: seq<Request>, r: Request, t: int, u: int)
    ensures BucketsAfter(run + [r]) == BucketsAfter(run)[r.key := NextBucket(BucketsAfter(run), r)]
    ensures AdmittedBetween(run + [r], r.key, t, u) ==
            AdmittedBetween(run, r.key, t, u) + if t <= r.now < u && Admits(BucketsAfter(run), r) then 1 else 0
  {}

  lemma {:induction false} Burst(run: seq<Request>, r: Request, n: nat, t: int, b: Bucket)
    requires r.key in BucketsAfter(run) && b == BucketsAfter(run)[r.key]
    requires r.now < b.start + RATE_WINDOW_MS && b.count + n <= RATE_MAX_REQUESTS
    requires t <= r.now < t + RATE_WINDOW_MS
    ensures var longer := run + Repeat(r, n);
            && r.key in BucketsAfter(longer) && BucketsAfter(longer)[r.key] == Bucket(b.start, b.count + n)
            && AdmittedBetween(longer, r.key, t, t + RATE_WINDOW_MS)
               == AdmittedBetween(run, r.key, t, t + RATE_WINDOW_MS) + n
    decreases n
  {
    hide BucketsAfter, AdmittedBetween;
    if n == 0 {
      assert run + Repeat(r, n) == run;
    } else {
      Burst(run, r, n - 1, t, b);
      OneMore(run + Repeat(r, n - 1), r, t, t + RATE_WINDOW_MS);
      assert run + Repeat(r, n) == run + Repeat(r, n - 1) + [r];
    }
  }

  /** One request at 0, 599 just before the window ends, 600 just after. */
  ghost function WorstRun(key: string): seq<Request> {
    [Request(key, 0)] + Repeat(Request(key, 59_999), 599) + [Request(key, 60_000)] + Repeat(Request(key, 60_000), 599)
  }

  lemma BoundMet(key: string)
    ensures Nondecreasing(WorstRun(key))
    ensures AdmittedBetween(WorstRun(key), key, 1, 60_001) == 1199
  {
    var late, next := Request(key, 59_999), Request(key, 60_000);
    var first := [Request(key, 0)];
    assert [] + first == first;
    OneMore([], first[0], 1, 1 + RATE_WINDOW_MS);
    Burst(first, late, 599, 1, Bucket(0, 1));
    var full := first + Repeat(late, 599);
    OneMore(full, next, 1, 1 + RATE_WINDOW_MS);
    Burst(full + [next], next, 599, 1, Bucket(60_000, 1));
  }
}
