/** scripts/verify-dependency-security.js: advisories spread along the `via` edges of an
    npm audit report until nothing changes, and every package is then judged by what
    reached it. The reference is reachability by paths; the graph may have cycles. */
module AdvisoryAudit {

  // ----- the report -----

  /** An element of a `via` list: an advisory object with a string url, the name of a
      package, or anything else (an object without a url, null, a number). */
  datatype Via = Advisory(url: string) | Package(name: string) | Other

  /** The `vulnerabilities` object: its keys in order, and the `via` list of each. */
  datatype Report = Report(names: seq<string>, via: map<string, seq<Via>>)
  {
    ghost predicate Valid() {
      && (forall n :: n in names <==> n in via)
      && (forall i, j :: 0 <= i < j < |names| ==> names[i] != names[j])
    }
  }

  /** The property names every JavaScript object answers to without having them as keys. */
  const INHERITED: set<string> := {
    "__defineGetter__", "__defineSetter__", "__lookupGetter__", "__lookupSetter__", "__proto__",
    "constructor", "hasOwnProperty", "isPrototypeOf", "propertyIsEnumerable",
    "toLocaleString", "toString", "valueOf"
  }

  /** `vulnerabilities[name]` is truthy. */
  predicate Resolves(r: Report, name: string) {
    name in r.via || name in INHERITED
  }

  ghost predicate Edge(r: Report, from: string, to: string) {
    from in r.via && to in r.via && Package(to) in r.via[from]
  }

  /** A `via` name that is no key of the report but that every object answers to. */
  ghost predicate InheritedVia(r: Report, from: string, to: string) {
    from in r.via && Package(to) in r.via[from] && to !in r.via && to in INHERITED
  }

  ghost predicate HasInheritedVia(r: Report) {
    exists from, to :: InheritedVia(r, from, to)
  }

  // ----- reachability -----

  ghost predicate IsPath(r: Report, path: seq<string>) {
    && path != []
    && (forall i :: 0 <= i < |path| ==> path[i] in r.via)
    && (forall i :: 0 <= i < |path| - 1 ==> Edge(r, path[i], path[i + 1]))
  }

  ghost predicate Connects(r: Report, path: seq<string>, from: string, to: string) {
    IsPath(r, path) && path[0] == from && path[|path| - 1] == to
  }

  ghost predicate Reaches(r: Report, from: string, to: string) {
    exists path :: Connects(r, path, from, to)
  }

  lemma ReachesItself(r: Report, n: string)
    requires n in r.via
    ensures Reaches(r, n, n)
  {
    assert Connects(r, [n], n, n);
  }

  lemma ReachesThroughEdge(r: Report, from: string, mid: string, to: string)
    requires Edge(r, from, mid) && Reaches(r, mid, to)
    ensures Reaches(r, from, to)
  {
    var path :| Connects(r, path, mid, to);
    assert Connects(r, [from] + path, from, to);
  }

  /** A path can be cut short at a repetition. */
  lemma CutLoop(r: Report, path: seq<string>, i: nat, j: nat)
    requires IsPath(r, path) && i < j < |path| && path[i] == path[j]
    ensures Connects(r, path[..i] + path[j..], path[0], path[|path| - 1])
  {}

  /** No sequence without repetition is longer than the set it draws from. */
  lemma {:induction false} Pigeonhole(s: seq<string>, all: set<string>)
    requires forall x :: x in s ==> x in all
    requires forall i, j :: 0 <= i < j < |s| ==> s[i] != s[j]
    ensures |s| <= |all|
    decreases |s|
  {
    if s != [] {
      Pigeonhole(s[1..], all - {s[0]});
    }
  }

  lemma {:induction false} ShortPath(r: Report, path: seq<string>) returns (short: seq<string>)
    requires IsPath(r, path)
    ensures Connects(r, short, path[0], path[|path| - 1]) && |short| <= |r.via|
    decreases |path|
  {
    if i, j :| 0 <= i < j < |path| && path[i] == path[j] {
      CutLoop(r, path, i, j);
      short := ShortPath(r, path[..i] + path[j..]);
    } else {
      short := path;
      Pigeonhole(path, r.via.Keys);
    }
  }

  // ----- what is spread -----

  /** The two maps of sets the script keeps: advisory URLs and unresolved names. */
  datatype Marks = Marks(urls: map<string, set<string>>, unresolved: map<string, set<string>>)

  ghost predicate MarksFor(r: Report, m: Marks) {
    m.urls.Keys == r.via.Keys == m.unresolved.Keys
  }

  ghost predicate Includes(r: Report, big: Marks, n: string, small: Marks, v: string)
    requires MarksFor(r, big) && MarksFor(r, small) && n in r.via && v in r.via
  {
    small.urls[v] <= big.urls[n] && small.unresolved[v] <= big.unresolved[n]
  }

  /** Node by node, m has at most the marks of m'. */
  ghost predicate Below(r: Report, m: Marks, m': Marks)
    requires MarksFor(r, m) && MarksFor(r, m')
  {
    forall n :: n in r.via ==> Includes(r, m', n, m, n)
  }

  /** In m', every node has what its direct dependencies have in m. */
  ghost predicate Absorbs(r: Report, m: Marks, m': Marks)
    requires MarksFor(r, m) && MarksFor(r, m')
  {
    forall n, v :: Edge(r, n, v) ==> Includes(r, m', n, m, v)
  }

  ghost function UrlSeeds(via: seq<Via>): set<string> {
    set v | v in via && v.Advisory? :: v.url
  }

  ghost function UnresolvedSeeds(r: Report, via: seq<Via>): set<string> {
    set v | v in via && v.Package? && !Resolves(r, v.name) :: v.name
  }

  ghost function Seeds(r: Report): Marks {
    Marks(map n | n in r.via :: UrlSeeds(r.via[n]), map n | n in r.via :: UnresolvedSeeds(r, r.via[n]))
  }

  /** The union of the seeds of everything reachable. */
  ghost function Reached(r: Report, seeds: Marks): Marks
    requires MarksFor(r, seeds)
  {
    Marks(
      map n | n in r.via :: ReachedFrom(r, seeds.urls, n),
      map n | n in r.via :: ReachedFrom(r, seeds.unresolved, n)
    )
  }

  ghost function ReachedFrom(r: Report, seeds: map<string, set<string>>, n: string): set<string>
    requires seeds.Keys == r.via.Keys
  {
    set to, x | to in r.via && Reaches(r, n, to) && x in seeds[to] :: x
  }

  // ----- the fixed point -----

  lemma ReachedAbsorbsItself(r: Report, seeds: Marks)
    requires MarksFor(r, seeds)
    ensures Absorbs(r, Reached(r, seeds), Reached(r, seeds)) && Below(r, seeds, Reached(r, seeds))
  {
    forall n, v, to | Edge(r, n, v) && to in r.via && Reaches(r, v, to)
      ensures Reaches(r, n, to)
    {
      ReachesThroughEdge(r, n, v, to);
    }
    forall n | n in r.via
      ensures Reaches(r, n, n)
    {
      ReachesItself(r, n);
    }
  }

  /** Marks that absorb themselves carry everything along any path. */
  lemma {:induction false} CarriedAlong(r: Report, m: Marks, path: seq<string>)
    requires MarksFor(r, m) && Absorbs(r, m, m) && IsPath(r, path)
    ensures Includes(r, m, path[0], m, path[|path| - 1])
    decreases |path|
  {
    if |path| > 1 {
      assert Edge(r, path[0], path[1]);
      assert forall i | 0 <= i < |path[1..]| - 1 :: path[1..][i + 1] == path[1..][1..][i];
      TailIsPath(r, path);
      CarriedAlong(r, m, path[1..]);
    }
  }

  lemma TailIsPath(r: Report, path: seq<string>)
    requires IsPath(r, path) && |path| > 1
    ensures IsPath(r, path[1..]) && Edge(r, path[0], path[1])
    ensures path[1..][|path| - 2] == path[|path| - 1]
  {}

  /** `Reached` is the least marks above the seeds that absorb themselves. */
  lemma ReachedIsLeast(r: Report, seeds: Marks, m: Marks)
    requires MarksFor(r, seeds) && MarksFor(r, m)
    requires Below(r, seeds, m) && Absorbs(r, m, m)
    ensures Below(r, Reached(r, seeds), m)
  {
    forall n, to | n in r.via && to in r.via && Reaches(r, n, to)
      ensures Includes(r, m, n, seeds, to)
    {
      var path :| Connects(r, path, n, to);
      CarriedAlong(r, m, path);
      assert Includes(r, m, to, seeds, to);
    }
  }

  /** Nothing named in a via list, in whatever place, has marks that its package lacks. */
  lemma ReachedCarries(r: Report, seeds: Marks)
    requires MarksFor(r, seeds)
    ensures var m := Reached(r, seeds);
            && (forall n, v :: n in r.via && v in r.via && Package(v) in r.via[n] ==>
                  m.urls[v] <= m.urls[n] && m.unresolved[v] <= m.unresolved[n])
            && (forall n :: n in r.via ==> seeds.urls[n] <= m.urls[n] && seeds.unresolved[n] <= m.unresolved[n])
  {
    hide Reached;
    ReachedIsMarks(r, seeds);
    ReachedAbsorbsItself(r, seeds);
    var m := Reached(r, seeds);
    forall n, v | n in r.via && v in r.via && Package(v) in r.via[n]
      ensures m.urls[v] <= m.urls[n] && m.unresolved[v] <= m.unresolved[n]
    {
      assert Edge(r, n, v);
    }
    assert forall n | n in r.via :: Includes(r, m, n, seeds, n);
  }

  /** And no other marks of which that holds have less anywhere. */
  lemma ReachedHasNoMore(r: Report, seeds: Marks, other: Marks)
    requires MarksFor(r, seeds) && other.urls.Keys == r.via.Keys == other.unresolved.Keys
    requires forall n, v :: n in r.via && v in r.via && Package(v) in r.via[n] ==>
               other.urls[v] <= other.urls[n] && other.unresolved[v] <= other.unresolved[n]
    requires forall n :: n in r.via ==>
               seeds.urls[n] <= other.urls[n] && seeds.unresolved[n] <= other.unresolved[n]
    ensures var m := Reached(r, seeds);
            forall n :: n in r.via ==> m.urls[n] <= other.urls[n] && m.unresolved[n] <= other.unresolved[n]
  {
    hide Reached;
    ReachedIsMarks(r, seeds);
    var m := Reached(r, seeds);
    ReachedIsLeast(r, seeds, other);
    assert forall n | n in r.via :: Includes(r, other, n, m, n);
  }

  lemma BelowBoth(r: Report, m: Marks, m': Marks)
    requires MarksFor(r, m) && MarksFor(r, m') && Below(r, m, m') && Below(r, m', m)
    ensures m == m'
  {
    forall n | n in r.via
      ensures m.urls[n] == m'.urls[n] && m.unresolved[n] == m'.unresolved[n]
    {
      assert Includes(r, m', n, m, n) && Includes(r, m, n, m', n);
    }
    assert m.urls == m'.urls && m.unresolved == m'.unresolved;
  }

  // ----- how many passes -----

  /** Every node has the seeds at the end of each path of at most k nodes. */
  ghost predicate Covers(r: Report, seeds: Marks, m: Marks, k: nat)
    requires MarksFor(r, seeds) && MarksFor(r, m)
  {
    forall path :: IsPath(r, path) && |path| <= k ==> Includes(r, m, path[0], seeds, path[|path| - 1])
  }

  lemma PassCoversMore(r: Report, seeds: Marks, m: Marks, m': Marks, k: nat)
    requires MarksFor(r, seeds) && MarksFor(r, m) && MarksFor(r, m')
    requires k > 0 && Covers(r, seeds, m, k) && Below(r, m, m') && Absorbs(r, m, m')
    ensures Covers(r, seeds, m', k + 1)
  {
    forall path | IsPath(r, path) && |path| <= k + 1
      ensures Includes(r, m', path[0], seeds, path[|path| - 1])
    {
      if |path| == 1 {
        assert Includes(r, m, path[0], seeds, path[0]);
        assert Includes(r, m', path[0], m, path[0]);
      } else {
        TailIsPath(r, path);
        assert Includes(r, m, path[1], seeds, path[|path| - 1]);
        assert Includes(r, m', path[0], m, path[1]);
      }
    }
  }

  /** Paths as long as there are nodes are long enough. */
  lemma AllCovered(r: Report, seeds: Marks, m: Marks, k: nat)
    requires MarksFor(r, seeds) && MarksFor(r, m)
    requires |r.via| <= k && Covers(r, seeds, m, k) && Below(r, m, Reached(r, seeds))
    ensures m == Reached(r, seeds)
  {
    forall n, to | n in r.via && to in r.via && Reaches(r, n, to)
      ensures Includes(r, m, n, seeds, to)
    {
      var path :| Connects(r, path, n, to);
      var short := ShortPath(r, path);
    }
    assert Below(r, Reached(r, seeds), m);
    BelowBoth(r, m, Reached(r, seeds));
  }

  lemma NamesAreNodes(r: Report)
    requires r.Valid()
    ensures |r.names| == |r.via|
  {
    Pigeonhole(r.names, r.via.Keys);
    NoMoreThan(r.via.Keys, r.names);
  }

  lemma {:induction false} NoMoreThan(all: set<string>, s: seq<string>)
    requires forall x :: x in all ==> x in s
    ensures |all| <= |s|
    decreases |s|
  {
    if s != [] {
      NoMoreThan(all - {s[0]}, s[1..]);
    } else {
      assert all == {};
    }
  }

  // ----- the script -----

  lemma SeedsAppend(r: Report, via: seq<Via>, v: Via)
    ensures UrlSeeds(via + [v]) == UrlSeeds(via) + if v.Advisory? then {v.url} else {}
    ensures UnresolvedSeeds(r, via + [v]) ==
            UnresolvedSeeds(r, via) + if v.Package? && !Resolves(r, v.name) then {v.name} else {}
  {}

  /** The seeds of one package. */
  method SeedPackage(r: Report, via: seq<Via>) returns (urls: set<string>, unresolved: set<string>)
    ensures urls == UrlSeeds(via) && unresolved == UnresolvedSeeds(r, via)
  {
    hide UrlSeeds, UnresolvedSeeds, Resolves;
    urls, unresolved := {}, {};
    NoSeeds(r);
    for j := 0 to |via|
      invariant urls == UrlSeeds(via[..j]) && unresolved == UnresolvedSeeds(r, via[..j])
    {
      assert via[..j + 1] == via[..j] + [via[j]];
      SeedsAppend(r, via[..j], via[j]);
      match via[j] {
        case Advisory(url) =>
          urls := urls + {url};
        case Package(dependency) =>
          if !Resolves(r, dependency) {
            unresolved := unresolved + {dependency};
          }
        case Other =>
      }
    }
    assert via[..|via|] == via;
  }

  lemma NoSeeds(r: Report)
    ensures UrlSeeds([]) == {} == UnresolvedSeeds(r, [])
  {}

  ghost predicate SeededTo(r: Report, m: Marks, i: nat)
    requires i <= |r.names| && forall n :: n in r.names <==> n in r.via
  {
    && MarksFor(r, m)
    && forall k :: 0 <= k < i ==>
         && m.urls[r.names[k]] == UrlSeeds(r.via[r.names[k]])
         && m.unresolved[r.names[k]] == UnresolvedSeeds(r, r.via[r.names[k]])
  }

  lemma NoneSeeded(r: Report)
    requires r.Valid()
    ensures SeededTo(r, Marks(map n | n in r.via :: {}, map n | n in r.via :: {}), 0)
  {}

  lemma OneMoreSeeded(r: Report, m: Marks, i: nat)
    requires r.Valid() && i < |r.names| && SeededTo(r, m, i)
    ensures var (name, via) := (r.names[i], r.via[r.names[i]]);
            SeededTo(r, Marks(m.urls[name := UrlSeeds(via)], m.unresolved[name := UnresolvedSeeds(r, via)]), i + 1)
  {
    hide UrlSeeds, UnresolvedSeeds;
  }

  lemma AllSeeded(r: Report, m: Marks)
    requires r.Valid() && SeededTo(r, m, |r.names|)
    ensures m == Seeds(r)
  {}

  method SeedMarks(r: Report) returns (m: Marks)
    requires r.Valid()
    ensures m == Seeds(r)
    ensures forall n, url :: n in r.via ==> (url in m.urls[n] <==> Advisory(url) in r.via[n])
    ensures forall n, name :: n in r.via ==>
              (name in m.unresolved[n] <==> Package(name) in r.via[n] && name !in r.via && name !in INHERITED)
  {
    hide UrlSeeds, UnresolvedSeeds, Seeds, SeededTo;
    m := Marks(map n | n in r.via :: {}, map n | n in r.via :: {});
    NoneSeeded(r);
    for i := 0 to |r.names|
      invariant SeededTo(r, m, i)
    {
      var name := r.names[i];
      var urls, unresolved := SeedPackage(r, r.via[name]);
      OneMoreSeeded(r, m, i);
      m := Marks(m.urls[name := urls], m.unresolved[name := unresolved]);
    }
    AllSeeded(r, m);
    SeedsByElements(r);
  }

  lemma SeedsByElements(r: Report)
    ensures MarksFor(r, Seeds(r))
    ensures forall n, url :: n in r.via ==> (url in Seeds(r).urls[n] <==> Advisory(url) in r.via[n])
    ensures forall n, name :: n in r.via ==>
              (name in Seeds(r).unresolved[n] <==> Package(name) in r.via[n] && name !in r.via && name !in INHERITED)
  {}

  /** The innermost loops: add what is missing, and say whether anything was. */
  method AddMissing(target: set<string>, source: set<string>) returns (result: set<string>, grew: bool)
    ensures result == target + source && (grew <==> !(source <= target))
  {
    result, grew := target, false;
    var rest := source;
    while rest != {}
      invariant forall x :: x in result <==> x in target || (x in source && x !in rest)
      invariant rest <= source
      invariant grew <==> exists x :: x in source && x !in rest && x !in target
      decreases rest
    {
      var x :| x in rest;
      if x !in result {
        result, grew := result + {x}, true;
      }
      rest := rest - {x};
    }
  }

  ghost function Absorbed(m: Marks, n: string, v: string): Marks
    requires n in m.urls && v in m.urls && n in m.unresolved && v in m.unresolved
  {
    Marks(m.urls[n := m.urls[n] + m.urls[v]], m.unresolved[n := m.unresolved[n] + m.unresolved[v]])
  }

  method Absorb(r: Report, m: Marks, n: string, v: string) returns (m': Marks, changed: bool)
    requires MarksFor(r, m) && n in r.via && v in r.via
    ensures m' == Absorbed(m, n, v) && (changed <==> m' != m)
  {
    var urls, grewUrls := AddMissing(m.urls[n], m.urls[v]);
    var unresolved, grewUnresolved := AddMissing(m.unresolved[n], m.unresolved[v]);
    m' := Marks(m.urls[n := urls], m.unresolved[n := unresolved]);
    changed := grewUrls || grewUnresolved;
    if !changed {
      assert urls == m.urls[n] && unresolved == m.unresolved[n];
      assert m'.urls == m.urls && m'.unresolved == m.unresolved;
    } else {
      assert m'.urls[n] != m.urls[n] || m'.unresolved[n] != m.unresolved[n];
    }
  }

  lemma AbsorbedSound(r: Report, m: Marks, n: string, v: string, limit: Marks)
    requires MarksFor(r, m) && MarksFor(r, limit) && Edge(r, n, v)
    requires Below(r, m, limit) && Absorbs(r, limit, limit)
    ensures MarksFor(r, Absorbed(m, n, v)) && Below(r, Absorbed(m, n, v), limit) && Below(r, m, Absorbed(m, n, v))
  {}

  lemma BelowTransitive(r: Report, a: Marks, b: Marks, c: Marks)
    requires MarksFor(r, a) && MarksFor(r, b) && MarksFor(r, c)
    requires Below(r, a, b) && Below(r, b, c)
    ensures Below(r, a, c)
  {}

  /** One package's turn within a pass. */
  method AbsorbAll(r: Report, m: Marks, n: string, ghost limit: Marks)
    returns (m': Marks, changed: bool, threw: bool)
    requires r.Valid() && n in r.via && MarksFor(r, m) && MarksFor(r, limit)
    requires Below(r, m, limit) && Absorbs(r, limit, limit)
    ensures threw <==> exists v :: InheritedVia(r, n, v)
    ensures MarksFor(r, m') && Below(r, m, m') && Below(r, m', limit)
    ensures !threw ==> forall v :: v in r.via && Package(v) in r.via[n] ==>
              m.urls[v] <= m'.urls[n] && m.unresolved[v] <= m'.unresolved[n]
    ensures changed <==> m' != m
  {
    m', changed, threw := m, false, false;
    var via := r.via[n];
    for j := 0 to |via|
      invariant MarksFor(r, m') && Below(r, m, m') && Below(r, m', limit)
      invariant changed <==> m' != m
      invariant forall k :: 0 <= k < j && via[k].Package? ==> !InheritedVia(r, n, via[k].name)
      invariant forall k :: 0 <= k < j && via[k].Package? && via[k].name in r.via ==> Includes(r, m', n, m, via[k].name)
    {
      if !via[j].Package? || !Resolves(r, via[j].name) {
        continue;
      }
      var v := via[j].name;
      if v !in r.via {
        assert InheritedVia(r, n, v);
        threw := true;
        return;
      }
      assert Edge(r, n, v);
      AbsorbedSound(r, m', n, v, limit);
      var next, grew := Absorb(r, m', n, v);
      BelowTransitive(r, m, m', next);
      AbsorbedKeeps(r, m, m', n, v, next);
      if grew {
        GrownDiffers(r, m, m', next);
      }
      m', changed := next, changed || grew;
    }
  }

  lemma AbsorbedKeeps(r: Report, m: Marks, m': Marks, n: string, v: string, next: Marks)
    requires MarksFor(r, m) && MarksFor(r, m') && n in r.via && v in r.via
    requires Below(r, m, m') && next == Absorbed(m', n, v)
    ensures MarksFor(r, next) && Includes(r, next, n, m, v)
    ensures forall u :: u in r.via && Includes(r, m', n, m, u) ==> Includes(r, next, n, m, u)
  {}

  lemma GrownDiffers(r: Report, m: Marks, m': Marks, next: Marks)
    requires MarksFor(r, m) && MarksFor(r, m') && MarksFor(r, next)
    requires Below(r, m, m') && Below(r, m', next) && m' != next
    ensures m != next
  {
    if m == next {
      BelowBoth(r, m', next);
    }
  }

  /** The first i packages, each after its turn, have what their dependencies had before. */
  ghost predicate TurnsTaken(r: Report, m: Marks, m': Marks, i: nat)
    requires MarksFor(r, m) && MarksFor(r, m') && i <= |r.names|
  {
    forall k, v :: 0 <= k < i && Edge(r, r.names[k], v) ==> Includes(r, m', r.names[k], m, v)
  }

  ghost predicate NoneInherited(r: Report, i: nat)
    requires i <= |r.names|
  {
    forall k, v :: 0 <= k < i ==> !InheritedVia(r, r.names[k], v)
  }

  lemma OneMoreTurn(r: Report, m: Marks, m': Marks, next: Marks, i: nat)
    requires MarksFor(r, m) && MarksFor(r, m') && MarksFor(r, next) && i < |r.names|
    requires Below(r, m, m') && Below(r, m', next) && TurnsTaken(r, m, m', i)
    requires r.names[i] in r.via
    requires forall v :: v in r.via && Package(v) in r.via[r.names[i]] ==>
               m'.urls[v] <= next.urls[r.names[i]] && m'.unresolved[v] <= next.unresolved[r.names[i]]
    ensures TurnsTaken(r, m, next, i + 1)
  {}

  lemma NoTurnTaken(r: Report, m: Marks)
    requires MarksFor(r, m)
    ensures Below(r, m, m) && TurnsTaken(r, m, m, 0) && NoneInherited(r, 0)
  {}

  lemma InheritedHere(r: Report, i: nat)
    requires i < |r.names| && NoneInherited(r, i)
    ensures if exists v :: InheritedVia(r, r.names[i], v) then HasInheritedVia(r) else NoneInherited(r, i + 1)
  {}

  lemma AllTurnsTaken(r: Report, m: Marks, m': Marks)
    requires r.Valid() && MarksFor(r, m) && MarksFor(r, m')
    requires TurnsTaken(r, m, m', |r.names|) && NoneInherited(r, |r.names|)
    ensures Absorbs(r, m, m') && !HasInheritedVia(r)
  {}

  /** One pass over all packages, in place: later packages see what earlier ones gained. */
  method Pass(r: Report, m: Marks, ghost limit: Marks) returns (m': Marks, changed: bool, threw: bool)
    requires r.Valid() && MarksFor(r, m) && MarksFor(r, limit)
    requires Below(r, m, limit) && Absorbs(r, limit, limit)
    ensures threw <==> HasInheritedVia(r)
    ensures MarksFor(r, m') && Below(r, m, m') && Below(r, m', limit)
    ensures !threw ==> Absorbs(r, m, m')
    ensures changed <==> m' != m
  {
    hide Includes, InheritedVia, HasInheritedVia, NoneInherited, Edge, Absorbs, Below, TurnsTaken;
    m', changed, threw := m, false, false;
    NoTurnTaken(r, m);
    for i := 0 to |r.names|
      invariant MarksFor(r, m') && Below(r, m, m') && Below(r, m', limit)
      invariant changed <==> m' != m
      invariant NoneInherited(r, i) && TurnsTaken(r, m, m', i)
    {
      InheritedHere(r, i);
      var next, grew, threwHere := AbsorbAll(r, m', r.names[i], limit);
      BelowTransitive(r, m, m', next);
      if grew {
        GrownDiffers(r, m, m', next);
      }
      if !threwHere {
        OneMoreTurn(r, m, m', next, i);
      }
      m', changed, threw := next, changed || grew, threwHere;
      if threw {
        return;
      }
    }
    AllTurnsTaken(r, m, m');
  }

  lemma BelowItself(r: Report, m: Marks)
    requires MarksFor(r, m)
    ensures Below(r, m, m)
  {}

  lemma SeedsCovered(r: Report, seeds: Marks)
    requires MarksFor(r, seeds)
    ensures Covers(r, seeds, seeds, 1)
  {}

  /** A pass over marks that already reach everything changes nothing. */
  lemma LastPassUnchanged(r: Report, seeds: Marks, m: Marks, next: Marks, k: nat)
    requires MarksFor(r, seeds) && MarksFor(r, m) && MarksFor(r, next)
    requires |r.via| <= k && Covers(r, seeds, m, k)
    requires Below(r, m, next) && Below(r, next, Reached(r, seeds))
    ensures next == m
  {
    BelowTransitive(r, m, next, Reached(r, seeds));
    AllCovered(r, seeds, m, k);
    BelowBoth(r, m, next);
  }

  lemma BelowSquare(n: nat)
    ensures n <= n * n
  {}

  /** The propagation loop. Without a throw it always ends because nothing changed,
      within one pass per package, on exactly the seeds of all reachable packages. */
  method Propagate(r: Report, seeds: Marks) returns (m: Marks, changed: bool, threw: bool, passes: nat)
    requires r.Valid() && MarksFor(r, seeds)
    ensures threw <==> HasInheritedVia(r)
    ensures !threw ==> !changed && m == Reached(r, seeds)
    ensures !threw ==> m.urls.Keys == r.via.Keys == m.unresolved.Keys
    ensures !threw ==> forall n, v :: n in r.via && v in r.via && Package(v) in r.via[n] ==>
              m.urls[v] <= m.urls[n] && m.unresolved[v] <= m.unresolved[n]
    ensures !threw ==> forall n :: n in r.via ==> seeds.urls[n] <= m.urls[n] && seeds.unresolved[n] <= m.unresolved[n]
    ensures 1 <= passes <= if |r.names| == 0 then 1 else |r.names|
  {
    hide Includes, Edge, Absorbs, Below, Covers, Reached, HasInheritedVia, Report.Valid;
    ghost var limit := Reached(r, seeds);
    ReachedIsMarks(r, seeds);
    ReachedAbsorbsItself(r, seeds);
    NamesAreNodes(r);
    BelowSquare(|r.names|);
    SeedsCovered(r, seeds);
    BelowItself(r, seeds);
    m, threw := seeds, false;
    changed := true;
    passes := 0;
    var square := |r.names| * |r.names| + 1;
    var maxPasses := if square > 1 then square else 1;
    while changed && passes < maxPasses
      invariant MarksFor(r, m) && Below(r, seeds, m) && Below(r, m, limit)
      invariant Covers(r, seeds, m, passes + 1)
      invariant passes > 0 ==> !HasInheritedVia(r)
      invariant changed && passes > 0 ==> passes < |r.names|
      invariant !changed ==> passes > 0 && Absorbs(r, m, m)
      invariant passes <= if |r.names| == 0 then 1 else |r.names|
      decreases maxPasses - passes
    {
      var next, grew, threwHere := Pass(r, m, limit);
      if threwHere {
        return next, grew, true, passes + 1;
      }
      if passes + 1 >= |r.names| {
        LastPassUnchanged(r, seeds, m, next, passes + 1);
      }
      PassCoversMore(r, seeds, m, next, passes + 1);
      BelowTransitive(r, seeds, m, next);
      m, changed, passes := next, grew, passes + 1;
    }
    ReachedIsLeast(r, seeds, m);
    BelowBoth(r, m, limit);
    ReachedCarries(r, seeds);
  }

  lemma ReachedIsMarks(r: Report, seeds: Marks)
    requires MarksFor(r, seeds)
    ensures MarksFor(r, Reached(r, seeds))
  {}

  // ----- the verdict -----

  const ADVISORIES := "https://github.com/advisories/GHSA-"

  const ALLOWED_IDS: set<string> := {
    "5jgf-p345-68v8", "f65p-4m7j-42xc", "fph4-wmhf-6fwf", "jqff-g426-hqxp", "qw65-cvwx-89v3",
    "6w3j-5fw6-r9vr", "gg4h-3hg2-grpc", "6h2x-m376-mqjq", "2883-xcg3-v3hh", "x5fp-wj9c-mxmx",
    "4mjr-xmp4-gh2g", "vcc3-ghjq-m6fr", "w5hq-g745-h8pq", "vfj7-8cjw-p6xm", "hp3w-g68c-fv3c"
  }

  const ALLOWED: set<string> := set id | id in ALLOWED_IDS :: ADVISORIES + id

  const IMAGE_SIZE := "image-size"
  const IMAGE_SIZE_ONLY: set<string> := {ADVISORIES + "w3rx-r6r6-pgpr", ADVISORIES + "5p2g-fcmc-qvqq"}

  /** The policy in terms of the report alone: what a package depends on, at whatever
      distance, has no unresolved name, some advisory, and only allowed advisories. */
  ghost predicate Compensated(r: Report, n: string)
    requires n in r.via
  {
    && (forall to :: to in r.via && Reaches(r, n, to) ==> UnresolvedSeeds(r, r.via[to]) == {})
    && (exists to :: to in r.via && Reaches(r, n, to) && UrlSeeds(r.via[to]) != {})
    && (forall to :: to in r.via && Reaches(r, n, to) ==> UrlSeeds(r.via[to]) <= ALLOWED)
  }

  ghost predicate AllCompensated(r: Report) {
    forall n :: n in r.via ==> Compensated(r, n)
  }

  lemma CompensatedByMarks(r: Report, n: string)
    requires n in r.via
    ensures var m := Reached(r, Seeds(r));
            Compensated(r, n) <==> m.unresolved[n] == {} && m.urls[n] != {} && m.urls[n] <= ALLOWED
  {
    hide UrlSeeds, UnresolvedSeeds, Reaches;
    var m := Reached(r, Seeds(r));
    assert forall to, x | to in r.via && Reaches(r, n, to) && x in UnresolvedSeeds(r, r.via[to]) :: x in m.unresolved[n];
    assert forall to, x | to in r.via && Reaches(r, n, to) && x in UrlSeeds(r.via[to]) :: x in m.urls[n];
    if m.urls[n] != {} {
      var x :| x in m.urls[n];
      var to :| to in r.via && Reaches(r, n, to) && x in UrlSeeds(r.via[to]);
    }
  }

  /** The same policy, path by path: however one follows the via lists from a package, every
      advisory there is an allowed one, every name there is known to the report or inherited,
      and somewhere there is an advisory. */
  lemma CompensatedByPaths(r: Report, n: string)
    requires n in r.via
    ensures Compensated(r, n) <==>
            && (forall path, to, url :: Follows(r, n, path, to) && to in r.via && Advisory(url) in r.via[to] ==>
                  url in ALLOWED)
            && (forall path, to, name :: Follows(r, n, path, to) && to in r.via && Package(name) in r.via[to] ==>
                  name in r.via || name in INHERITED)
            && (exists path, to, url :: Follows(r, n, path, to) && to in r.via && Advisory(url) in r.via[to])
  {
    hide ALLOWED, INHERITED, Reaches, Follows;
    forall to
      ensures (exists path :: Follows(r, n, path, to)) <==> to in r.via && Reaches(r, n, to)
    {
      ReachedByFollowing(r, n, to);
    }
    if Compensated(r, n) {
      var to :| to in r.via && Reaches(r, n, to) && UrlSeeds(r.via[to]) != {};
      var url :| url in UrlSeeds(r.via[to]);
      assert Advisory(url) in r.via[to];
      forall path, to, name | Follows(r, n, path, to) && to in r.via && Package(name) in r.via[to]
        ensures name in r.via || name in INHERITED
      {
        assert name !in UnresolvedSeeds(r, r.via[to]);
      }
      forall path, to, url | Follows(r, n, path, to) && to in r.via && Advisory(url) in r.via[to]
        ensures url in ALLOWED
      {
        assert url in UrlSeeds(r.via[to]);
      }
    }
    if path, to, url :| Follows(r, n, path, to) && to in r.via && Advisory(url) in r.via[to] {
      assert url in UrlSeeds(r.via[to]);
    }
  }

  lemma ReachedByFollowing(r: Report, n: string, to: string)
    ensures (exists path :: Follows(r, n, path, to)) <==> to in r.via && Reaches(r, n, to)
  {
    if Reaches(r, n, to) {
      var path :| Connects(r, path, n, to);
      assert Follows(r, n, path, to);
    }
    if path :| Follows(r, n, path, to) {
      assert Connects(r, path, n, to);
    }
  }

  /** A walk along via lists, from n to `to`, through packages of the report. */
  ghost predicate Follows(r: Report, n: string, path: seq<string>, to: string) {
    && path != [] && path[0] == n && path[|path| - 1] == to
    && (forall i :: 0 <= i < |path| ==> path[i] in r.via)
    && (forall i :: 0 < i < |path| ==> Package(path[i]) in r.via[path[i - 1]])
  }

  datatype Finding = Finding(name: string, urls: set<string>, unknown: set<string>)

  ghost function FindingOf(r: Report, n: string): Finding
    requires n in r.via
  {
    var m := Reached(r, Seeds(r));
    Finding(n, m.urls[n], m.unresolved[n])
  }

  /** The findings for the packages that are, or are not, compensated, in report order. */
  ghost function Select(r: Report, names: seq<string>, compensated: bool): seq<Finding>
    requires forall n :: n in names ==> n in r.via
  {
    if names == [] then [] else
    var front, n := names[..|names| - 1], names[|names| - 1];
    Select(r, front, compensated) + if Compensated(r, n) == compensated then [FindingOf(r, n)] else []
  }

  /** A finding names a package and lists exactly the advisories and the unresolved names that
      following the via lists from it comes upon. */
  lemma FindingByPaths(r: Report, n: string)
    requires n in r.via
    ensures FindingOf(r, n).name == n
    ensures forall url :: url in FindingOf(r, n).urls <==>
              exists path, to :: Follows(r, n, path, to) && to in r.via && Advisory(url) in r.via[to]
    ensures forall name :: name in FindingOf(r, n).unknown <==>
              && name !in r.via && name !in INHERITED
              && exists path, to :: Follows(r, n, path, to) && to in r.via && Package(name) in r.via[to]
  {
    hide INHERITED, Reaches, Follows;
    SeedsByElements(r);
    forall to
      ensures (exists path :: Follows(r, n, path, to)) <==> to in r.via && Reaches(r, n, to)
    {
      ReachedByFollowing(r, n, to);
    }
    assert forall url :: url in FindingOf(r, n).urls <==>
      exists to :: to in r.via && Reaches(r, n, to) && url in Seeds(r).urls[to];
    assert forall name :: name in FindingOf(r, n).unknown <==>
      exists to :: to in r.via && Reaches(r, n, to) && name in Seeds(r).unresolved[to];
    hide Seeds, FindingOf;
  }

  /** Report order is kept. */
  lemma {:induction false} SelectAppend(r: Report, a: seq<string>, b: seq<string>, compensated: bool)
    requires (forall n :: n in a ==> n in r.via) && (forall n :: n in b ==> n in r.via)
    ensures forall n :: n in a + b ==> n in r.via
    ensures Select(r, a + b, compensated) == Select(r, a, compensated) + Select(r, b, compensated)
    decreases |b|
  {
    hide Compensated, FindingOf;
    assert forall n | n in a + b :: n in a || n in b;
    if b == [] {
      assert a + b == a && Select(r, b, compensated) == [];
    } else {
      var front := b[..|b| - 1];
      assert (a + b)[..|a + b| - 1] == a + front && (a + b)[|a + b| - 1] == b[|b| - 1];
      SelectAppend(r, a, front, compensated);
      hide Select;
      NextSelected(r, a + b, compensated);
      NextSelected(r, b, compensated);
    }
  }

  lemma NextSelected(r: Report, names: seq<string>, compensated: bool)
    requires names != [] && forall n :: n in names ==> n in r.via
    ensures var front, n := names[..|names| - 1], names[|names| - 1];
            && (Compensated(r, n) == compensated ==>
                  Select(r, names, compensated) == Select(r, front, compensated) + [FindingOf(r, n)])
            && (Compensated(r, n) != compensated ==> Select(r, names, compensated) == Select(r, front, compensated))
  {
    hide Compensated, FindingOf;
  }

  method Classify(r: Report, m: Marks) returns (blocked: seq<Finding>, compensated: seq<Finding>)
    requires r.Valid() && m == Reached(r, Seeds(r))
    ensures blocked == Select(r, r.names, false) && compensated == Select(r, r.names, true)
  {
    hide Compensated, Reached, ALLOWED;
    blocked, compensated := [], [];
    ReachedIsMarks(r, Seeds(r));
    for i := 0 to |r.names|
      invariant blocked == Select(r, r.names[..i], false) && compensated == Select(r, r.names[..i], true)
    {
      var name := r.names[i];
      assert r.names[..i + 1][..i] == r.names[..i];
      CompensatedByMarks(r, name);
      var urls, unknown := m.urls[name], m.unresolved[name];
      if |unknown| == 0 && |urls| > 0 && urls <= ALLOWED {
        compensated := compensated + [Finding(name, urls, unknown)];
      } else {
        blocked := blocked + [Finding(name, urls, unknown)];
      }
    }
    assert r.names[..|r.names|] == r.names;
  }

  lemma {:induction false} NothingBlocked(r: Report, names: seq<string>)
    requires forall n :: n in names ==> n in r.via
    ensures Select(r, names, false) == [] <==> forall n :: n in names ==> Compensated(r, n)
    decreases |names|
  {
    hide Compensated;
    if names != [] {
      var front, n := names[..|names| - 1], names[|names| - 1];
      assert names == front + [n];
      NothingBlocked(r, front);
    }
  }

  lemma SameId(a: string, b: string)
    requires ADVISORIES + a == ADVISORIES + b
    ensures a == b
  {
    var k := |ADVISORIES|;
    assert (ADVISORIES + a)[k..] == a && (ADVISORIES + b)[k..] == b;
  }

  /** The two advisories the image-size exception is about are not among the allowed ones. */
  lemma ImageSizeNotAllowed()
    ensures !(IMAGE_SIZE_ONLY <= ALLOWED)
  {
    var id := "5p2g-fcmc-qvqq";
    assert forall a | a in ALLOWED_IDS :: a[0] != '5' || a[1] != 'p';
    if ADVISORIES + id in ALLOWED {
      var a :| a in ALLOWED_IDS && ADVISORIES + a == ADVISORIES + id;
      SameId(a, id);
    }
    assert ADVISORIES + id in IMAGE_SIZE_ONLY;
  }

  datatype Verdict = Threw | NotConverged | Refused(blocked: seq<Finding>) | ImageSizeChanged | Passed

  /** The script's verdict, and when exactly it is which. It never fails to converge, and it
      never passes a report that mentions image-size: a compensated image-size has only
      allowed advisories, and those cannot be the two that the exception names. */
  method Audit(r: Report) returns (verdict: Verdict)
    requires r.Valid()
    ensures verdict != NotConverged
    ensures verdict == Threw <==> HasInheritedVia(r)
    ensures verdict == Threw <==> exists from, name ::
              from in r.via && Package(name) in r.via[from] && name !in r.via && name in INHERITED
    ensures verdict.Refused? <==> !HasInheritedVia(r) && !AllCompensated(r)
    ensures verdict.Refused? ==> verdict.blocked == Select(r, r.names, false)
    ensures verdict == ImageSizeChanged <==> !HasInheritedVia(r) && AllCompensated(r) && IMAGE_SIZE in r.via
    ensures verdict == Passed <==> !HasInheritedVia(r) && AllCompensated(r) && IMAGE_SIZE !in r.via
  {
    hide HasInheritedVia, Compensated, Reached, Seeds, ALLOWED, IMAGE_SIZE_ONLY;
    InheritedByElements(r);
    hide INHERITED;
    var seeds := SeedMarks(r);
    SeedsAreMarks(r);
    var m, changed, threw, passes := Propagate(r, seeds);
    if threw {
      return Threw;
    }
    var blocked, compensated := Classify(r, m);
    NothingBlocked(r, r.names);
    ReachedIsMarks(r, seeds);
    if changed {
      verdict := NotConverged;
    } else if |blocked| > 0 {
      verdict := Refused(blocked);
    } else if IMAGE_SIZE !in r.via {
      verdict := Passed;
    } else {
      var direct := m.urls[IMAGE_SIZE];
      CompensatedByMarks(r, IMAGE_SIZE);
      ImageSizeNotAllowed();
      if |direct| != |IMAGE_SIZE_ONLY| || !(IMAGE_SIZE_ONLY <= direct) {
        verdict := ImageSizeChanged;
      } else {
        verdict := Passed;
      }
    }
  }

  lemma InheritedByElements(r: Report)
    ensures HasInheritedVia(r) <==> exists from, name ::
              from in r.via && Package(name) in r.via[from] && name !in r.via && name in INHERITED
  {
    hide INHERITED;
    if from, name :| from in r.via && Package(name) in r.via[from] && name !in r.via && name in INHERITED {
      assert InheritedVia(r, from, name);
    }
  }

  lemma SeedsAreMarks(r: Report)
    ensures MarksFor(r, Seeds(r))
  {}

  /** A package without edges is reached by its own seeds only. */
  lemma ReachedAlone(r: Report, n: string)
    requires r.via.Keys == {n}
    ensures Reached(r, Seeds(r)).urls[n] == UrlSeeds(r.via[n])
  {
    ReachesItself(r, n);
  }

  /** The report the image-size exception was made for, with exactly the two advisories it
      names, is refused all the same. */
  lemma ImageSizeRefused()
    ensures var r := ImageSizeReport();
            && r.Valid() && !HasInheritedVia(r) && !AllCompensated(r)
            && Reached(r, Seeds(r)).urls[IMAGE_SIZE] == IMAGE_SIZE_ONLY
  {
    hide Reached, Seeds, ALLOWED, Compensated;
    var r := ImageSizeReport();
    ReachedAlone(r, IMAGE_SIZE);
    ImageSizeSeeds();
    CompensatedByMarks(r, IMAGE_SIZE);
    ImageSizeNotAllowed();
    assert !Compensated(r, IMAGE_SIZE);
  }

  ghost function ImageSizeReport(): Report {
    Report([IMAGE_SIZE], map[IMAGE_SIZE := [
      Advisory("https://github.com/advisories/GHSA-w3rx-r6r6-pgpr"),
      Advisory("https://github.com/advisories/GHSA-5p2g-fcmc-qvqq")]])
  }

  lemma ImageSizeSeeds()
    ensures UrlSeeds(ImageSizeReport().via[IMAGE_SIZE]) == IMAGE_SIZE_ONLY
  {
    var via := ImageSizeReport().via[IMAGE_SIZE];
    assert "https://github.com/advisories/GHSA-w3rx-r6r6-pgpr" == ADVISORIES + "w3rx-r6r6-pgpr";
    assert "https://github.com/advisories/GHSA-5p2g-fcmc-qvqq" == ADVISORIES + "5p2g-fcmc-qvqq";
    assert via[0] in via && via[1] in via;
  }

  /** A dependency called constructor makes the script throw. */
  lemma ConstructorThrows()
    ensures var r := Report(["a"], map["a" := [Package("constructor")]]);
            r.Valid() && HasInheritedVia(r)
  {
    var r := Report(["a"], map["a" := [Package("constructor")]]);
    assert InheritedVia(r, "a", "constructor");
  }
}
