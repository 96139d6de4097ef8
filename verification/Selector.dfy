/** Choosing an endpoint: labels first, then round robin among the candidates. */
module Selector {
  import opened Options
  import opened Powers
  import opened Sets

  type Labels = map<string, string>

  datatype Endpoint = Endpoint(name: string, labels: Labels)

  datatype Match = Match(source: Labels, routes: seq<Labels>)

  datatype Service = Service(name: string, matches: seq<Match>)

  // ---- isSubset ----

  /** A Go map yields the empty string for a missing key. */
  function Value(m: Labels, k: string): string {
    if k in m then m[k] else ""
  }

  /** `isSubset`, as a function. */
  predicate PassesSubset(a: Labels, b: Labels) {
    |a| >= |b| && forall k :: k in b ==> Value(a, k) == b[k]
  }

  /** Every label of `b` is a label of `a`. */
  predicate Subset(a: Labels, b: Labels) {
    forall k :: k in b ==> k in a && a[k] == b[k]
  }

  /** `isSubset`. */
  method IsSubset(a: Labels, b: Labels) returns (r: bool)
    ensures r == PassesSubset(a, b)
    ensures r <==> |b| <= |a| && forall k :: k in b ==> (k in a && a[k] == b[k]) || (k !in a && b[k] == "")
  {
    if |a| < |b| {
      return false;
    }
    var pending := b.Keys;
    while pending != {}
      invariant pending <= b.Keys && forall k :: k in b && k !in pending ==> Value(a, k) == b[k]
      decreases pending
    {
      var k :| k in pending;
      if Value(a, k) != b[k] {
        return false;
      }
      pending := pending - {k};
    }
    return true;
  }

  lemma SubsetPasses(a: Labels, b: Labels)
    requires Subset(a, b)
    ensures PassesSubset(a, b)
  {
    SubsetNoLarger(b.Keys, a.Keys);
    assert |a| == |a.Keys| && |b| == |b.Keys|;
  }

  /** A string longer than every key is not a key. */
  lemma {:induction false} FreshKey(keys: set<string>) returns (k: string)
    ensures k !in keys && forall x :: x in keys ==> |x| < |k|
  {
    if x :| x in keys {
      k := FreshKey(keys - {x});
      k := if |x| < |k| then k else x + "x";
      assert keys == (keys - {x}) + {x};
    } else {
      k := "x";
    }
  }

  /** The check is a subset test exactly for selectors without empty values. */
  lemma SubsetIffNoEmptyValue(b: Labels)
    ensures (forall a: Labels :: PassesSubset(a, b) <==> Subset(a, b)) <==> forall k :: k in b ==> b[k] != ""
  {
    if forall k :: k in b ==> b[k] != "" {
      forall a: Labels ensures PassesSubset(a, b) <==> Subset(a, b) {
        if Subset(a, b) {
          SubsetPasses(a, b);
        }
      }
    } else {
      var k :| k in b && b[k] == "";
      var new' := FreshKey(b.Keys);
      var a := (b - {k})[new' := "x"];
      assert a.Keys == (b.Keys - {k}) + {new'};
      assert |a| == |a.Keys| && |b| == |b.Keys|;
      assert PassesSubset(a, b) && !Subset(a, b);
    }
  }

  /** An empty value lets through labels that lack the key. */
  lemma EmptyValuePasses()
    ensures PassesSubset(map["app" := "a"], map["zone" := ""]) && !Subset(map["app" := "a"], map["zone" := ""])
  {
  }

  // ---- round robin ----

  type Counters = map<string, nat>

  function Counter(c: Counters, service: string): nat {
    if service in c then c[service] else 0
  }

  /** The position that the next pick for `service` takes in a list of `n`. */
  function Position(c: Counters, service: string, n: nat): nat
    requires n > 0
  {
    Counter(c, service) % n
  }

  function Picked(c: Counters, service: string): Counters {
    c[service := Counter(c, service) + 1]
  }

  function PickFrom(c: Counters, service: string, endpoints: seq<Endpoint>): Option<Endpoint> {
    if endpoints == [] then None else Some(endpoints[Position(c, service, |endpoints|)])
  }

  class RoundRobin {
    var roundRobin: Counters

    constructor ()
      ensures roundRobin == map[]
    {
      roundRobin := map[];
    }

    method SelectEndpoint(service: string, endpoints: seq<Endpoint>) returns (e: Option<Endpoint>)
      modifies this
      ensures e == PickFrom(old(roundRobin), service, endpoints)
      ensures e.None? <==> endpoints == []
      ensures e.Some? ==> e.value == endpoints[Counter(old(roundRobin), service) % |endpoints|]
      ensures roundRobin == if e.Some? then Picked(old(roundRobin), service) else old(roundRobin)
    {
      if |endpoints| == 0 {
        return None;
      }
      var count := if service in roundRobin then roundRobin[service] else 0;
      var idx := count % |endpoints|;
      e := Some(endpoints[idx]);
      roundRobin := roundRobin[service := count + 1];
    }
  }

  /** The counters after picks for the listed services. */
  function After(c: Counters, picks: seq<string>): Counters {
    if picks == [] then c else Picked(After(c, picks[..|picks| - 1]), picks[|picks| - 1])
  }

  function Times(picks: seq<string>, service: string): nat {
    if picks == [] then 0
    else Times(picks[..|picks| - 1], service) + (if picks[|picks| - 1] == service then 1 else 0)
  }

  /** Picks for other services do not move a service's counter. */
  lemma {:induction false} CounterAfter(c: Counters, picks: seq<string>, service: string)
    ensures Counter(After(c, picks), service) == Counter(c, service) + Times(picks, service)
  {
    if picks != [] {
      CounterAfter(c, picks[..|picks| - 1], service);
    }
  }

  /**
   * Fairness: over any stretch in which a service is picked `n` times from a list of `n`, with any
   * picks for other services in between, every position is chosen by exactly one of its picks.
   */
  lemma EachPositionOnce(c: Counters, picks: seq<string>, service: string, n: nat, position: nat)
    requires n > 0 && position < n && Times(picks, service) == n
    ensures exists i: nat :: IsPick(c, picks, service, n, position, i)
    ensures forall i: nat, j: nat ::
              IsPick(c, picks, service, n, position, i) && IsPick(c, picks, service, n, position, j) ==> i == j
  {
    var start := Counter(c, service);
    var nth := (position - start) % n;
    var i := NthPick(picks, service, nth);
    PickPosition(c, picks, service, n, i);
    OffsetHits(start, n, position);
    assert IsPick(c, picks, service, n, position, i);
    forall x: nat, y: nat | IsPick(c, picks, service, n, position, x) && IsPick(c, picks, service, n, position, y)
      ensures x == y
    {
      PickPosition(c, picks, service, n, x);
      PickPosition(c, picks, service, n, y);
      TimesBefore(picks, service, x);
      TimesBefore(picks, service, y);
      SameOffset(start, Times(picks[..x], service), Times(picks[..y], service), n);
      if x < y {
        TimesStrict(picks, service, x, y);
      } else if y < x {
        TimesStrict(picks, service, y, x);
      }
    }
  }

  /** From the start, the picks for a service go through the list in order, again and again. */
  lemma PickOrder(picks: seq<string>, i: nat, endpoints: seq<Endpoint>)
    requires i < |picks| && endpoints != []
    ensures PickFrom(After(map[], picks[..i]), picks[i], endpoints) ==
            Some(endpoints[Times(picks[..i], picks[i]) % |endpoints|])
  {
    CounterAfter(map[], picks[..i], picks[i]);
  }

  /** Pick number `i` is for `service` and returns `e`. */
  predicate Returns(c: Counters, picks: seq<string>, service: string, endpoints: seq<Endpoint>, e: Endpoint, i: nat) {
    i < |picks| && picks[i] == service && PickFrom(After(c, picks[..i]), service, endpoints) == Some(e)
  }

  /**
   * Fairness of the answers: over any stretch in which a service is picked as often as there are
   * endpoints, with any picks for other services in between, every endpoint is returned, and by one
   * pick only unless the list has it twice.
   */
  lemma EachEndpointReturned(c: Counters, picks: seq<string>, service: string, endpoints: seq<Endpoint>, e: Endpoint)
    requires Times(picks, service) == |endpoints| && e in endpoints
    ensures exists i: nat :: Returns(c, picks, service, endpoints, e, i)
    ensures multiset(endpoints)[e] == 1 ==>
              forall i: nat, j: nat ::
                Returns(c, picks, service, endpoints, e, i) && Returns(c, picks, service, endpoints, e, j) ==> i == j
  {
    hide After, Times;
    var n := |endpoints|;
    var p :| 0 <= p < n && endpoints[p] == e;
    EachPositionOnce(c, picks, service, n, p);
    var i: nat :| IsPick(c, picks, service, n, p, i);
    assert Returns(c, picks, service, endpoints, e, i);
    if multiset(endpoints)[e] == 1 {
      forall x: nat, y: nat | Returns(c, picks, service, endpoints, e, x) && Returns(c, picks, service, endpoints, e, y)
        ensures x == y
      {
        OnePlace(endpoints, p, Position(After(c, picks[..x]), service, n));
        OnePlace(endpoints, p, Position(After(c, picks[..y]), service, n));
        assert IsPick(c, picks, service, n, p, x) && IsPick(c, picks, service, n, p, y);
      }
    }
  }

  lemma TwoPlaces(endpoints: seq<Endpoint>, p: nat, q: nat)
    requires p < q < |endpoints| && endpoints[p] == endpoints[q]
    ensures multiset(endpoints)[endpoints[p]] >= 2
  {
    assert endpoints == endpoints[..p] + [endpoints[p]] + endpoints[p + 1..q] + [endpoints[q]] + endpoints[q + 1..];
  }

  lemma OnePlace(endpoints: seq<Endpoint>, p: nat, q: nat)
    requires p < |endpoints| && q < |endpoints| && endpoints[p] == endpoints[q]
    requires multiset(endpoints)[endpoints[p]] == 1
    ensures p == q
  {
    if p < q {
      TwoPlaces(endpoints, p, q);
    } else if q < p {
      TwoPlaces(endpoints, q, p);
    }
  }

  /** Pick number `i` is for `service` and takes `position`. */
  predicate IsPick(c: Counters, picks: seq<string>, service: string, n: nat, position: nat, i: nat)
    requires n > 0
  {
    i < |picks| && picks[i] == service && Position(After(c, picks[..i]), service, n) == position
  }

  lemma PickPosition(c: Counters, picks: seq<string>, service: string, n: nat, i: nat)
    requires n > 0 && i <= |picks|
    ensures Position(After(c, picks[..i]), service, n) == (Counter(c, service) + Times(picks[..i], service)) % n
  {
    CounterAfter(c, picks[..i], service);
  }

  /** Where the pick number `nth` for a service is. */
  lemma {:induction false} NthPick(picks: seq<string>, service: string, nth: nat) returns (i: nat)
    requires nth < Times(picks, service)
    ensures i < |picks| && picks[i] == service && Times(picks[..i], service) == nth
  {
    var last := |picks| - 1;
    if nth < Times(picks[..last], service) {
      i := NthPick(picks[..last], service, nth);
      assert picks[..last][..i] == picks[..i];
    } else {
      i := last;
    }
  }

  lemma {:induction false} TimesGrow(picks: seq<string>, service: string, i: nat, j: nat)
    requires i <= j <= |picks|
    ensures Times(picks[..i], service) <= Times(picks[..j], service)
    decreases j
  {
    if i < j {
      TimesGrow(picks, service, i, j - 1);
      assert picks[..j][..j - 1] == picks[..j - 1];
    }
  }

  lemma TimesBefore(picks: seq<string>, service: string, i: nat)
    requires i < |picks| && picks[i] == service
    ensures Times(picks[..i], service) < Times(picks, service)
  {
    TimesStrict(picks, service, i, |picks|);
    assert picks[..|picks|] == picks;
  }

  lemma TimesStrict(picks: seq<string>, service: string, i: nat, j: nat)
    requires i < j <= |picks| && picks[i] == service
    ensures Times(picks[..i], service) < Times(picks[..j], service)
  {
    assert picks[..i + 1][..i] == picks[..i];
    TimesGrow(picks, service, i + 1, j);
  }

  lemma OffsetHits(start: nat, n: nat, position: nat)
    requires n > 0 && position < n
    ensures (start + (position - start) % n) % n == position
  {
    var d := position - start;
    var q := d / n;
    assert d == n * q + d % n;
    assert start + d % n == n * (-q) + position;
    DivModUnique(n, -q, position);
  }

  lemma SameOffset(start: nat, x: nat, y: nat, n: nat)
    requires n > 0 && x < n && y < n && (start + x) % n == (start + y) % n
    ensures x == y
  {
    var a, b := (start + x) / n, (start + y) / n;
    assert start + x == n * a + (start + x) % n;
    assert start + y == n * b + (start + y) % n;
    assert n * (a - b) == x - y;
    MultipleAwayFromZero(n, a - b);
  }

  // ---- matching ----

  /** The endpoints that a route selects, in order. */
  function Selected(endpoints: seq<Endpoint>, route: Labels): seq<Endpoint> {
    if endpoints == [] then []
    else
      var n := |endpoints| - 1;
      Selected(endpoints[..n], route) + (if PassesSubset(endpoints[n].labels, route) then [endpoints[n]] else [])
  }

  /** The candidates of a match: one entry for every route and endpoint that go together. */
  function Candidates(routes: seq<Labels>, endpoints: seq<Endpoint>): seq<Endpoint> {
    if routes == [] then []
    else Candidates(routes[..|routes| - 1], endpoints) + Selected(endpoints, routes[|routes| - 1])
  }

  predicate Applies(labels: Labels, m: Match, endpoints: seq<Endpoint>) {
    PassesSubset(labels, m.source) && Candidates(m.routes, endpoints) != []
  }

  lemma {:induction false} SelectedMembers(endpoints: seq<Endpoint>, route: Labels)
    ensures forall e :: e in Selected(endpoints, route) <==> e in endpoints && PassesSubset(e.labels, route)
  {
    if endpoints != [] {
      var n := |endpoints| - 1;
      SelectedMembers(endpoints[..n], route);
      assert endpoints == endpoints[..n] + [endpoints[n]];
    }
  }

  lemma {:induction false} CandidateMembers(routes: seq<Labels>, endpoints: seq<Endpoint>)
    ensures forall e :: e in Candidates(routes, endpoints) <==>
              e in endpoints && exists r :: r in routes && PassesSubset(e.labels, r)
  {
    if routes != [] {
      var n := |routes| - 1;
      CandidateMembers(routes[..n], endpoints);
      SelectedMembers(endpoints, routes[n]);
      assert routes == routes[..n] + [routes[n]];
    }
  }

  function PassingRoutes(routes: seq<Labels>, e: Endpoint): nat {
    if routes == [] then 0
    else PassingRoutes(routes[..|routes| - 1], e) + (if PassesSubset(e.labels, routes[|routes| - 1]) then 1 else 0)
  }

  lemma {:induction false} SelectedCount(endpoints: seq<Endpoint>, route: Labels, e: Endpoint)
    ensures multiset(Selected(endpoints, route))[e] ==
            if PassesSubset(e.labels, route) then multiset(endpoints)[e] else 0
  {
    hide PassesSubset, Selected;
    NoneSelected(route);
    if endpoints != [] {
      var n := |endpoints| - 1;
      var init, last := endpoints[..n], endpoints[n];
      SelectedCount(init, route, e);
      SelectedSnoc(init, last, route);
      CountSnoc(init, last, e);
      CountSnoc(Selected(init, route), last, e);
      assert endpoints == init + [last] && Selected(init, route) + [] == Selected(init, route);
    }
  }

  lemma CountSnoc(a: seq<Endpoint>, last: Endpoint, e: Endpoint)
    ensures multiset(a + [last])[e] == multiset(a)[e] + if last == e then 1 else 0
  {
  }

  /** An endpoint is a candidate once for every route that selects it. */
  lemma {:induction false} CandidateCount(routes: seq<Labels>, endpoints: seq<Endpoint>, e: Endpoint)
    ensures multiset(Candidates(routes, endpoints))[e] == PassingRoutes(routes, e) * multiset(endpoints)[e]
  {
    if routes != [] {
      CandidateCount(routes[..|routes| - 1], endpoints, e);
      CandidateCountStep(routes, endpoints, e);
    }
  }

  lemma CandidateCountStep(routes: seq<Labels>, endpoints: seq<Endpoint>, e: Endpoint)
    requires routes != []
    requires var init := routes[..|routes| - 1];
             multiset(Candidates(init, endpoints))[e] == PassingRoutes(init, e) * multiset(endpoints)[e]
    ensures multiset(Candidates(routes, endpoints))[e] == PassingRoutes(routes, e) * multiset(endpoints)[e]
  {
    hide PassesSubset, Selected;
    var n := |routes| - 1;
    var k, m := PassingRoutes(routes[..n], e), multiset(endpoints)[e];
    SelectedCount(endpoints, routes[n], e);
    OneMoreTime(k, m);
    assert multiset(Candidates(routes, endpoints))[e] == k * m + multiset(Selected(endpoints, routes[n]))[e];
    assert PassingRoutes(routes, e) == if PassesSubset(e.labels, routes[n]) then k + 1 else k;
  }

  lemma OneMoreTime(k: nat, m: nat)
    ensures (k + 1) * m == k * m + m
  {
  }

  /** Candidates keep the order of the endpoints. */
  lemma {:induction false} SelectedConcat(a: seq<Endpoint>, b: seq<Endpoint>, route: Labels)
    ensures Selected(a + b, route) == Selected(a, route) + Selected(b, route)
    decreases |b|
  {
    hide Selected;
    NoneSelected(route);
    if b == [] {
      assert a + b == a && Selected(a, route) + [] == Selected(a, route);
    } else {
      var n := |b| - 1;
      SelectedConcat(a, b[..n], route);
      assert b == b[..n] + [b[n]] && a + b == a + b[..n] + [b[n]];
      SelectedSnoc(b[..n], b[n], route);
      SelectedSnoc(a + b[..n], b[n], route);
    }
  }

  /** And the routes in turn. */
  lemma {:induction false} CandidatesConcat(r1: seq<Labels>, r2: seq<Labels>, endpoints: seq<Endpoint>)
    ensures Candidates(r1 + r2, endpoints) == Candidates(r1, endpoints) + Candidates(r2, endpoints)
    decreases |r2|
  {
    hide Candidates;
    NoCandidates(endpoints);
    if r2 == [] {
      assert r1 + r2 == r1 && Candidates(r1, endpoints) + [] == Candidates(r1, endpoints);
    } else {
      var n := |r2| - 1;
      CandidatesConcat(r1, r2[..n], endpoints);
      assert r2 == r2[..n] + [r2[n]] && r1 + r2 == r1 + r2[..n] + [r2[n]];
      CandidatesSnoc(r2[..n], r2[n], endpoints);
      CandidatesSnoc(r1 + r2[..n], r2[n], endpoints);
    }
  }

  lemma NoCandidates(endpoints: seq<Endpoint>)
    ensures Candidates([], endpoints) == []
  {
  }

  lemma CandidatesSnoc(routes: seq<Labels>, route: Labels, endpoints: seq<Endpoint>)
    ensures Candidates(routes + [route], endpoints) == Candidates(routes, endpoints) + Selected(endpoints, route)
  {
    assert (routes + [route])[..|routes|] == routes;
  }

  lemma NoneSelected(route: Labels)
    ensures Selected([], route) == []
  {
  }

  lemma SelectedSnoc(a: seq<Endpoint>, e: Endpoint, route: Labels)
    ensures Selected(a + [e], route) == Selected(a, route) + if PassesSubset(e.labels, route) then [e] else []
  {
    assert (a + [e])[..|a|] == a;
  }

  /** `e` is an endpoint that a route of the first applicable match selects. */
  ghost predicate SoundChoice(labels: Labels, matches: seq<Match>, endpoints: seq<Endpoint>, e: Endpoint) {
    exists i ::
      && 0 <= i < |matches|
      && PassesSubset(labels, matches[i].source)
      && (forall j :: 0 <= j < i ==> !Applies(labels, matches[j], endpoints))
      && e in endpoints
      && exists r :: r in matches[i].routes && PassesSubset(e.labels, r)
  }

  /** The candidates of the first match that applies. */
  function Chosen(labels: Labels, matches: seq<Match>, endpoints: seq<Endpoint>): seq<Endpoint> {
    if matches == [] then []
    else if Applies(labels, matches[0], endpoints) then Candidates(matches[0].routes, endpoints)
    else Chosen(labels, matches[1..], endpoints)
  }

  /** What is chosen from is all the candidates of the first match that applies. */
  lemma {:induction false} ChosenFromFirst(labels: Labels, matches: seq<Match>, endpoints: seq<Endpoint>, i: nat)
    requires i < |matches| && Applies(labels, matches[i], endpoints)
    requires forall j :: 0 <= j < i ==> !Applies(labels, matches[j], endpoints)
    ensures Chosen(labels, matches, endpoints) == Candidates(matches[i].routes, endpoints)
  {
    if i > 0 {
      ChosenFromFirst(labels, matches[1..], endpoints, i - 1);
    }
  }

  /** The list the selector goes round. */
  function Pool(labels: Labels, service: Service, endpoints: seq<Endpoint>): seq<Endpoint> {
    if service.matches == [] then endpoints else Chosen(labels, service.matches, endpoints)
  }

  /** What the selector answers. */
  function Choice(c: Counters, labels: Labels, service: Service, endpoints: seq<Endpoint>): Option<Endpoint> {
    PickFrom(c, service.name, Pool(labels, service, endpoints))
  }

  lemma {:induction false} ChosenIff(labels: Labels, matches: seq<Match>, endpoints: seq<Endpoint>)
    ensures Chosen(labels, matches, endpoints) != [] <==> exists m :: m in matches && Applies(labels, m, endpoints)
  {
    if matches != [] {
      ChosenIff(labels, matches[1..], endpoints);
      assert matches == [matches[0]] + matches[1..];
    }
  }

  /** Endpoints on offer are all turned down exactly when there are matches and none applies. */
  lemma ChoiceIff(c: Counters, labels: Labels, service: Service, endpoints: seq<Endpoint>)
    requires endpoints != []
    ensures Choice(c, labels, service, endpoints).None? <==>
            service.matches != [] && forall m :: m in service.matches ==> !Applies(labels, m, endpoints)
  {
    ChosenIff(labels, service.matches, endpoints);
  }

  /** A match that applies to any endpoint at all. */
  predicate CatchAll(labels: Labels, m: Match) {
    PassesSubset(labels, m.source) && map[] in m.routes
  }

  lemma BareEndpoint(labels: Labels, m: Match, e: Endpoint)
    ensures CatchAll(labels, m) ==> Applies(labels, m, [e])
    ensures e.labels == map[] && Applies(labels, m, [e]) ==> CatchAll(labels, m)
  {
    CandidateMembers(m.routes, [e]);
    if CatchAll(labels, m) {
      var r: Labels := map[];
      assert r in m.routes && PassesSubset(e.labels, r);
      assert e in [e];
      assert e in Candidates(m.routes, [e]);
    }
    if e.labels == map[] && Applies(labels, m, [e]) {
      assert Candidates(m.routes, [e])[0] in Candidates(m.routes, [e]);
      var r :| r in m.routes && PassesSubset(e.labels, r);
      assert r.Keys == {};
      assert r == map[];
    }
  }

  lemma CatchAllApplies(labels: Labels, m: Match, endpoints: seq<Endpoint>)
    requires CatchAll(labels, m) && endpoints != []
    ensures Applies(labels, m, endpoints)
  {
    var r: Labels := map[];
    CandidateMembers(m.routes, endpoints);
    assert r in m.routes && PassesSubset(endpoints[0].labels, r);
    assert endpoints[0] in Candidates(m.routes, endpoints);
  }

  /**
   * The selector answers for every non-empty list of endpoints exactly when the service has no
   * matches or one of those open to the client takes endpoints without any label.
   */
  lemma AlwaysChoosesIff(labels: Labels, service: Service)
    ensures (forall c: Counters, endpoints: seq<Endpoint> ::
               endpoints != [] ==> Choice(c, labels, service, endpoints).Some?) <==>
            service.matches == [] || exists m :: m in service.matches && CatchAll(labels, m)
  {
    var bare := Endpoint("bare", map[]);
    if service.matches == [] || exists m :: m in service.matches && CatchAll(labels, m) {
      forall c: Counters, endpoints: seq<Endpoint> | endpoints != []
        ensures Choice(c, labels, service, endpoints).Some?
      {
        ChoiceIff(c, labels, service, endpoints);
        if service.matches != [] {
          var m :| m in service.matches && CatchAll(labels, m);
          CatchAllApplies(labels, m, endpoints);
        }
      }
    } else {
      ChoiceIff(map[], labels, service, [bare]);
      forall m | m in service.matches ensures !Applies(labels, m, [bare]) {
        BareEndpoint(labels, m, bare);
      }
      assert Choice(map[], labels, service, [bare]).None?;
    }
  }

  /** The endpoints among which the selector goes round. */
  ghost predicate Eligible(labels: Labels, service: Service, endpoints: seq<Endpoint>, e: Endpoint) {
    if service.matches == [] then e in endpoints else SoundChoice(labels, service.matches, endpoints, e)
  }

  lemma PoolIsEligible(labels: Labels, service: Service, endpoints: seq<Endpoint>, e: Endpoint)
    ensures Eligible(labels, service, endpoints, e) <==> e in Pool(labels, service, endpoints)
  {
    hide PassesSubset;
    var matches := service.matches;
    if matches != [] {
      ChosenIff(labels, matches, endpoints);
      if SoundChoice(labels, matches, endpoints, e) {
        var i :| && 0 <= i < |matches| && PassesSubset(labels, matches[i].source)
                 && (forall j :: 0 <= j < i ==> !Applies(labels, matches[j], endpoints))
                 && e in endpoints && exists r :: r in matches[i].routes && PassesSubset(e.labels, r);
        CandidateMembers(matches[i].routes, endpoints);
        assert e in Candidates(matches[i].routes, endpoints);
        ChosenFromFirst(labels, matches, endpoints, i);
      }
      if e in Pool(labels, service, endpoints) {
        var i := FirstApplies(labels, matches, endpoints);
        CandidateMembers(matches[i].routes, endpoints);
        ChosenFromFirst(labels, matches, endpoints, i);
      }
    }
  }

  lemma {:induction false} FirstApplies(labels: Labels, matches: seq<Match>, endpoints: seq<Endpoint>) returns (i: nat)
    requires exists m :: m in matches && Applies(labels, m, endpoints)
    ensures i < |matches| && Applies(labels, matches[i], endpoints)
    ensures forall j :: 0 <= j < i ==> !Applies(labels, matches[j], endpoints)
  {
    hide Applies;
    if Applies(labels, matches[0], endpoints) {
      i := 0;
    } else {
      assert matches == [matches[0]] + matches[1..];
      i := FirstApplies(labels, matches[1..], endpoints);
      i := i + 1;
    }
  }

  /**
   * The selector only answers with eligible endpoints, and over as many picks for the service as it
   * has entries to go round, it answers with every one of them.
   */
  lemma SelectorIsFair(c: Counters, picks: seq<string>, labels: Labels, service: Service, endpoints: seq<Endpoint>,
                       e: Endpoint)
    ensures Choice(c, labels, service, endpoints) == Some(e) ==> Eligible(labels, service, endpoints, e)
    ensures Eligible(labels, service, endpoints, e) ==>
              Times(picks, service.name) == |Pool(labels, service, endpoints)| ==>
              exists i: nat :: && i < |picks| && picks[i] == service.name
                               && Choice(After(c, picks[..i]), labels, service, endpoints) == Some(e)
  {
    hide Eligible, After, Times;
    PoolIsEligible(labels, service, endpoints, e);
    var pool := Pool(labels, service, endpoints);
    if e in pool && Times(picks, service.name) == |pool| {
      EachEndpointReturned(c, picks, service.name, pool, e);
      var i: nat :| Returns(c, picks, service.name, pool, e, i);
      assert Choice(After(c, picks[..i]), labels, service, endpoints) == Some(e);
    }
  }

  // ---- with real subsets ----

  predicate NoEmptyValues(m: Match) {
    && (forall k :: k in m.source ==> m.source[k] != "")
    && (forall r, k :: r in m.routes && k in r ==> r[k] != "")
  }

  /** The client and some endpoint carry all the labels the match asks for. */
  ghost predicate Fitting(labels: Labels, m: Match, endpoints: seq<Endpoint>) {
    Subset(labels, m.source) && exists e, r :: e in endpoints && r in m.routes && Subset(e.labels, r)
  }

  /** `e` carries the labels of a route of the first fitting match. */
  ghost predicate RightChoice(labels: Labels, matches: seq<Match>, endpoints: seq<Endpoint>, e: Endpoint) {
    exists i ::
      && 0 <= i < |matches|
      && Subset(labels, matches[i].source)
      && (forall j :: 0 <= j < i ==> !Fitting(labels, matches[j], endpoints))
      && e in endpoints
      && exists r :: r in matches[i].routes && Subset(e.labels, r)
  }

  lemma PassesIffSubset(labels: Labels, m: Match, e: Endpoint)
    requires NoEmptyValues(m)
    ensures PassesSubset(labels, m.source) <==> Subset(labels, m.source)
    ensures (exists r :: r in m.routes && PassesSubset(e.labels, r)) <==>
            exists r :: r in m.routes && Subset(e.labels, r)
  {
    SubsetIffNoEmptyValue(m.source);
    forall r | r in m.routes ensures PassesSubset(e.labels, r) <==> Subset(e.labels, r) {
      SubsetIffNoEmptyValue(r);
    }
  }

  lemma AppliesIffFitting(labels: Labels, m: Match, endpoints: seq<Endpoint>)
    requires NoEmptyValues(m)
    ensures Applies(labels, m, endpoints) <==> Fitting(labels, m, endpoints)
  {
    hide NoEmptyValues, PassesSubset, Subset;
    CandidateMembers(m.routes, endpoints);
    PassesIffSubset(labels, m, Endpoint("", map[]));
    forall e | e in endpoints
      ensures e in Candidates(m.routes, endpoints) <==> exists r :: r in m.routes && Subset(e.labels, r)
    {
      PassesIffSubset(labels, m, e);
    }
    if Candidates(m.routes, endpoints) != [] {
      var e := Candidates(m.routes, endpoints)[0];
      assert e in Candidates(m.routes, endpoints);
    }
  }

  /** Without empty values in its selectors, what the selector takes is right in terms of real subsets. */
  lemma SoundIsRight(labels: Labels, matches: seq<Match>, endpoints: seq<Endpoint>, e: Endpoint)
    requires forall m :: m in matches ==> NoEmptyValues(m)
    ensures SoundChoice(labels, matches, endpoints, e) <==> RightChoice(labels, matches, endpoints, e)
  {
    hide NoEmptyValues, PassesSubset, Subset, Applies, Fitting;
    forall i | 0 <= i < |matches|
      ensures PassesSubset(labels, matches[i].source) <==> Subset(labels, matches[i].source)
      ensures (exists r :: r in matches[i].routes && PassesSubset(e.labels, r)) <==>
              exists r :: r in matches[i].routes && Subset(e.labels, r)
      ensures Applies(labels, matches[i], endpoints) <==> Fitting(labels, matches[i], endpoints)
    {
      PassesIffSubset(labels, matches[i], e);
      AppliesIffFitting(labels, matches[i], endpoints);
    }
  }

  class MatchSelector {
    const roundRobin: RoundRobin

    constructor ()
      ensures fresh(roundRobin) && roundRobin.roundRobin == map[]
    {
      roundRobin := new RoundRobin();
    }

    /** The two inner loops of `matchEndpoint`. */
    method CollectCandidates(routes: seq<Labels>, endpoints: seq<Endpoint>) returns (candidates: seq<Endpoint>)
      ensures candidates == Candidates(routes, endpoints)
    {
      candidates := [];
      for d := 0 to |routes|
        invariant candidates == Candidates(routes[..d], endpoints)
      {
        assert routes[..d + 1][..d] == routes[..d];
        ghost var before := candidates;
        for n := 0 to |endpoints|
          invariant candidates == before + Selected(endpoints[..n], routes[d])
        {
          assert endpoints[..n + 1][..n] == endpoints[..n];
          var passes := IsSubset(endpoints[n].labels, routes[d]);
          if passes {
            candidates := candidates + [endpoints[n]];
          }
        }
        assert endpoints[..|endpoints|] == endpoints;
      }
      assert routes[..|routes|] == routes;
    }

    /** `matchEndpoint`: none exactly when no match applies, else a sound choice. */
    method MatchEndpoint(labels: Labels, service: Service, endpoints: seq<Endpoint>) returns (e: Option<Endpoint>)
      modifies roundRobin
      ensures e == PickFrom(old(roundRobin.roundRobin), service.name, Chosen(labels, service.matches, endpoints))
      ensures e.None? <==> forall i :: 0 <= i < |service.matches| ==> !Applies(labels, service.matches[i], endpoints)
      ensures e.Some? ==> SoundChoice(labels, service.matches, endpoints, e.value)
      ensures roundRobin.roundRobin ==
              if e.Some? then Picked(old(roundRobin.roundRobin), service.name) else old(roundRobin.roundRobin)
    {
      assert service.matches[0..] == service.matches;
      for i := 0 to |service.matches|
        invariant Chosen(labels, service.matches, endpoints) == Chosen(labels, service.matches[i..], endpoints)
        invariant roundRobin.roundRobin == old(roundRobin.roundRobin)
        invariant forall j :: 0 <= j < i ==> !Applies(labels, service.matches[j], endpoints)
      {
        var m := service.matches[i];
        assert service.matches[i..][1..] == service.matches[i + 1..];
        var passes := IsSubset(labels, m.source);
        if passes {
          var candidates := CollectCandidates(m.routes, endpoints);
          if |candidates| > 0 {
            e := roundRobin.SelectEndpoint(service.name, candidates);
            assert e.value in candidates;
            CandidateMembers(m.routes, endpoints);
            assert Applies(labels, service.matches[i], endpoints);
            return;
          }
        }
      }
      e := None;
    }

    /** `SelectEndpoint`: a service without matches is served round robin from all endpoints. */
    method SelectEndpoint(labels: Labels, service: Service, endpoints: seq<Endpoint>) returns (e: Option<Endpoint>)
      modifies roundRobin
      ensures e == Choice(old(roundRobin.roundRobin), labels, service, endpoints)
      ensures service.matches != [] ==>
                && (e.None? <==>
                      forall i :: 0 <= i < |service.matches| ==> !Applies(labels, service.matches[i], endpoints))
                && (e.Some? ==> SoundChoice(labels, service.matches, endpoints, e.value))
      ensures roundRobin.roundRobin ==
              if e.Some? then Picked(old(roundRobin.roundRobin), service.name) else old(roundRobin.roundRobin)
    {
      if |service.matches| == 0 {
        e := roundRobin.SelectEndpoint(service.name, endpoints);
        return;
      }
      e := MatchEndpoint(labels, service, endpoints);
    }
  }
}
