/**
 * `findConnectNSE`: ask endpoints one after the other until one accepts.
 *
 * The registry, the selector and the endpoints are answers that may differ from one round of the
 * loop to the next.
 */
module EndpointSearch {
  import opened Options
  import opened Selector

  datatype Lookup = Unavailable | Found(endpoints: seq<Endpoint>)

  /** How an endpoint is looked for: by its name in the local model, or by network service. */
  datatype Query =
    | ByName(find: nat -> Option<Endpoint>)
    | ByService(lookup: nat -> Lookup, select: (nat, seq<Endpoint>) -> Option<Endpoint>)

  datatype Got = Got(endpoint: Endpoint) | NoneLeft | NilEndpoint

  datatype SearchResult = Connected(endpoint: Endpoint) | NotFound | NilAsked

  /** `filterEndpoints`, as a function. */
  function Filter(endpoints: seq<Endpoint>, ignored: set<string>): seq<Endpoint> {
    if endpoints == [] then []
    else
      var init, last := endpoints[..|endpoints| - 1], endpoints[|endpoints| - 1];
      Filter(init, ignored) + (if last.name in ignored then [] else [last])
  }

  lemma {:induction false} FilterMembers(endpoints: seq<Endpoint>, ignored: set<string>)
    ensures forall e :: e in Filter(endpoints, ignored) <==> e in endpoints && e.name !in ignored
  {
    if endpoints != [] {
      FilterMembers(endpoints[..|endpoints| - 1], ignored);
      assert endpoints == endpoints[..|endpoints| - 1] + [endpoints[|endpoints| - 1]];
    }
  }

  /** What is left keeps its order. */
  lemma {:induction false} FilterConcat(a: seq<Endpoint>, b: seq<Endpoint>, ignored: set<string>)
    ensures Filter(a + b, ignored) == Filter(a, ignored) + Filter(b, ignored)
    decreases |b|
  {
    hide Filter;
    NoneFiltered(ignored);
    if b == [] {
      assert a + b == a && Filter(a, ignored) + [] == Filter(a, ignored);
    } else {
      var n := |b| - 1;
      FilterConcat(a, b[..n], ignored);
      assert b == b[..n] + [b[n]] && a + b == a + b[..n] + [b[n]];
      FilterSnoc(b[..n], b[n], ignored);
      FilterSnoc(a + b[..n], b[n], ignored);
    }
  }

  lemma NoneFiltered(ignored: set<string>)
    ensures Filter([], ignored) == []
  {
  }

  lemma FilterSnoc(a: seq<Endpoint>, e: Endpoint, ignored: set<string>)
    ensures Filter(a + [e], ignored) == Filter(a, ignored) + if e.name in ignored then [] else [e]
  {
    assert (a + [e])[..|a|] == a;
  }

  /** `filterEndpoints`. */
  method FilterEndpoints(endpoints: seq<Endpoint>, ignored: set<string>) returns (result: seq<Endpoint>)
    ensures result == Filter(endpoints, ignored)
  {
    result := [];
    for i := 0 to |endpoints|
      invariant result == Filter(endpoints[..i], ignored)
    {
      assert endpoints[..i + 1][..i] == endpoints[..i];
      if endpoints[i].name !in ignored {
        result := result + [endpoints[i]];
      }
    }
    assert endpoints[..|endpoints|] == endpoints;
  }

  /** `getEndpoint`: a selector that finds nothing yields no endpoint and no error. */
  function Candidate(q: Query, round: nat, ignored: set<string>): Got {
    match q
    case ByName(find) =>
      (match find(round)
       case None => NoneLeft
       case Some(e) => if e.name in ignored then NoneLeft else Got.Got(e))
    case ByService(lookup, select) =>
      (match lookup(round)
       case Unavailable => NoneLeft
       case Found(endpoints) =>
         var candidates := Filter(endpoints, ignored);
         if candidates == [] then NoneLeft
         else match select(round, candidates)
              case None => NilEndpoint
              case Some(e) => Got.Got(e))
  }

  /** `getEndpoint`. */
  method GetEndpoint(q: Query, round: nat, ignored: set<string>) returns (g: Got)
    ensures g == Candidate(q, round, ignored)
    ensures q.ByName? ==>
              (g.Got? <==> q.find(round).Some? && q.find(round).value.name !in ignored)
    ensures q.ByName? ==> !g.NilEndpoint? && (g.Got? ==> Some(g.endpoint) == q.find(round))
    ensures q.ByService? ==>
              (g.NoneLeft? <==>
                 q.lookup(round).Unavailable? || forall e :: e in q.lookup(round).endpoints ==> e.name in ignored)
    ensures q.ByService? && !g.NoneLeft? ==>
              q.select(round, Filter(q.lookup(round).endpoints, ignored)) == if g.Got? then Some(g.endpoint) else None
  {
    if q.ByService? && q.lookup(round).Found? {
      FilterMembers(q.lookup(round).endpoints, ignored);
      var left := Filter(q.lookup(round).endpoints, ignored);
      assert left != [] ==> left[0] in left;
    }
    match q
    case ByName(find) =>
      var e := find(round);
      if e.Some? && e.value.name !in ignored {
        return Got.Got(e.value);
      }
      return NoneLeft;
    case ByService(lookup, select) =>
      var response := lookup(round);
      if response.Unavailable? {
        return NoneLeft;
      }
      var candidates := FilterEndpoints(response.endpoints, ignored);
      if |candidates| == 0 {
        return NoneLeft;
      }
      var e := select(round, candidates);
      if e.None? {
        return NilEndpoint;
      }
      return Got.Got(e.value);
  }

  /** Selectors choose among the candidates they are given. */
  ghost predicate Honest(q: Query) {
    q.ByService? ==>
      forall round: nat, c: seq<Endpoint> :: q.select(round, c).Some? ==> q.select(round, c).value in c
  }

  /** All endpoint names ever offered come from `names`. */
  ghost predicate NamesFrom(q: Query, names: set<string>) {
    match q
    case ByName(find) => forall round: nat :: find(round).Some? ==> find(round).value.name in names
    case ByService(lookup, _) =>
      forall round: nat :: lookup(round).Found? ==> forall e :: e in lookup(round).endpoints ==> e.name in names
  }

  function Names(asked: seq<Endpoint>): set<string> {
    set e | e in asked :: e.name
  }

  predicate DistinctNames(asked: seq<Endpoint>) {
    forall i, j :: 0 <= i < j < |asked| ==> asked[i].name != asked[j].name
  }

  lemma CandidateIsNew(q: Query, round: nat, ignored: set<string>, names: set<string>)
    requires Honest(q) && NamesFrom(q, names) && Candidate(q, round, ignored).Got?
    ensures var e := Candidate(q, round, ignored).endpoint; e.name in names && e.name !in ignored
  {
    if q.ByService? {
      FilterMembers(q.lookup(round).endpoints, ignored);
    }
  }

  // ---- the search ----

  /** Whom the loop turns to after `asked` have all refused: the connection's old endpoint first. */
  function NextToAsk(existing: Option<Endpoint>, q: Query, asked: seq<Endpoint>): Got {
    if existing.Some? && existing.value.name !in Names(asked) then Got.Got(existing.value)
    else Candidate(q, |asked|, Names(asked))
  }

  /** Everyone asked is whom the registry and the selector called for at that point. */
  ghost predicate Trace(existing: Option<Endpoint>, q: Query, asked: seq<Endpoint>) {
    forall k :: 0 <= k < |asked| ==> NextToAsk(existing, q, asked[..k]) == Got.Got(asked[k])
  }

  ghost predicate Bounded(existing: Option<Endpoint>, q: Query, names: set<string>) {
    Honest(q) && NamesFrom(q, names) && (existing.Some? ==> existing.value.name in names)
  }

  lemma NextIsNew(existing: Option<Endpoint>, q: Query, asked: seq<Endpoint>, names: set<string>)
    requires Bounded(existing, q, names) && NextToAsk(existing, q, asked).Got?
    ensures var e := NextToAsk(existing, q, asked).endpoint;
            && e.name in names && e.name !in Names(asked)
            && Names(asked + [e]) == Names(asked) + {e.name}
            && |names - Names(asked + [e])| < |names - Names(asked)|
  {
    hide Honest, NamesFrom, Candidate;
    var e := NextToAsk(existing, q, asked).endpoint;
    if !(existing.Some? && existing.value.name !in Names(asked)) {
      CandidateIsNew(q, |asked|, Names(asked), names);
    }
    NamesSnoc(asked, e);
    assert names - Names(asked) == (names - Names(asked + [e])) + {e.name};
  }

  lemma NamesSnoc(asked: seq<Endpoint>, e: Endpoint)
    ensures Names(asked + [e]) == Names(asked) + {e.name}
  {
    assert forall x :: x in asked + [e] <==> x in asked || x == e;
  }

  /** The result of the loop and everyone it asked, from the point where `asked` have refused. */
  ghost function Search(existing: Option<Endpoint>, q: Query, accepts: (nat, Endpoint) -> bool, names: set<string>,
                        asked: seq<Endpoint>): (SearchResult, seq<Endpoint>)
    requires Bounded(existing, q, names)
    decreases |names - Names(asked)|
  {
    match NextToAsk(existing, q, asked)
    case NoneLeft => (NotFound, asked)
    case NilEndpoint => (NilAsked, asked)
    case Got(e) =>
      NextIsNew(existing, q, asked, names);
      if accepts(|asked|, e) then (Connected(e), asked + [e])
      else Search(existing, q, accepts, names, asked + [e])
  }

  /** Who was asked was called for, once; only the last one asked may have accepted. */
  ghost predicate Explains(existing: Option<Endpoint>, q: Query, accepts: (nat, Endpoint) -> bool,
                           r: SearchResult, asked: seq<Endpoint>) {
    && Trace(existing, q, asked)
    && (forall k :: 0 <= k < |asked| ==> (accepts(k, asked[k]) <==> r.Connected? && k == |asked| - 1))
    && (r.Connected? ==> asked != [] && asked[|asked| - 1] == r.endpoint)
    && (r.NilAsked? ==> NextToAsk(existing, q, asked).NilEndpoint?)
    && (r.NotFound? ==> NextToAsk(existing, q, asked).NoneLeft?)
  }

  lemma NoneAsked(existing: Option<Endpoint>, q: Query)
    ensures Names([]) == {} && Trace(existing, q, []) && DistinctNames([])
  {
  }

  lemma TraceSnoc(existing: Option<Endpoint>, q: Query, asked: seq<Endpoint>, e: Endpoint)
    requires Trace(existing, q, asked) && NextToAsk(existing, q, asked) == Got.Got(e)
    ensures Trace(existing, q, asked + [e])
  {
    hide NextToAsk;
    forall k | 0 <= k < |asked + [e]|
      ensures NextToAsk(existing, q, (asked + [e])[..k]) == Got.Got((asked + [e])[k])
    {
      if k < |asked| {
        assert (asked + [e])[..k] == asked[..k];
      } else {
        assert (asked + [e])[..k] == asked;
      }
    }
  }

  lemma TracePrefix(existing: Option<Endpoint>, q: Query, asked: seq<Endpoint>, n: nat)
    requires Trace(existing, q, asked) && n <= |asked|
    ensures Trace(existing, q, asked[..n])
    ensures n < |asked| ==> NextToAsk(existing, q, asked[..n]) == Got.Got(asked[n])
  {
    hide NextToAsk;
    forall k | 0 <= k < n ensures NextToAsk(existing, q, asked[..n][..k]) == Got.Got(asked[..n][k]) {
      assert asked[..n][..k] == asked[..k];
    }
  }

  lemma DistinctSnoc(asked: seq<Endpoint>, e: Endpoint)
    requires DistinctNames(asked) && e.name !in Names(asked)
    ensures DistinctNames(asked + [e])
  {
    forall i | 0 <= i < |asked| ensures asked[i].name != e.name {
      assert asked[i] in asked;
    }
  }

  /** No name is asked twice; of endpoints that share a name the source asks one. */
  lemma {:induction false} TraceAsksOnce(existing: Option<Endpoint>, q: Query, asked: seq<Endpoint>, names: set<string>)
    requires Bounded(existing, q, names) && Trace(existing, q, asked)
    ensures DistinctNames(asked) && Names(asked) <= names
    decreases |asked|
  {
    hide *;
    NoneAsked(existing, q);
    if asked != [] {
      var n := |asked| - 1;
      var init, last := asked[..n], asked[n];
      TracePrefix(existing, q, asked, n);
      TraceAsksOnce(existing, q, init, names);
      NextIsNew(existing, q, init, names);
      DistinctSnoc(init, last);
      assert asked == init + [last];
    }
  }

  /**
   * `findConnectNSE`. It computes the search: the loop ends if endpoint names come from a finite set,
   * everyone asked was called for by the registry and the selector, and only the last may accept.
   */
  method FindConnectNSE(existing: Option<Endpoint>, q: Query, accepts: (nat, Endpoint) -> bool,
                        ghost names: set<string>)
    returns (r: SearchResult, asked: seq<Endpoint>)
    requires Bounded(existing, q, names)
    ensures (r, asked) == Search(existing, q, accepts, names, [])
    ensures Explains(existing, q, accepts, r, asked)
    ensures DistinctNames(asked) && Names(asked) <= names
    ensures existing.Some? ==>
              && asked != [] && asked[0] == existing.value
              && (accepts(0, existing.value) ==> r == Connected(existing.value) && asked == [existing.value])
  {
    hide *;
    var ignored: set<string> := {};
    asked := [];
    NoneAsked(existing, q);
    while true
      invariant ignored == Names(asked)
      invariant Trace(existing, q, asked)
      invariant forall k :: 0 <= k < |asked| ==> !accepts(k, asked[k])
      invariant Search(existing, q, accepts, names, []) == Search(existing, q, accepts, names, asked)
      decreases |names - ignored|
    {
      SearchStep(existing, q, accepts, names, asked);
      var endpoint: Endpoint;
      if existing.Some? && existing.value.name !in ignored {
        endpoint := existing.value;
      } else {
        var g := GetEndpoint(q, |asked|, ignored);
        if !g.Got? {
          r := if g.NilEndpoint? then NilAsked else NotFound;
          GivenUp(existing, q, accepts, names, r, asked);
          OldFirst(existing, q, accepts, r, asked);
          return;
        }
        endpoint := g.endpoint;
      }
      if accepts(|asked|, endpoint) {
        r := Connected(endpoint);
        Accepted(existing, q, accepts, names, endpoint, asked);
        asked := asked + [endpoint];
        OldFirst(existing, q, accepts, r, asked);
        return;
      }
      NextIsNew(existing, q, asked, names);
      TraceSnoc(existing, q, asked, endpoint);
      asked := asked + [endpoint];
      ignored := ignored + {endpoint.name};
    }
  }

  lemma GivenUp(existing: Option<Endpoint>, q: Query, accepts: (nat, Endpoint) -> bool, names: set<string>,
                r: SearchResult, asked: seq<Endpoint>)
    requires Bounded(existing, q, names) && Trace(existing, q, asked)
    requires forall k :: 0 <= k < |asked| ==> !accepts(k, asked[k])
    requires !NextToAsk(existing, q, asked).Got?
    requires r == if NextToAsk(existing, q, asked).NilEndpoint? then NilAsked else NotFound
    ensures Explains(existing, q, accepts, r, asked) && DistinctNames(asked) && Names(asked) <= names
  {
    hide Bounded, Trace, NextToAsk, Names, DistinctNames;
    TraceAsksOnce(existing, q, asked, names);
  }

  lemma Accepted(existing: Option<Endpoint>, q: Query, accepts: (nat, Endpoint) -> bool, names: set<string>,
                 e: Endpoint, asked: seq<Endpoint>)
    requires Bounded(existing, q, names) && Trace(existing, q, asked)
    requires forall k :: 0 <= k < |asked| ==> !accepts(k, asked[k])
    requires NextToAsk(existing, q, asked) == Got.Got(e) && accepts(|asked|, e)
    ensures Explains(existing, q, accepts, Connected(e), asked + [e])
    ensures DistinctNames(asked + [e]) && Names(asked + [e]) <= names
  {
    hide Bounded, Trace, NextToAsk, Names, DistinctNames;
    TraceSnoc(existing, q, asked, e);
    TraceAsksOnce(existing, q, asked + [e], names);
  }

  lemma SearchStep(existing: Option<Endpoint>, q: Query, accepts: (nat, Endpoint) -> bool, names: set<string>,
                   asked: seq<Endpoint>)
    requires Bounded(existing, q, names)
    ensures Search(existing, q, accepts, names, asked) ==
            match NextToAsk(existing, q, asked)
            case NoneLeft => (NotFound, asked)
            case NilEndpoint => (NilAsked, asked)
            case Got(e) =>
              if accepts(|asked|, e) then (Connected(e), asked + [e])
              else Search(existing, q, accepts, names, asked + [e])
    ensures NextToAsk(existing, q, asked) ==
            if existing.Some? && existing.value.name !in Names(asked) then Got.Got(existing.value)
            else Candidate(q, |asked|, Names(asked))
  {
  }

  /** The old endpoint of the connection is asked first, and nobody else if it accepts. */
  lemma OldFirst(existing: Option<Endpoint>, q: Query, accepts: (nat, Endpoint) -> bool, r: SearchResult,
                 asked: seq<Endpoint>)
    requires Explains(existing, q, accepts, r, asked)
    ensures existing.Some? ==>
              && asked != [] && asked[0] == existing.value
              && (accepts(0, existing.value) ==> r == Connected(existing.value) && asked == [existing.value])
  {
    hide Candidate;
    if existing.Some? {
      NoneAsked(existing, q);
      assert NextToAsk(existing, q, []) == Got.Got(existing.value);
      assert asked[..0] == [];
    }
  }

  // ---- an endpoint asked for by name ----

  /** The local model knows the endpoint that the request names: it is asked, after the old one if that is another. */
  lemma NamedSearch(existing: Option<Endpoint>, find: nat -> Option<Endpoint>, e: Endpoint,
                    accepts: (nat, Endpoint) -> bool, names: set<string>)
    requires Bounded(existing, ByName(find), names) && forall round: nat :: find(round) == Some(e)
    ensures existing.None? ==>
              Search(existing, ByName(find), accepts, names, []) ==
              (if accepts(0, e) then Connected(e) else NotFound, [e])
    ensures existing.Some? ==>
              var x := existing.value;
              Search(existing, ByName(find), accepts, names, []) ==
              if accepts(0, x) then (Connected(x), [x])
              else if x.name == e.name then (NotFound, [x])
              else (if accepts(1, e) then Connected(e) else NotFound, [x, e])
  {
    hide Search, NextToAsk, Candidate, Bounded;
    var q := ByName(find);
    NamedNext(existing, find, e, []);
    SearchStep(existing, q, accepts, names, []);
    if existing.None? {
      assert [] + [e] == [e];
      NamedNext(existing, find, e, [e]);
      SearchStep(existing, q, accepts, names, [e]);
    } else {
      var x := existing.value;
      assert [] + [x] == [x] && [x] + [e] == [x, e];
      NamedNext(existing, find, e, [x]);
      SearchStep(existing, q, accepts, names, [x]);
      NamedNext(existing, find, e, [x, e]);
      SearchStep(existing, q, accepts, names, [x, e]);
    }
  }

  lemma NamedNext(existing: Option<Endpoint>, find: nat -> Option<Endpoint>, e: Endpoint, asked: seq<Endpoint>)
    requires find(|asked|) == Some(e)
    ensures NextToAsk(existing, ByName(find), asked) ==
            if existing.Some? && forall x :: x in asked ==> x.name != existing.value.name then Got.Got(existing.value)
            else if forall x :: x in asked ==> x.name != e.name then Got.Got(e)
            else NoneLeft
  {
  }

  /** The local model does not know it: only the old endpoint is asked. */
  lemma NamedMissing(existing: Option<Endpoint>, find: nat -> Option<Endpoint>, accepts: (nat, Endpoint) -> bool,
                     names: set<string>)
    requires Bounded(existing, ByName(find), names) && forall round: nat :: find(round) == None
    ensures Search(existing, ByName(find), accepts, names, []) ==
            if existing.None? then (NotFound, [])
            else (if accepts(0, existing.value) then Connected(existing.value) else NotFound, [existing.value])
  {
    hide Search;
    var q := ByName(find);
    NoneAsked(existing, q);
    SearchStep(existing, q, accepts, names, []);
    if existing.Some? {
      assert [] + [existing.value] == [existing.value];
      SearchStep(existing, q, accepts, names, [existing.value]);
    }
  }

  // ---- a registry that does not change ----

  /** The registry gives the same answer in every round, and the selector always chooses. */
  ghost predicate Stable(q: Query, endpoints: seq<Endpoint>) {
    && q.ByService?
    && (forall round: nat :: q.lookup(round) == Found(endpoints))
    && AlwaysSelects(q.select)
  }

  ghost predicate AlwaysSelects(select: (nat, seq<Endpoint>) -> Option<Endpoint>) {
    forall round: nat, c: seq<Endpoint> :: c != [] ==> select(round, c).Some?
  }

  lemma NoneLeftMeansAllIgnored(q: Query, round: nat, ignored: set<string>, endpoints: seq<Endpoint>)
    requires Stable(q, endpoints) && !Candidate(q, round, ignored).Got?
    ensures Candidate(q, round, ignored).NoneLeft?
    ensures forall e :: e in endpoints ==> e.name in ignored
  {
    FilterMembers(endpoints, ignored);
    assert q.lookup(round) == Found(endpoints);
  }

  lemma AskedFromRegistry(existing: Option<Endpoint>, q: Query, asked: seq<Endpoint>, endpoints: seq<Endpoint>, k: nat)
    requires Honest(q) && Stable(q, endpoints) && Trace(existing, q, asked) && k < |asked|
    ensures asked[k] in endpoints || Some(asked[k]) == existing
  {
    var before := asked[..k];
    assert NextToAsk(existing, q, before) == Got.Got(asked[k]);
    assert q.lookup(|before|) == Found(endpoints);
    FilterMembers(endpoints, Names(before));
  }

  /**
   * With a stable registry, a search that does not connect reports "not found", and every candidate
   * (or, where names repeat, one of the same name) was asked in some round and refused in it.
   */
  lemma NotFoundAfterAllRefused(existing: Option<Endpoint>, q: Query, accepts: (nat, Endpoint) -> bool,
                                r: SearchResult, asked: seq<Endpoint>, endpoints: seq<Endpoint>, e: Endpoint)
    requires Honest(q) && Stable(q, endpoints) && Explains(existing, q, accepts, r, asked) && !r.Connected?
    requires e in endpoints
    ensures r.NotFound?
    ensures exists k :: 0 <= k < |asked| && asked[k].name == e.name && !accepts(k, asked[k])
    ensures DistinctNames(endpoints) && (existing.Some? ==> existing.value in endpoints) ==>
              exists k :: 0 <= k < |asked| && asked[k] == e && !accepts(k, asked[k])
  {
    hide Candidate, Honest, Stable;
    NoneLeftMeansAllIgnored(q, |asked|, Names(asked), endpoints);
    var x :| x in asked && x.name == e.name;
    var k :| 0 <= k < |asked| && asked[k] == x;
    AskedFromRegistry(existing, q, asked, endpoints, k);
    if DistinctNames(endpoints) && (existing.Some? ==> existing.value in endpoints) {
      assert x in endpoints;
      SameNameSame(endpoints, x, e);
    }
  }

  lemma SameNameSame(endpoints: seq<Endpoint>, x: Endpoint, y: Endpoint)
    requires DistinctNames(endpoints) && x in endpoints && y in endpoints && x.name == y.name
    ensures x == y
  {
    var i :| 0 <= i < |endpoints| && endpoints[i] == x;
    var j :| 0 <= j < |endpoints| && endpoints[j] == y;
    assert i == j;
  }

  // ---- the nil endpoint ----

  /** A selector that always chooses never leads to a nil endpoint. */
  lemma {:induction false} ChoosingAvoidsNil(existing: Option<Endpoint>, q: Query, accepts: (nat, Endpoint) -> bool,
                                             names: set<string>, asked: seq<Endpoint>)
    requires Bounded(existing, q, names) && (q.ByService? ==> AlwaysSelects(q.select))
    ensures !Search(existing, q, accepts, names, asked).0.NilAsked?
    decreases |names - Names(asked)|
  {
    hide Bounded, Names;
    SearchStep(existing, q, accepts, names, asked);
    if NextToAsk(existing, q, asked).Got? {
      var e := NextToAsk(existing, q, asked).endpoint;
      NextIsNew(existing, q, asked, names);
      ChoosingAvoidsNil(existing, q, accepts, names, asked + [e]);
    }
  }

  function Stranger(base: nat, k: nat): Endpoint {
    Endpoint(seq(base + k, _ => 'x'), map[])
  }

  /** A registry with one stranger in each of the first `round` rounds, and then the list `c`. */
  function Strangers(base: nat, round: nat, c: seq<Endpoint>): nat -> Lookup {
    (k: nat) => if k < round then Found([Stranger(base, k)]) else Found(c)
  }

  ghost predicate OnlyStrangers(base: nat, asked: seq<Endpoint>) {
    forall k :: 0 <= k < |asked| ==> asked[k] == Stranger(base, k)
  }

  function StrangerNames(base: nat, round: nat): set<string> {
    set k | 0 <= k < round :: Stranger(base, k).name
  }

  /** What the strangers' registry leads to in one round. */
  lemma StrangerNext(select: (nat, seq<Endpoint>) -> Option<Endpoint>, base: nat, round: nat, c: seq<Endpoint>,
                     asked: seq<Endpoint>)
    requires c != [] && select(round, c).None? && (forall e :: e in c ==> |e.name| < base)
    requires forall k: nat, l: seq<Endpoint> :: select(k, l).Some? ==> select(k, l).value in l
    requires |asked| <= round && OnlyStrangers(base, asked)
    ensures var next := NextToAsk(None, ByService(Strangers(base, round, c), select), asked);
            next.NilEndpoint? || (|asked| < round && next == Got.Got(Stranger(base, |asked|)))
  {
    var q := ByService(Strangers(base, round, c), select);
    var k := |asked|;
    if k == round {
      NoneIgnored(c, Names(asked), base, asked);
      assert q.lookup(k) == Found(c);
    } else {
      var one := [Stranger(base, k)];
      assert Stranger(base, k).name !in Names(asked);
      assert one[..0] == [];
      assert Filter(one, Names(asked)) == one;
      assert q.lookup(k) == Found(one);
      assert select(k, one).Some? ==> select(k, one).value in one;
    }
  }

  /** Where a selector does not choose, a registry leads the search there, if everyone refuses. */
  lemma {:induction false} StrangersLeadToNil(select: (nat, seq<Endpoint>) -> Option<Endpoint>, base: nat, round: nat,
                                              c: seq<Endpoint>, names: set<string>, asked: seq<Endpoint>)
    requires c != [] && select(round, c).None? && (forall e :: e in c ==> |e.name| < base)
    requires Bounded(None, ByService(Strangers(base, round, c), select), names)
    requires |asked| <= round && OnlyStrangers(base, asked)
    ensures Search(None, ByService(Strangers(base, round, c), select), (_, _) => false, names, asked).0.NilAsked?
    decreases round - |asked|
  {
    hide NextToAsk, Search, NamesFrom;
    var q := ByService(Strangers(base, round, c), select);
    SearchStep(None, q, (_, _) => false, names, asked);
    StrangerNext(select, base, round, c, asked);
    if NextToAsk(None, q, asked).Got? {
      StrangersLeadToNil(select, base, round, c, names, asked + [Stranger(base, |asked|)]);
    }
  }

  lemma NoneIgnored(c: seq<Endpoint>, ignored: set<string>, base: nat, asked: seq<Endpoint>)
    requires (forall e :: e in c ==> |e.name| < base) && ignored == Names(asked) && OnlyStrangers(base, asked)
    ensures Filter(c, ignored) == c
  {
    assert forall x :: x in ignored ==> |x| >= base;
    NothingFiltered(c, ignored, base);
  }

  lemma {:induction false} NothingFiltered(c: seq<Endpoint>, ignored: set<string>, base: nat)
    requires (forall e :: e in c ==> |e.name| < base) && forall x :: x in ignored ==> |x| >= base
    ensures Filter(c, ignored) == c
  {
    if c != [] {
      var n := |c| - 1;
      NothingFiltered(c[..n], ignored, base);
      assert c[n] in c && c == c[..n] + [c[n]];
    }
  }

  /** No registry, old endpoint or acceptor leads the search to a nil endpoint. */
  ghost predicate AvoidsNil(select: (nat, seq<Endpoint>) -> Option<Endpoint>) {
    forall existing, lookup: nat -> Lookup, accepts: (nat, Endpoint) -> bool, names: set<string> ::
      Bounded(existing, ByService(lookup, select), names) ==>
        !Search(existing, ByService(lookup, select), accepts, names, []).0.NilAsked?
  }

  /** A nil endpoint is out of reach exactly when the selector chooses from every non-empty list. */
  lemma NilAskedIff(select: (nat, seq<Endpoint>) -> Option<Endpoint>)
    requires Honest(ByService(_ => Unavailable, select))
    ensures AvoidsNil(select) <==> AlwaysSelects(select)
  {
    if AlwaysSelects(select) {
      forall existing, lookup: nat -> Lookup, accepts: (nat, Endpoint) -> bool, names: set<string> |
        Bounded(existing, ByService(lookup, select), names)
        ensures !Search(existing, ByService(lookup, select), accepts, names, []).0.NilAsked?
      {
        ChoosingAvoidsNil(existing, ByService(lookup, select), accepts, names, []);
      }
    } else {
      var round: nat, c: seq<Endpoint> :| c != [] && select(round, c).None?;
      var long := FreshKey(Names(c));
      var base := |long|;
      var lookup, names := Strangers(base, round, c), Names(c) + StrangerNames(base, round);
      assert forall e :: e in c ==> e.name in Names(c);
      assert Honest(ByService(lookup, select));
      assert NamesFrom(ByService(lookup, select), names);
      StrangersLeadToNil(select, base, round, c, names, []);
    }
  }

  /** The match selector as the search sees it; the counters move between rounds. */
  function Matching(counters: nat -> Counters, labels: Labels, service: Service)
    : (nat, seq<Endpoint>) -> Option<Endpoint>
  {
    (round: nat, c: seq<Endpoint>) => Choice(counters(round), labels, service, c)
  }

  lemma {:induction false} ChosenFrom(labels: Labels, matches: seq<Match>, endpoints: seq<Endpoint>)
    ensures forall e :: e in Chosen(labels, matches, endpoints) ==> e in endpoints
  {
    if matches != [] {
      CandidateMembers(matches[0].routes, endpoints);
      ChosenFrom(labels, matches[1..], endpoints);
    }
  }

  lemma MatchingIsHonest(counters: nat -> Counters, labels: Labels, service: Service)
    ensures Honest(ByService(_ => Unavailable, Matching(counters, labels, service)))
  {
    var select := Matching(counters, labels, service);
    forall round: nat, c: seq<Endpoint> | select(round, c).Some? ensures select(round, c).value in c {
      ChosenFrom(labels, service.matches, c);
      assert select(round, c) == Choice(counters(round), labels, service, c);
    }
  }

  lemma MatchingChoosesIff(counters: nat -> Counters, labels: Labels, service: Service)
    ensures AlwaysSelects(Matching(counters, labels, service)) <==>
            service.matches == [] || exists m :: m in service.matches && CatchAll(labels, m)
  {
    var select := Matching(counters, labels, service);
    AlwaysChoosesIff(labels, service);
    forall round: nat, c: seq<Endpoint>
      ensures select(round, c) == Choice(counters(round), labels, service, c)
    {
    }
    if AlwaysSelects(select) && service.matches != [] {
      var bare := Endpoint("bare", map[]);
      assert select(0, [bare]).Some?;
      ChoiceIff(counters(0), labels, service, [bare]);
      var m :| m in service.matches && Applies(labels, m, [bare]);
      BareEndpoint(labels, m, bare);
    }
  }

  /**
   * With the match selector a nil endpoint is out of reach exactly when the service has no matches or
   * has one, open to the client, that takes endpoints without any label.
   */
  lemma MatchingAsksNilIff(counters: nat -> Counters, labels: Labels, service: Service)
    ensures AvoidsNil(Matching(counters, labels, service)) <==>
            service.matches == [] || exists m :: m in service.matches && CatchAll(labels, m)
  {
    hide AvoidsNil, AlwaysSelects, CatchAll, Matching;
    MatchingIsHonest(counters, labels, service);
    MatchingChoosesIff(counters, labels, service);
    NilAskedIff(Matching(counters, labels, service));
  }

  /** Whom the search asks in a round is the old endpoint, or eligible for the client among those not yet asked. */
  lemma AskedAreEligible(existing: Option<Endpoint>, lookup: nat -> Lookup, counters: nat -> Counters, labels: Labels,
                         service: Service, asked: seq<Endpoint>, k: nat)
    requires Trace(existing, ByService(lookup, Matching(counters, labels, service)), asked) && k < |asked|
    ensures || Some(asked[k]) == existing
            || (&& lookup(k).Found?
                && Eligible(labels, service, Filter(lookup(k).endpoints, Names(asked[..k])), asked[k]))
  {
    hide Eligible, Choice;
    var q := ByService(lookup, Matching(counters, labels, service));
    var before := asked[..k];
    assert NextToAsk(existing, q, before) == Got.Got(asked[k]);
    if Some(asked[k]) != existing {
      assert Candidate(q, k, Names(before)) == Got.Got(asked[k]);
      var left := Filter(lookup(k).endpoints, Names(before));
      assert q.select(k, left) == Choice(counters(k), labels, service, left);
      SelectorIsFair(counters(k), [], labels, service, left, asked[k]);
    }
  }

  const VPN := Endpoint("nse-1", map["app" := "vpn"])
  const FIREWALLS := Service("secure", [Match(map[], [map["app" := "firewall"]])])

  lemma NoFirewall(c: Counters)
    ensures Choice(c, map[], FIREWALLS, [VPN]).None?
  {
    var route: Labels := map["app" := "firewall"];
    assert "app" in route && Value(VPN.labels, "app") != route["app"];
    assert [VPN][..0] == [] && [route][..0] == [];
    assert Selected([VPN], route) == [];
    assert Candidates([route], [VPN]) == Candidates([], [VPN]) + [];
    assert FIREWALLS.matches == [Match(map[], [route])];
    assert Chosen(map[], FIREWALLS.matches[1..], [VPN]) == [];
  }

  /** A registry with one endpoint, whose labels fit no route of the service. */
  function Misfit(counters: nat -> Counters): Query {
    ByService(_ => Found([VPN]), Matching(counters, map[], FIREWALLS))
  }

  /** The first round of the search asks a nil endpoint. */
  lemma NilEndpointAsked(counters: nat -> Counters, accepts: (nat, Endpoint) -> bool)
    ensures Bounded(None, Misfit(counters), {VPN.name})
    ensures Search(None, Misfit(counters), accepts, {VPN.name}, []) == (NilAsked, [])
  {
    hide Choice, Selector.Candidates, Selector.Chosen;
    var q := Misfit(counters);
    MatchingIsHonest(counters, map[], FIREWALLS);
    assert [VPN][..0] == [];
    assert q.lookup(0) == Found([VPN]) && Filter([VPN], {}) == [VPN];
    NoFirewall(counters(0));
    assert q.select(0, [VPN]) == None;
    NoneAsked(None, q);
    SearchStep(None, q, accepts, {VPN.name}, []);
  }
}
