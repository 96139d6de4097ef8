/**
 * Two indexes of endpoints by network service: the registry cache and the manager's model.
 *
 * Both keep a map by name and lists by service. The reference is one list of all registered
 * endpoints in the order they were registered.
 */
module EndpointIndex {
  import opened Options

  datatype Nse = Nse(name: string, service: string, manager: string)

  datatype Index = Index(byService: map<string, seq<Nse>>, byName: map<string, Nse>)

  function At(m: map<string, seq<Nse>>, service: string): seq<Nse> {
    if service in m then m[service] else []
  }

  /** The endpoints of one service, in order. */
  function ForService(order: seq<Nse>, service: string): seq<Nse> {
    if order == [] then []
    else if order[0].service == service then [order[0]] + ForService(order[1..], service)
    else ForService(order[1..], service)
  }

  predicate DistinctNames(order: seq<Nse>) {
    forall i, j :: 0 <= i < j < |order| ==> order[i].name != order[j].name
  }

  /** The map by name holds exactly the registered endpoints. */
  ghost predicate NamesAgree(byName: map<string, Nse>, order: seq<Nse>) {
    && DistinctNames(order)
    && (forall n :: n in byName ==> byName[n] in order && byName[n].name == n)
    && (forall e :: e in order ==> e.name in byName && byName[e.name] == e)
  }

  /** The lists hold the registered endpoints of each service, once each and in order; none is empty. */
  ghost predicate ListsAgree(byService: map<string, seq<Nse>>, order: seq<Nse>) {
    && (forall s :: At(byService, s) == ForService(order, s))
    && (forall s :: s in byService ==> byService[s] != [])
  }

  /** The index is exactly what the registered endpoints `order` call for. */
  ghost predicate Agrees(ix: Index, order: seq<Nse>) {
    NamesAgree(ix.byName, order) && ListsAgree(ix.byService, order)
  }

  /** The first position with that name, or the length if there is none. */
  function IndexOf(l: seq<Nse>, name: string): (i: nat)
    ensures i <= |l|
    ensures i < |l| ==> l[i].name == name
    ensures forall j :: 0 <= j < i ==> l[j].name != name
  {
    if l == [] then 0 else if l[0].name == name then 0 else 1 + IndexOf(l[1..], name)
  }

  /** The first position of that entry, or the length if there is none. */
  function Find(l: seq<Nse>, e: Nse): (i: nat)
    ensures i <= |l|
    ensures i < |l| ==> l[i] == e
    ensures forall j :: 0 <= j < i ==> l[j] != e
  {
    if l == [] then 0 else if l[0] == e then 0 else 1 + Find(l[1..], e)
  }

  function Without(l: seq<Nse>, i: nat): seq<Nse>
    requires i < |l|
  {
    l[..i] + l[i + 1..]
  }

  // ---- the reference ----

  function Registered(order: seq<Nse>, e: Nse): seq<Nse> {
    var i := IndexOf(order, e.name);
    if i < |order| then order[i := e] else order + [e]
  }

  function Unregistered(order: seq<Nse>, name: string): seq<Nse> {
    var i := IndexOf(order, name);
    if i < |order| then Without(order, i) else order
  }

  /** A new endpoint comes last; a known one is replaced where it is; nothing else moves. */
  lemma RegisteredIs(a: seq<Nse>, was: Nse, b: seq<Nse>, e: Nse)
    requires DistinctNames(a + [was] + b)
    ensures e.name == was.name ==> Registered(a + [was] + b, e) == a + [e] + b
    ensures (forall x :: x in a ==> x.name != e.name) ==> Registered(a, e) == a + [e]
  {
    var order := a + [was] + b;
    assert order[|a|] == was;
    if e.name == was.name {
      IndexOfUnique(order, |a|);
    }
    var i := IndexOf(a, e.name);
    assert i < |a| ==> a[i] in a;
  }

  /** The endpoint of that name goes, and nothing else moves. */
  lemma UnregisteredIs(a: seq<Nse>, was: Nse, b: seq<Nse>, name: string)
    requires DistinctNames(a + [was] + b)
    ensures was.name == name ==> Unregistered(a + [was] + b, name) == a + b
    ensures (forall x :: x in a ==> x.name != name) ==> Unregistered(a, name) == a
  {
    var order := a + [was] + b;
    assert order[|a|] == was && order[..|a|] == a && order[|a| + 1..] == b;
    if was.name == name {
      IndexOfUnique(order, |a|);
    }
    var i := IndexOf(a, name);
    assert i < |a| ==> a[i] in a;
  }

  // ---- the two indexes ----

  /** `resourceAdded`: an endpoint that is known is overwritten in the list of its service. */
  function CacheAdded(ix: Index, e: Nse): Index {
    var l := At(ix.byService, e.service);
    var i := IndexOf(l, e.name);
    var byService :=
      if e.name !in ix.byName then ix.byService[e.service := l + [e]]
      else if i < |l| then ix.byService[e.service := l[i := e]]
      else ix.byService;
    Index(byService, ix.byName[e.name := e])
  }

  /** Deleting cuts an entry out of the list of the endpoint's service: an empty list is a panic. */
  predicate DeletePanics(ix: Index, name: string) {
    name in ix.byName && At(ix.byService, ix.byName[name].service) == []
  }

  /** `resourceDeleted`: without a match in the list the first entry goes. */
  function CacheDeleted(ix: Index, name: string): Index
    requires !DeletePanics(ix, name)
  {
    if name !in ix.byName then ix
    else
      var e := ix.byName[name];
      var l := At(ix.byService, e.service);
      var i := IndexOf(l, e.name);
      var l' := Without(l, if i < |l| then i else 0);
      Index(if l' == [] then ix.byService - {e.service} else ix.byService[e.service := l'], ix.byName - {name})
  }

  /** `AddEndpoint`: always appended to the list of its service. */
  function ModelAdded(ix: Index, e: Nse): Index {
    Index(ix.byService[e.service := At(ix.byService, e.service) + [e]], ix.byName[e.name := e])
  }

  /** `DeleteEndpoint`: a list of one goes as a whole. */
  function ModelDeleted(ix: Index, name: string): Index {
    if name !in ix.byName then ix
    else
      var e := ix.byName[name];
      var l := At(ix.byService, e.service);
      var i := Find(l, e);
      var byService :=
        if |l| <= 1 then ix.byService - {e.service}
        else if i < |l| then ix.byService[e.service := Without(l, i)]
        else ix.byService;
      Index(byService, ix.byName - {name})
  }

  // ---- lists by service ----

  lemma {:induction false} ForServiceConcat(a: seq<Nse>, b: seq<Nse>, s: string)
    ensures ForService(a + b, s) == ForService(a, s) + ForService(b, s)
  {
    hide ForService;
    if a == [] {
      NoneForService(s);
      assert a + b == b && [] + ForService(b, s) == ForService(b, s);
    } else {
      var tail := a[1..];
      ForServiceConcat(tail, b, s);
      ForServiceHead(a, s);
      ForServiceHead(a + b, s);
      assert (a + b)[0] == a[0] && (a + b)[1..] == tail + b;
    }
  }

  lemma NoneForService(s: string)
    ensures ForService([], s) == []
  {
  }

  lemma ForServiceHead(order: seq<Nse>, s: string)
    requires order != []
    ensures ForService(order, s) == (if order[0].service == s then [order[0]] else []) + ForService(order[1..], s)
  {
  }

  lemma {:induction false} ForServiceMembers(order: seq<Nse>, s: string)
    ensures forall e :: e in ForService(order, s) <==> e in order && e.service == s
  {
    if order != [] {
      ForServiceMembers(order[1..], s);
    }
  }

  lemma ForServiceSplit(order: seq<Nse>, i: nat, s: string)
    requires i < |order|
    ensures var a, b := ForService(order[..i], s), ForService(order[i + 1..], s);
            ForService(order, s) == a + (if order[i].service == s then [order[i]] else []) + b
  {
    assert order == order[..i] + [order[i]] + order[i + 1..];
    ForServiceConcat(order[..i] + [order[i]], order[i + 1..], s);
    ForServiceConcat(order[..i], [order[i]], s);
  }

  /** The place of an endpoint in the list of its service. */
  lemma PlaceInService(order: seq<Nse>, i: nat)
    requires DistinctNames(order) && i < |order|
    ensures var e := order[i];
            var l := ForService(order, e.service);
            var k := IndexOf(l, e.name);
            && k == |ForService(order[..i], e.service)| && k < |l| && l[k] == e && Find(l, e) == k
            && Without(l, k) == ForService(order[..i], e.service) + ForService(order[i + 1..], e.service)
  {
    hide ForService, IndexOf, Find;
    var e := order[i];
    var a, b := ForService(order[..i], e.service), ForService(order[i + 1..], e.service);
    ForServiceSplit(order, i, e.service);
    ForServiceMembers(order[..i], e.service);
    forall x | x in a ensures x.name != e.name {
      assert x in order[..i];
    }
    PlaceBetween(a, e, b);
  }

  lemma PlaceBetween(a: seq<Nse>, e: Nse, b: seq<Nse>)
    requires forall x :: x in a ==> x.name != e.name
    ensures var l := a + [e] + b;
            && IndexOf(l, e.name) == Find(l, e) == |a| && l[|a|] == e
            && Without(l, |a|) == a + b
  {
    var l := a + [e] + b;
    assert l[|a|] == e;
    assert forall j :: 0 <= j < |a| ==> l[j] in a;
    assert l[..|a|] == a && l[|a| + 1..] == b;
  }

  lemma IndexOfUnique(l: seq<Nse>, i: nat)
    requires DistinctNames(l) && i < |l|
    ensures IndexOf(l, l[i].name) == i
  {
  }

  // ---- both indexes agree with the reference ----

  lemma UnknownName(byName: map<string, Nse>, order: seq<Nse>, name: string)
    requires NamesAgree(byName, order)
    ensures name !in byName <==> IndexOf(order, name) == |order|
    ensures name in byName ==> var i := IndexOf(order, name); i < |order| && order[i] == byName[name]
  {
    var i := IndexOf(order, name);
    if i < |order| {
      assert order[i] in order;
    }
    if name in byName {
      var k :| 0 <= k < |order| && order[k] == byName[name];
      IndexOfUnique(order, k);
    }
  }

  /** Registering a new name. */
  lemma AddNewAgrees(ix: Index, order: seq<Nse>, e: Nse)
    requires Agrees(ix, order) && e.name !in ix.byName
    ensures CacheAdded(ix, e) == ModelAdded(ix, e)
    ensures Registered(order, e) == order + [e]
    ensures Agrees(CacheAdded(ix, e), order + [e])
  {
    hide NamesAgree, ListsAgree;
    UnknownName(ix.byName, order, e.name);
    AppendedNames(ix.byName, order, e);
    AppendedLists(ix.byService, order, e);
  }

  lemma AppendedLists(byService: map<string, seq<Nse>>, order: seq<Nse>, e: Nse)
    requires ListsAgree(byService, order)
    ensures ListsAgree(byService[e.service := At(byService, e.service) + [e]], order + [e])
  {
    var m := byService[e.service := At(byService, e.service) + [e]];
    forall s ensures At(m, s) == ForService(order + [e], s) {
      ForServiceConcat(order, [e], s);
      assert At(byService, s) == ForService(order, s);
      assert [e][1..] == [];
    }
  }

  lemma AppendedNames(byName: map<string, Nse>, order: seq<Nse>, e: Nse)
    requires NamesAgree(byName, order) && e.name !in byName
    ensures NamesAgree(byName[e.name := e], order + [e])
  {
    assert forall i :: 0 <= i < |order| ==> order[i] in order;
    assert forall x :: x in order + [e] <==> x in order || x == e;
  }

  /** Registering a known name again with the same service, in the cache. */
  lemma ReplaceAgrees(ix: Index, order: seq<Nse>, e: Nse)
    requires Agrees(ix, order) && e.name in ix.byName && ix.byName[e.name].service == e.service
    ensures Agrees(CacheAdded(ix, e), Registered(order, e))
  {
    hide NamesAgree, ListsAgree;
    UnknownName(ix.byName, order, e.name);
    var i := IndexOf(order, e.name);
    ReplacedNames(ix.byName, order, i, e);
    ReplacedLists(ix.byService, order, i, e);
  }

  lemma ReplacedLists(byService: map<string, seq<Nse>>, order: seq<Nse>, i: nat, e: Nse)
    requires ListsAgree(byService, order) && DistinctNames(order) && i < |order|
    requires order[i].name == e.name && order[i].service == e.service
    ensures var l := At(byService, e.service);
            var k := IndexOf(l, e.name);
            k < |l| && ListsAgree(byService[e.service := l[k := e]], order[i := e])
  {
    hide IndexOf, DistinctNames, ForService, Find;
    var l, order' := At(byService, e.service), order[i := e];
    PlaceInService(order, i);
    assert l == ForService(order, e.service);
    var k := IndexOf(l, e.name);
    var m := byService[e.service := l[k := e]];
    forall s ensures At(m, s) == ForService(order', s) {
      assert At(byService, s) == ForService(order, s);
      ReplacedForService(order, i, e, s);
    }
  }

  lemma ReplacedForService(order: seq<Nse>, i: nat, e: Nse, s: string)
    requires i < |order| && order[i].service == e.service
    ensures s != e.service ==> ForService(order[i := e], s) == ForService(order, s)
    ensures s == e.service ==>
              var k := |ForService(order[..i], s)|;
              k < |ForService(order, s)| && ForService(order[i := e], s) == ForService(order, s)[k := e]
  {
    hide ForService;
    var order' := order[i := e];
    assert order'[..i] == order[..i] && order'[i + 1..] == order[i + 1..];
    ForServiceSplit(order, i, s);
    ForServiceSplit(order', i, s);
    if s == e.service {
      var a, b := ForService(order[..i], s), ForService(order[i + 1..], s);
      assert (a + [order[i]] + b)[|a| := e] == a + [e] + b;
    }
  }

  lemma ReplacedNames(byName: map<string, Nse>, order: seq<Nse>, i: nat, e: Nse)
    requires NamesAgree(byName, order) && i < |order| && order[i].name == e.name
    ensures NamesAgree(byName[e.name := e], order[i := e]) && DistinctNames(order)
  {
    var order', m := order[i := e], byName[e.name := e];
    assert order'[i] == e;
    forall n | n in m ensures m[n] in order' && m[n].name == n {
      if n != e.name {
        var j :| 0 <= j < |order| && order[j] == byName[n];
        assert order'[j] == m[n];
      }
    }
    forall x | x in order' ensures x.name in m && m[x.name] == x {
      var j :| 0 <= j < |order'| && order'[j] == x;
      if j != i {
        assert order[j] == x && order[j].name != order[i].name;
      }
    }
  }

  /** A known name that comes back with another service breaks the cache for good. */
  lemma ChangedServiceDisagrees(ix: Index, order: seq<Nse>, e: Nse, order': seq<Nse>)
    requires Agrees(ix, order) && e.name in ix.byName && ix.byName[e.name].service != e.service
    ensures !Agrees(CacheAdded(ix, e), order')
  {
    var ix', was := CacheAdded(ix, e), ix.byName[e.name];
    ForServiceMembers(order, was.service);
    ForServiceMembers(order', was.service);
    assert At(ix.byService, was.service) == ForService(order, was.service);
    assert was in At(ix'.byService, was.service) && ix'.byName[was.name] != was;
    assert Agrees(ix', order') ==> At(ix'.byService, was.service) == ForService(order', was.service);
  }

  /** The cache stays exact exactly when a known endpoint keeps its service. */
  lemma CacheAddedAgreesIff(ix: Index, order: seq<Nse>, e: Nse)
    requires Agrees(ix, order)
    ensures (exists order' :: Agrees(CacheAdded(ix, e), order')) <==>
            (e.name in ix.byName ==> ix.byName[e.name].service == e.service)
    ensures (e.name in ix.byName ==> ix.byName[e.name].service == e.service) ==>
              Agrees(CacheAdded(ix, e), Registered(order, e))
  {
    if e.name !in ix.byName {
      AddNewAgrees(ix, order, e);
    } else if ix.byName[e.name].service == e.service {
      ReplaceAgrees(ix, order, e);
    } else {
      forall order' ensures !Agrees(CacheAdded(ix, e), order') {
        ChangedServiceDisagrees(ix, order, e, order');
      }
    }
  }

  /** The model stays exact exactly when the name is new, which its caller checks. */
  lemma ModelAddedAgreesIff(ix: Index, order: seq<Nse>, e: Nse)
    requires Agrees(ix, order)
    ensures (exists order' :: Agrees(ModelAdded(ix, e), order')) <==> e.name !in ix.byName
    ensures e.name !in ix.byName ==> Agrees(ModelAdded(ix, e), Registered(order, e))
  {
    if e.name !in ix.byName {
      AddNewAgrees(ix, order, e);
    } else {
      forall order' ensures !Agrees(ModelAdded(ix, e), order') {
        DuplicateDisagrees(ix, order, e, order');
      }
    }
  }

  lemma DuplicateDisagrees(ix: Index, order: seq<Nse>, e: Nse, order': seq<Nse>)
    requires Agrees(ix, order) && e.name in ix.byName
    ensures !Agrees(ModelAdded(ix, e), order')
  {
    var ix', was := ModelAdded(ix, e), ix.byName[e.name];
    ForServiceMembers(order, was.service);
    ForServiceMembers(order', was.service);
    var old' := At(ix.byService, was.service);
    assert old' == ForService(order, was.service);
    var l := At(ix'.byService, was.service);
    assert Agrees(ix', order') ==> l == ForService(order', was.service);
    if e.service == was.service {
      assert l == old' + [e];
      var k :| 0 <= k < |old'| && old'[k] == was;
      assert l[k].name == l[|old'|].name;
      if DistinctNames(order') {
        ForServiceDistinct(order', was.service);
      }
    } else {
      assert was in l && ix'.byName[was.name] != was;
    }
  }

  lemma {:induction false} ForServiceDistinct(order: seq<Nse>, s: string)
    requires DistinctNames(order)
    ensures DistinctNames(ForService(order, s))
  {
    if order != [] {
      ForServiceDistinct(order[1..], s);
      ForServiceMembers(order[1..], s);
    }
  }

  /** Removing a name keeps both indexes exact. */
  lemma DeleteAgrees(ix: Index, order: seq<Nse>, name: string)
    requires Agrees(ix, order)
    ensures !DeletePanics(ix, name)
    ensures CacheDeleted(ix, name) == ModelDeleted(ix, name)
    ensures Agrees(CacheDeleted(ix, name), Unregistered(order, name))
  {
    hide NamesAgree, ListsAgree;
    UnknownName(ix.byName, order, name);
    if name in ix.byName {
      var i := IndexOf(order, name);
      WithoutNames(ix.byName, order, i);
      WithoutLists(ix.byService, order, i);
      assert order[i] == ix.byName[name];
    }
  }

  lemma WithoutLists(byService: map<string, seq<Nse>>, order: seq<Nse>, i: nat)
    requires ListsAgree(byService, order) && DistinctNames(order) && i < |order|
    ensures var s := order[i].service;
            var l := At(byService, s);
            var k := IndexOf(l, order[i].name);
            && k < |l| && Find(l, order[i]) == k
            && (Without(l, k) == [] <==> |l| <= 1)
            && ListsAgree(if Without(l, k) == [] then byService - {s} else byService[s := Without(l, k)],
                          Without(order, i))
  {
    hide IndexOf, DistinctNames, ForService, Find;
    var e := order[i];
    var l := At(byService, e.service);
    PlaceInService(order, i);
    assert l == ForService(order, e.service);
    var l' := Without(l, IndexOf(l, e.name));
    var m := if l' == [] then byService - {e.service} else byService[e.service := l'];
    forall s ensures At(m, s) == ForService(Without(order, i), s) {
      WithoutForService(order, i, s);
      assert At(byService, s) == ForService(order, s);
    }
  }

  lemma WithoutForService(order: seq<Nse>, i: nat, s: string)
    requires i < |order|
    ensures ForService(Without(order, i), s) == ForService(order[..i], s) + ForService(order[i + 1..], s)
    ensures s != order[i].service ==> ForService(Without(order, i), s) == ForService(order, s)
  {
    hide ForService;
    ForServiceSplit(order, i, s);
    ForServiceConcat(order[..i], order[i + 1..], s);
    var a, b := ForService(order[..i], s), ForService(order[i + 1..], s);
    assert a + [] + b == a + b;
  }

  lemma WithoutNames(byName: map<string, Nse>, order: seq<Nse>, i: nat)
    requires NamesAgree(byName, order) && i < |order|
    ensures NamesAgree(byName - {order[i].name}, Without(order, i)) && DistinctNames(order)
  {
    var order', m := Without(order, i), byName - {order[i].name};
    WithoutMembers(order, i);
    forall n | n in m ensures m[n] in order' {
      assert byName[n] in order && byName[n].name != order[i].name;
    }
  }

  lemma WithoutMembers(order: seq<Nse>, i: nat)
    requires DistinctNames(order) && i < |order|
    ensures DistinctNames(Without(order, i))
    ensures forall x :: x in Without(order, i) <==> x in order && x.name != order[i].name
  {
    hide DistinctNames;
    var order' := Without(order, i);
    forall x | x in order && x.name != order[i].name ensures x in order' {
      var j :| 0 <= j < |order| && order[j] == x;
      assert order'[if j < i then j else j - 1] == x;
    }
    forall x | x in order' ensures x in order && x.name != order[i].name {
      var j :| 0 <= j < |order'| && order'[j] == x;
      var k := if j < i then j else j + 1;
      assert order[k] == x;
      NamesDiffer(order, i, k);
    }
    WithoutDistinct(order, i);
  }

  lemma NamesDiffer(order: seq<Nse>, i: nat, k: nat)
    requires DistinctNames(order) && i < |order| && k < |order| && i != k
    ensures order[i].name != order[k].name
  {
  }

  lemma WithoutDistinct(order: seq<Nse>, i: nat)
    requires DistinctNames(order) && i < |order|
    ensures DistinctNames(Without(order, i))
  {
    var order' := Without(order, i);
    forall j, k | 0 <= j < k < |order'| ensures order'[j].name != order'[k].name {
      assert order'[j] == order[if j < i then j else j + 1] && order'[k] == order[if k < i then k else k + 1];
    }
  }

  // ---- runs ----

  datatype Op = Add(e: Nse) | Delete(name: string)

  /** An endpoint's service never changes while it is registered. */
  predicate KeepsService(order: seq<Nse>, op: Op) {
    op.Add? ==> var i := IndexOf(order, op.e.name); i < |order| ==> order[i].service == op.e.service
  }

  predicate FreshName(order: seq<Nse>, op: Op) {
    op.Add? ==> IndexOf(order, op.e.name) == |order|
  }

  function Reference(ops: seq<Op>): seq<Nse> {
    if ops == [] then []
    else
      var order, op := Reference(ops[..|ops| - 1]), ops[|ops| - 1];
      match op
      case Add(e) => Registered(order, e)
      case Delete(name) => Unregistered(order, name)
  }

  /** The registry cache after a run, or none after a panic. */
  function CacheRun(ops: seq<Op>): Option<Index> {
    if ops == [] then Some(Index(map[], map[]))
    else
      match CacheRun(ops[..|ops| - 1])
      case None => None
      case Some(before) =>
        match ops[|ops| - 1]
        case Add(e) => Some(CacheAdded(before, e))
        case Delete(name) => if DeletePanics(before, name) then None else Some(CacheDeleted(before, name))
  }

  /** The manager's model after a run. */
  function ModelRun(ops: seq<Op>): Index {
    if ops == [] then Index(map[], map[])
    else
      var before := ModelRun(ops[..|ops| - 1]);
      match ops[|ops| - 1]
      case Add(e) => ModelAdded(before, e)
      case Delete(name) => ModelDeleted(before, name)
  }

  /** The cache is exact after every run in which services do not change. */
  lemma {:induction false} CacheRunAgrees(ops: seq<Op>)
    requires forall i :: 0 <= i < |ops| ==> KeepsService(Reference(ops[..i]), ops[i])
    ensures CacheRun(ops).Some? && Agrees(CacheRun(ops).value, Reference(ops))
    decreases |ops|
  {
    if ops != [] {
      hide NamesAgree, ListsAgree, CacheAdded, CacheDeleted, Registered, Unregistered;
      var n := |ops| - 1;
      var init := ops[..n];
      assert forall i :: 0 <= i < n ==> init[..i] == ops[..i];
      CacheRunAgrees(init);
      var ix, order := CacheRun(init).value, Reference(init);
      assert KeepsService(order, ops[n]);
      if ops[n].Add? {
        UnknownName(ix.byName, order, ops[n].e.name);
        CacheAddedAgreesIff(ix, order, ops[n].e);
      } else {
        DeleteAgrees(ix, order, ops[n].name);
      }
    }
  }

  /** The model is exact after every run in which only new names are added. */
  lemma {:induction false} ModelRunAgrees(ops: seq<Op>)
    requires forall i :: 0 <= i < |ops| ==> FreshName(Reference(ops[..i]), ops[i])
    ensures Agrees(ModelRun(ops), Reference(ops))
    decreases |ops|
  {
    if ops != [] {
      hide NamesAgree, ListsAgree, ModelAdded, ModelDeleted, CacheDeleted, Registered, Unregistered;
      var n := |ops| - 1;
      var init := ops[..n];
      assert forall i :: 0 <= i < n ==> init[..i] == ops[..i];
      ModelRunAgrees(init);
      var ix, order := ModelRun(init), Reference(init);
      assert FreshName(order, ops[n]);
      if ops[n].Add? {
        UnknownName(ix.byName, order, ops[n].e.name);
        ModelAddedAgreesIff(ix, order, ops[n].e);
      } else {
        DeleteAgrees(ix, order, ops[n].name);
      }
    }
  }

  /** The index is what some list of endpoints calls for. */
  ghost predicate Exact(ix: Index) {
    exists order :: Agrees(ix, order)
  }

  ghost predicate CacheExact(ops: seq<Op>) {
    CacheRun(ops).Some? && Exact(CacheRun(ops).value)
  }

  /** A run keeps the cache exact all along exactly when no registered endpoint changes its service. */
  lemma CacheRunExactIff(ops: seq<Op>)
    ensures (forall i :: 0 <= i <= |ops| ==> CacheExact(ops[..i])) <==>
            forall i :: 0 <= i < |ops| ==> KeepsService(Reference(ops[..i]), ops[i])
  {
    hide Agrees, KeepsService, Reference, CacheRun;
    if forall i :: 0 <= i < |ops| ==> KeepsService(Reference(ops[..i]), ops[i]) {
      forall i | 0 <= i <= |ops| ensures CacheExact(ops[..i]) {
        CachePrefixAgrees(ops, i);
      }
    }
    if forall i :: 0 <= i <= |ops| ==> CacheExact(ops[..i]) {
      ExactRunKeeps(ops, |ops|);
    }
  }

  lemma CachePrefixAgrees(ops: seq<Op>, n: nat)
    requires n <= |ops| && forall i :: 0 <= i < n ==> KeepsService(Reference(ops[..i]), ops[i])
    ensures CacheRun(ops[..n]).Some? && Agrees(CacheRun(ops[..n]).value, Reference(ops[..n]))
  {
    hide Agrees, KeepsService, Reference, CacheRun;
    assert forall i :: 0 <= i < n ==> ops[..n][..i] == ops[..i];
    CacheRunAgrees(ops[..n]);
  }

  lemma {:induction false} ExactRunKeeps(ops: seq<Op>, n: nat)
    requires n <= |ops| && forall i :: 0 <= i <= |ops| ==> CacheExact(ops[..i])
    ensures forall i :: 0 <= i < n ==> KeepsService(Reference(ops[..i]), ops[i])
  {
    hide CacheExact, KeepsService, Reference;
    if n > 0 {
      ExactRunKeeps(ops, n - 1);
      CachePrefixAgrees(ops, n - 1);
      assert CacheExact(ops[..n]);
      assert ops[..n][..n - 1] == ops[..n - 1];
      ExactStepKeeps(ops[..n]);
    }
  }

  lemma ExactStepKeeps(ops: seq<Op>)
    requires ops != []
    requires var init := ops[..|ops| - 1]; CacheRun(init).Some? && Agrees(CacheRun(init).value, Reference(init))
    requires CacheExact(ops)
    ensures KeepsService(Reference(ops[..|ops| - 1]), ops[|ops| - 1])
  {
    hide NamesAgree, ListsAgree, CacheAdded, CacheDeleted, Reference;
    var n := |ops| - 1;
    var ix, order := CacheRun(ops[..n]).value, Reference(ops[..n]);
    if ops[n].Add? {
      UnknownName(ix.byName, order, ops[n].e.name);
      CacheAddedAgreesIff(ix, order, ops[n].e);
    }
  }

  ghost predicate ModelExact(ops: seq<Op>) {
    Exact(ModelRun(ops))
  }

  /** A run keeps the model exact all along exactly when every name it adds is new. */
  lemma ModelRunExactIff(ops: seq<Op>)
    ensures (forall i :: 0 <= i <= |ops| ==> ModelExact(ops[..i])) <==>
            forall i :: 0 <= i < |ops| ==> FreshName(Reference(ops[..i]), ops[i])
  {
    hide Agrees, FreshName, Reference, ModelRun;
    if forall i :: 0 <= i < |ops| ==> FreshName(Reference(ops[..i]), ops[i]) {
      forall i | 0 <= i <= |ops| ensures ModelExact(ops[..i]) {
        ModelPrefixAgrees(ops, i);
      }
    }
    if forall i :: 0 <= i <= |ops| ==> ModelExact(ops[..i]) {
      ExactRunIsFresh(ops, |ops|);
    }
  }

  lemma ModelPrefixAgrees(ops: seq<Op>, n: nat)
    requires n <= |ops| && forall i :: 0 <= i < n ==> FreshName(Reference(ops[..i]), ops[i])
    ensures Agrees(ModelRun(ops[..n]), Reference(ops[..n]))
  {
    hide Agrees, FreshName, Reference, ModelRun;
    assert forall i :: 0 <= i < n ==> ops[..n][..i] == ops[..i];
    ModelRunAgrees(ops[..n]);
  }

  lemma {:induction false} ExactRunIsFresh(ops: seq<Op>, n: nat)
    requires n <= |ops| && forall i :: 0 <= i <= |ops| ==> ModelExact(ops[..i])
    ensures forall i :: 0 <= i < n ==> FreshName(Reference(ops[..i]), ops[i])
  {
    hide ModelExact, FreshName, Reference;
    if n > 0 {
      ExactRunIsFresh(ops, n - 1);
      ModelPrefixAgrees(ops, n - 1);
      assert ModelExact(ops[..n]);
      assert ops[..n][..n - 1] == ops[..n - 1];
      ExactStepIsFresh(ops[..n]);
    }
  }

  lemma ExactStepIsFresh(ops: seq<Op>)
    requires ops != []
    requires var init := ops[..|ops| - 1]; Agrees(ModelRun(init), Reference(init))
    requires ModelExact(ops)
    ensures FreshName(Reference(ops[..|ops| - 1]), ops[|ops| - 1])
  {
    hide NamesAgree, ListsAgree, ModelAdded, ModelDeleted, Reference;
    var n := |ops| - 1;
    var ix, order := ModelRun(ops[..n]), Reference(ops[..n]);
    if ops[n].Add? {
      UnknownName(ix.byName, order, ops[n].e.name);
      ModelAddedAgreesIff(ix, order, ops[n].e);
    }
  }

  // ---- what goes wrong otherwise ----

  /**
   * A registered endpoint comes back with another service and is then deleted. The delete panics if
   * the new service has no endpoint. Otherwise the first endpoint of that service is no longer listed
   * although it is registered, and the old entry stays in the list of the old service.
   */
  lemma DeleteAfterChange(ix: Index, order: seq<Nse>, e: Nse)
    requires Agrees(ix, order) && e.name in ix.byName && ix.byName[e.name].service != e.service
    ensures var served := ForService(order, e.service);
            DeletePanics(CacheAdded(ix, e), e.name) <==> served == []
    ensures var served := ForService(order, e.service);
            served != [] ==>
              var ix' := CacheDeleted(CacheAdded(ix, e), e.name);
              && served[0].name in ix'.byName && ix'.byName[served[0].name] == served[0]
              && At(ix'.byService, e.service) == served[1..]
              && served[0] !in At(ix'.byService, e.service)
              && ix.byName[e.name] in At(ix'.byService, ix.byName[e.name].service) && e.name !in ix'.byName
  {
    var was, served := ix.byName[e.name], ForService(order, e.service);
    OnlyByName(ix, order, e);
    ListedAndNamed(ix, order, was);
    if served != [] {
      hide Agrees, IndexOf, CacheAdded;
      assert Without(served, 0) == served[1..];
      ForServiceMembers(order, e.service);
      assert served[0] in served;
      ListedAndNamed(ix, order, served[0]);
      ForServiceDistinct(order, e.service);
    }
  }

  /** Adding a registered endpoint with another service changes the map by name and no list. */
  lemma OnlyByName(ix: Index, order: seq<Nse>, e: Nse)
    requires Agrees(ix, order) && e.name in ix.byName && ix.byName[e.name].service != e.service
    ensures At(ix.byService, e.service) == ForService(order, e.service)
    ensures IndexOf(ForService(order, e.service), e.name) == |ForService(order, e.service)|
    ensures CacheAdded(ix, e) == Index(ix.byService, ix.byName[e.name := e])
    ensures DistinctNames(order) && ix.byName[e.name] in order
  {
    ForServiceMembers(order, e.service);
    assert forall x :: x in ForService(order, e.service) ==> x.name != e.name;
  }

  lemma ListedAndNamed(ix: Index, order: seq<Nse>, e: Nse)
    requires Agrees(ix, order) && e in order
    ensures e in At(ix.byService, e.service) && e.name in ix.byName && ix.byName[e.name] == e
  {
    ForServiceMembers(order, e.service);
    assert At(ix.byService, e.service) == ForService(order, e.service);
  }

  /** A known endpoint that comes back with another service: no list of endpoints explains the cache. */
  lemma ChangedServiceBreaksCache()
    ensures var ops := [Add(Nse("nse-1", "vpn", "nsm")), Add(Nse("nse-1", "firewall", "nsm"))];
            CacheRun(ops).Some? && !Exact(CacheRun(ops).value)
  {
    var a, b := Nse("nse-1", "vpn", "nsm"), Nse("nse-1", "firewall", "nsm");
    var ops := [Add(a), Add(b)];
    assert ops[..1] == [Add(a)] && ops[..1][..0] == [];
    CacheRunAgrees([]);
    var none := CacheRun([]).value;
    AddNewAgrees(none, [], a);
    var ix := CacheAdded(none, a);
    assert CacheRun(ops[..1]) == Some(ix) && CacheRun(ops) == Some(CacheAdded(ix, b));
    CacheAddedAgreesIff(ix, [a], b);
  }

  /** The same endpoint added to the model again: no list of endpoints explains the model. */
  lemma SecondAddBreaksModel()
    ensures var a := Nse("nse-1", "vpn", "nsm");
            !Exact(ModelRun([Add(a), Add(a)]))
  {
    var a := Nse("nse-1", "vpn", "nsm");
    var ops := [Add(a), Add(a)];
    assert ops[..1] == [Add(a)] && ops[..1][..0] == [];
    ModelRunAgrees([]);
    AddNewAgrees(ModelRun([]), [], a);
    var ix := ModelAdded(ModelRun([]), a);
    assert ModelRun(ops[..1]) == ix && ModelRun(ops) == ModelAdded(ix, a);
    ModelAddedAgreesIff(ix, [a], a);
  }

  // ---- the objects ----

  method FirstNamed(l: seq<Nse>, name: string) returns (i: nat)
    ensures i == IndexOf(l, name)
  {
    i := 0;
    while i < |l| && l[i].name != name
      invariant i <= |l| && forall j :: 0 <= j < i ==> l[j].name != name
    {
      i := i + 1;
    }
  }

  method FirstEqual(l: seq<Nse>, e: Nse) returns (i: nat)
    ensures i == Find(l, e)
  {
    i := 0;
    while i < |l| && l[i] != e
      invariant i <= |l| && forall j :: 0 <= j < i ==> l[j] != e
    {
      i := i + 1;
    }
  }

  /** `NetworkServiceEndpointCache`. */
  class NseCache {
    var nseByNs: map<string, seq<Nse>>
    var networkServiceEndpoints: map<string, Nse>

    ghost function View(): Index
      reads this
    {
      Index(nseByNs, networkServiceEndpoints)
    }

    constructor ()
      ensures Some(View()) == CacheRun([])
    {
      nseByNs, networkServiceEndpoints := map[], map[];
    }

    method Get(service: string) returns (endpoints: seq<Nse>)
      ensures endpoints == At(View().byService, service)
      ensures forall order :: Agrees(View(), order) ==> endpoints == ForService(order, service)
    {
      endpoints := At(nseByNs, service);
    }

    method ResourceAdded(nse: Nse)
      modifies this
      ensures View() == CacheAdded(old(View()), nse)
      ensures networkServiceEndpoints == old(networkServiceEndpoints)[nse.name := nse]
      ensures nse.name !in old(networkServiceEndpoints) ==>
                At(nseByNs, nse.service) == At(old(nseByNs), nse.service) + [nse]
      ensures forall s :: s != nse.service ==> At(nseByNs, s) == At(old(nseByNs), s)
    {
      var endpoints := At(nseByNs, nse.service);
      if nse.name !in networkServiceEndpoints {
        nseByNs := nseByNs[nse.service := endpoints + [nse]];
      } else {
        var i := FirstNamed(endpoints, nse.name);
        if i < |endpoints| {
          nseByNs := nseByNs[nse.service := endpoints[i := nse]];
        }
      }
      networkServiceEndpoints := networkServiceEndpoints[nse.name := nse];
    }

    /** From an exact cache there is no panic (`DeleteAgrees`). */
    method ResourceDeleted(key: string)
      requires !DeletePanics(View(), key)
      modifies this
      ensures View() == CacheDeleted(old(View()), key)
      ensures forall order :: Agrees(old(View()), order) ==> Agrees(View(), Unregistered(order, key))
    {
      hide Agrees, Unregistered;
      ghost var was := View();
      forall order | Agrees(was, order) ensures Agrees(CacheDeleted(was, key), Unregistered(order, key)) {
        DeleteAgrees(was, order, key);
      }
      if key !in networkServiceEndpoints {
        return;
      }
      var nse := networkServiceEndpoints[key];
      var endpoints := At(nseByNs, nse.service);
      var index := 0;
      var i := FirstNamed(endpoints, nse.name);
      if i < |endpoints| {
        index := i;
      }
      endpoints := endpoints[..index] + endpoints[index + 1..];
      if |endpoints| == 0 {
        nseByNs := nseByNs - {nse.service};
      } else {
        nseByNs := nseByNs[nse.service := endpoints];
      }
      networkServiceEndpoints := networkServiceEndpoints - {key};
    }
  }

  /** The endpoint part of the manager's model. */
  class EndpointModel {
    var endpoints: map<string, Nse>
    var networkServices: map<string, seq<Nse>>

    ghost function View(): Index
      reads this
    {
      Index(networkServices, endpoints)
    }

    constructor ()
      ensures View() == ModelRun([])
    {
      endpoints, networkServices := map[], map[];
    }

    method GetNetworkServiceEndpoints(service: string) returns (r: seq<Nse>)
      ensures r == At(View().byService, service)
      ensures forall order :: Agrees(View(), order) ==> r == ForService(order, service)
    {
      r := At(networkServices, service);
    }

    method AddEndpoint(endpoint: Nse)
      modifies this
      ensures View() == ModelAdded(old(View()), endpoint)
      ensures endpoints == old(endpoints)[endpoint.name := endpoint]
      ensures At(networkServices, endpoint.service) == At(old(networkServices), endpoint.service) + [endpoint]
      ensures forall s :: s != endpoint.service ==> At(networkServices, s) == At(old(networkServices), s)
    {
      endpoints := endpoints[endpoint.name := endpoint];
      var services := At(networkServices, endpoint.service);
      networkServices := networkServices[endpoint.service := services + [endpoint]];
    }

    method DeleteEndpoint(name: string) returns (ok: bool)
      modifies this
      ensures ok <==> name in old(endpoints)
      ensures View() == ModelDeleted(old(View()), name)
      ensures forall order :: Agrees(old(View()), order) ==> Agrees(View(), Unregistered(order, name))
    {
      hide Agrees, Unregistered;
      ghost var was := View();
      forall order | Agrees(was, order) ensures Agrees(ModelDeleted(was, name), Unregistered(order, name)) {
        DeleteAgrees(was, order, name);
      }
      if name !in endpoints {
        return false;
      }
      var endpoint := endpoints[name];
      var services := At(networkServices, endpoint.service);
      if |services| > 1 {
        var i := FirstEqual(services, endpoint);
        if i < |services| {
          services := services[..i] + services[i + 1..];
          networkServices := networkServices[endpoint.service := services];
        }
      } else {
        networkServices := networkServices - {endpoint.service};
      }
      endpoints := endpoints - {name};
      return true;
    }
  }
}
