/**
 * The SR-IOV controllers: configuration changes become messages, and messages become groups of
 * virtual functions by network service.
 */
module Sriov {
  import opened Options

  datatype VF = VF(networkService: string, pciAddr: string, parentDevice: string, vfLocalID: int, vfioDevice: string)

  type Config = map<string, VF>

  type Groups = map<string, Config>

  datatype Message = AddEntry(key: string, vf: VF) | DeleteEntry(key: string, vf: VF) | DeleteAll

  /** The entries of one network service. */
  function Group(c: Config, service: string): Config {
    map k | k in c && c[k].networkService == service :: c[k]
  }

  function At(g: Groups, service: string): Config {
    if service in g then g[service] else map[]
  }

  /** The groups are the entries grouped by network service from scratch, and none is empty. */
  ghost predicate IsGrouping(g: Groups, c: Config) {
    && (forall s :: At(g, s) == Group(c, s))
    && (forall s :: s in g ==> g[s] != map[])
  }

  // ---- the service controller ----

  function Added(g: Groups, key: string, vf: VF): Groups {
    g[vf.networkService := At(g, vf.networkService)[key := vf]]
  }

  function Deleted(g: Groups, key: string, vf: VF): Groups {
    var s := vf.networkService;
    if s !in g then g
    else if g[s] - {key} == map[] then g - {s}
    else g[s := g[s] - {key}]
  }

  function Handled(g: Groups, m: Message): Groups {
    match m
    case AddEntry(key, vf) => Added(g, key, vf)
    case DeleteEntry(key, vf) => Deleted(g, key, vf)
    case DeleteAll => map[]
  }

  function HandledAll(g: Groups, ms: seq<Message>): Groups {
    if ms == [] then g else Handled(HandledAll(g, ms[..|ms| - 1]), ms[|ms| - 1])
  }

  class ServiceController {
    var sriovNetServices: Groups

    constructor ()
      ensures sriovNetServices == map[]
    {
      sriovNetServices := map[];
    }

    /** `processAdd`. */
    method ProcessAdd(key: string, vf: VF)
      modifies this
      ensures sriovNetServices == Added(old(sriovNetServices), key, vf)
    {
      if vf.networkService !in sriovNetServices {
        sriovNetServices := sriovNetServices[vf.networkService := map[key := vf]];
        assert map[key := vf][key := vf] == map[][key := vf];
      }
      sriovNetServices := sriovNetServices[vf.networkService := sriovNetServices[vf.networkService][key := vf]];
    }

    /** `processDeleteEntry`. */
    method ProcessDeleteEntry(key: string, vf: VF)
      modifies this
      ensures sriovNetServices == Deleted(old(sriovNetServices), key, vf)
    {
      if vf.networkService !in sriovNetServices {
        return;
      }
      var vfs := sriovNetServices[vf.networkService] - {key};
      sriovNetServices := sriovNetServices[vf.networkService := vfs];
      if |vfs| == 0 {
        assert vfs == map[];
        sriovNetServices := sriovNetServices - {vf.networkService};
      }
    }

    /** `Stop`. */
    method Stop()
      modifies this
      ensures sriovNetServices == map[]
    {
      sriovNetServices := map[];
    }
  }

  // ---- one message ----

  lemma AddGroups(g: Groups, c: Config, key: string, vf: VF)
    requires IsGrouping(g, c) && (key in c ==> c[key].networkService == vf.networkService)
    ensures IsGrouping(Added(g, key, vf), c[key := vf])
  {
    forall s ensures At(Added(g, key, vf), s) == Group(c[key := vf], s) {
      assert At(g, s) == Group(c, s);
      GroupOfUpdate(c, key, vf, s);
    }
    assert key in Added(g, key, vf)[vf.networkService];
  }

  lemma GroupOfUpdate(c: Config, key: string, vf: VF, s: string)
    requires key in c ==> c[key].networkService == vf.networkService
    ensures Group(c[key := vf], s) == if s == vf.networkService then Group(c, s)[key := vf] else Group(c, s)
  {
  }

  lemma DeleteGroups(g: Groups, c: Config, key: string)
    requires IsGrouping(g, c) && key in c
    ensures IsGrouping(Deleted(g, key, c[key]), c - {key})
  {
    var g' := Deleted(g, key, c[key]);
    assert key in Group(c, c[key].networkService);
    assert At(g, c[key].networkService) == Group(c, c[key].networkService);
    forall s ensures At(g', s) == Group(c - {key}, s) {
      assert At(g, s) == Group(c, s);
      GroupOfRemoval(c, key, s);
    }
  }

  lemma GroupOfRemoval(c: Config, key: string, s: string)
    requires key in c
    ensures Group(c - {key}, s) == if s == c[key].networkService then Group(c, s) - {key} else Group(c, s)
  {
  }

  /** A grouping holds the entries and nothing else, so entries with equal groupings are equal. */
  lemma GroupingIsExact(g: Groups, c: Config, d: Config)
    requires IsGrouping(g, c) && IsGrouping(g, d)
    ensures c == d
  {
    EntriesInGroups(c, d, g);
    EntriesInGroups(d, c, g);
  }

  lemma EntriesInGroups(c: Config, d: Config, g: Groups)
    requires IsGrouping(g, c) && IsGrouping(g, d)
    ensures forall k :: k in c ==> k in d && d[k] == c[k]
  {
    forall k | k in c ensures k in d && d[k] == c[k] {
      var s := c[k].networkService;
      assert k in Group(c, s) && Group(c, s) == At(g, s) == Group(d, s);
    }
  }

  // ---- the messages of a configuration change ----

  /** Messages that add exactly the entries of `c`, in some order. */
  ghost predicate Adds(ms: seq<Message>, c: Config) {
    && (forall i :: 0 <= i < |ms| ==> ms[i].AddEntry? && ms[i].key in c && ms[i].vf == c[ms[i].key])
    && (forall k :: k in c ==> exists i :: 0 <= i < |ms| && ms[i] == AddEntry(k, c[k]))
  }

  ghost predicate Deletes(ms: seq<Message>, c: Config) {
    && (forall i :: 0 <= i < |ms| ==> ms[i].DeleteEntry? && ms[i].key in c && ms[i].vf == c[ms[i].key])
    && (forall i, j :: 0 <= i < j < |ms| ==> ms[i].key != ms[j].key)
    && (forall k :: k in c ==> exists i :: 0 <= i < |ms| && ms[i] == DeleteEntry(k, c[k]))
  }

  /** `diffMap`, as a function. */
  function Diff(a: Config, b: Config): Config {
    a - b.Keys
  }

  /** `diffMap`: the entries of the first map whose keys the second does not have. */
  method DiffMap(m1: Config, m2: Config) returns (r: Config)
    ensures r == Diff(m1, m2)
  {
    r := map[];
    var pending := m1.Keys;
    while pending != {}
      invariant pending <= m1.Keys
      invariant forall k :: k in r <==> k in m1 && k !in pending && k !in m2
      invariant forall k :: k in r ==> r[k] == m1[k]
      decreases pending
    {
      var k :| k in pending;
      if k !in m2 {
        r := r[k := m1[k]];
      }
      pending := pending - {k};
    }
  }

  /** Sends an add message for every entry, in whatever order the map yields them. */
  method SendAdds(c: Config) returns (ms: seq<Message>)
    ensures Adds(ms, c)
  {
    ms := [];
    var pending := c.Keys;
    while pending != {}
      invariant pending <= c.Keys
      invariant forall i :: 0 <= i < |ms| ==> ms[i].AddEntry? && ms[i].key in c && ms[i].vf == c[ms[i].key]
      invariant forall k :: k in c && k !in pending ==> exists i :: 0 <= i < |ms| && ms[i] == AddEntry(k, c[k])
      decreases pending
    {
      var k :| k in pending;
      ghost var before := ms;
      ms := ms + [AddEntry(k, c[k])];
      forall x | x in c && x !in pending - {k} ensures exists i :: 0 <= i < |ms| && ms[i] == AddEntry(x, c[x]) {
        if x == k {
          assert ms[|before|] == AddEntry(x, c[x]);
        } else {
          var i :| 0 <= i < |before| && before[i] == AddEntry(x, c[x]);
          assert ms[i] == AddEntry(x, c[x]);
        }
      }
      pending := pending - {k};
    }
  }

  method SendDeletes(c: Config) returns (ms: seq<Message>)
    ensures Deletes(ms, c)
  {
    ms := [];
    var pending := c.Keys;
    while pending != {}
      invariant pending <= c.Keys
      invariant forall i :: 0 <= i < |ms| ==>
                  ms[i].DeleteEntry? && ms[i].key in c && ms[i].key !in pending && ms[i].vf == c[ms[i].key]
      invariant forall i, j :: 0 <= i < j < |ms| ==> ms[i].key != ms[j].key
      invariant forall k :: k in c && k !in pending ==> exists i :: 0 <= i < |ms| && ms[i] == DeleteEntry(k, c[k])
      decreases pending
    {
      var k :| k in pending;
      ghost var before := ms;
      ms := ms + [DeleteEntry(k, c[k])];
      forall x | x in c && x !in pending - {k} ensures exists i :: 0 <= i < |ms| && ms[i] == DeleteEntry(x, c[x]) {
        if x == k {
          assert ms[|before|] == DeleteEntry(x, c[x]);
        } else {
          var i :| 0 <= i < |before| && before[i] == DeleteEntry(x, c[x]);
          assert ms[i] == DeleteEntry(x, c[x]);
        }
      }
      pending := pending - {k};
    }
  }

  function KeysOf(ms: seq<Message>): set<string>
    requires forall i :: 0 <= i < |ms| ==> !ms[i].DeleteAll?
  {
    set i | 0 <= i < |ms| :: ms[i].key
  }

  lemma {:induction false} DeletesGroup(g: Groups, c: Config, d: Config, ms: seq<Message>)
    requires IsGrouping(g, c) && (forall k :: k in d ==> k in c && c[k] == d[k])
    requires forall i :: 0 <= i < |ms| ==> ms[i].DeleteEntry? && ms[i].key in d && ms[i].vf == d[ms[i].key]
    requires forall i, j :: 0 <= i < j < |ms| ==> ms[i].key != ms[j].key
    ensures IsGrouping(HandledAll(g, ms), c - KeysOf(ms))
    decreases |ms|
  {
    if ms == [] {
      assert c - {} == c;
    } else {
      hide IsGrouping, Deleted;
      var n := |ms| - 1;
      var init, last := ms[..n], ms[n];
      DeletesGroup(g, c, d, init);
      assert last.key !in KeysOf(init);
      DeleteGroups(HandledAll(g, init), c - KeysOf(init), last.key);
      KeysOfSnoc(ms);
      assert c - KeysOf(ms) == c - KeysOf(init) - {last.key};
    }
  }

  ghost predicate NoEmptyGroup(g: Groups) {
    forall s :: s in g ==> g[s] != map[]
  }

  /** Adding entries lays them over each group, whatever the groups hold and in any order. */
  lemma {:induction false} AddsLayOver(g: Groups, d: Config, ms: seq<Message>)
    requires forall i :: 0 <= i < |ms| ==> ms[i].AddEntry? && ms[i].key in d && ms[i].vf == d[ms[i].key]
    ensures forall s :: At(HandledAll(g, ms), s) == At(g, s) + Group(Restricted(d, KeysOf(ms)), s)
    ensures NoEmptyGroup(g) ==> NoEmptyGroup(HandledAll(g, ms))
    decreases |ms|
  {
    if ms != [] {
      var n := |ms| - 1;
      var init, last := ms[..n], ms[n];
      AddsLayOver(g, d, init);
      KeysOfSnoc(ms);
      forall s ensures At(HandledAll(g, ms), s) == At(g, s) + Group(Restricted(d, KeysOf(ms)), s) {
        AddLaysOver(g, HandledAll(g, init), d, KeysOf(init), last.key, s);
      }
      AddedNotEmpty(HandledAll(g, init), last.key, last.vf);
    }
  }

  lemma AddLaysOver(g: Groups, g': Groups, d: Config, keys: set<string>, key: string, s: string)
    requires key in d && At(g', s) == At(g, s) + Group(Restricted(d, keys), s)
    ensures At(Added(g', key, d[key]), s) == At(g, s) + Group(Restricted(d, keys + {key}), s)
  {
    hide Group, Restricted;
    var before := Restricted(d, keys);
    OneMoreEntry(d, keys, key);
    GroupOfUpdate(before, key, d[key], s);
    LaidOverOne(At(g, s), Group(before, s), key, d[key]);
  }

  lemma OneMoreEntry(d: Config, keys: set<string>, key: string)
    requires key in d
    ensures Restricted(d, keys + {key}) == Restricted(d, keys)[key := d[key]]
    ensures key in Restricted(d, keys) ==> Restricted(d, keys)[key] == d[key]
  {
  }

  lemma LaidOverOne(a: Config, b: Config, key: string, vf: VF)
    ensures (a + b)[key := vf] == a + b[key := vf]
  {
  }

  lemma AddedNotEmpty(g: Groups, key: string, vf: VF)
    ensures NoEmptyGroup(g) ==> NoEmptyGroup(Added(g, key, vf))
  {
    assert key in Added(g, key, vf)[vf.networkService];
  }

  lemma RestrictedKeys(c: Config, keys: set<string>)
    ensures Restricted(c, keys).Keys <= c.Keys
  {
  }

  lemma GroupOfUnion(c: Config, d: Config, s: string)
    requires c.Keys !! d.Keys
    ensures Group(c + d, s) == Group(c, s) + Group(d, s)
  {
  }

  /** Adding entries under new keys. */
  lemma AddsGroup(g: Groups, c: Config, d: Config, ms: seq<Message>)
    requires IsGrouping(g, c) && c.Keys !! d.Keys
    requires forall i :: 0 <= i < |ms| ==> ms[i].AddEntry? && ms[i].key in d && ms[i].vf == d[ms[i].key]
    ensures IsGrouping(HandledAll(g, ms), c + Restricted(d, KeysOf(ms)))
  {
    hide At, Group, KeysOf, HandledAll, Restricted;
    AddsLayOver(g, d, ms);
    assert NoEmptyGroup(g);
    var more := Restricted(d, KeysOf(ms));
    assert more.Keys <= d.Keys by { RestrictedKeys(d, KeysOf(ms)); }
    var g' := HandledAll(g, ms);
    forall s ensures At(g', s) == Group(c + more, s) {
      assert At(g', s) == At(g, s) + Group(more, s);
      assert At(g, s) == Group(c, s);
      GroupOfUnion(c, more, s);
    }
  }

  lemma KeysOfSnoc(ms: seq<Message>)
    requires ms != [] && forall i :: 0 <= i < |ms| ==> !ms[i].DeleteAll?
    ensures KeysOf(ms) == KeysOf(ms[..|ms| - 1]) + {ms[|ms| - 1].key}
  {
    var n := |ms| - 1;
    assert ms[n].key in KeysOf(ms);
    forall k | k in KeysOf(ms[..n]) ensures k in KeysOf(ms) {
      var i :| 0 <= i < n && ms[..n][i].key == k;
      assert ms[i].key == k;
    }
    forall k | k in KeysOf(ms) ensures k in KeysOf(ms[..n]) || k == ms[n].key {
      var i :| 0 <= i < |ms| && ms[i].key == k;
      if i < n {
        assert ms[..n][i].key == k;
      }
    }
  }

  function Restricted(c: Config, keys: set<string>): Config {
    map k | k in c && k in keys :: c[k]
  }

  lemma {:induction false} HandledConcat(g: Groups, a: seq<Message>, b: seq<Message>)
    ensures HandledAll(g, a + b) == HandledAll(HandledAll(g, a), b)
    decreases |b|
  {
    hide Handled;
    if b == [] {
      assert a + b == a;
    } else {
      var n := |b| - 1;
      HandledConcat(g, a, b[..n]);
      assert (a + b)[..|a| + n] == a + b[..n];
    }
  }

  /** What an update really leads to: old values under kept keys, new entries, nothing else. */
  function Kept(old': Config, new': Config): Config {
    Restricted(old', new'.Keys) + Diff(new', old')
  }

  predicate SameUnderCommonKeys(old': Config, new': Config) {
    forall k :: k in old' && k in new' ==> old'[k] == new'[k]
  }

  /**
   * An update regroups exactly what `Kept` says, in whatever order its messages go out; that is the
   * new configuration if and only if no entry changed under its key.
   */
  lemma UpdateGroups(g: Groups, old': Config, new': Config, deletes: seq<Message>, adds: seq<Message>)
    requires IsGrouping(g, old') && Deletes(deletes, Diff(old', new')) && Adds(adds, Diff(new', old'))
    ensures IsGrouping(HandledAll(g, deletes + adds), Kept(old', new'))
    ensures IsGrouping(HandledAll(g, deletes + adds), new') <==> SameUnderCommonKeys(old', new')
  {
    hide IsGrouping, HandledAll, Restricted, Diff, Adds, Deletes, SameUnderCommonKeys;
    DeletedGone(g, old', new', deletes);
    AddedNew(HandledAll(g, deletes), old', new', adds);
    HandledConcat(g, deletes, adds);
    KeptIsNew(old', new');
    var g2 := HandledAll(g, deletes + adds);
    if IsGrouping(g2, new') {
      GroupingIsExact(g2, Kept(old', new'), new');
    }
  }

  lemma DeletedGone(g: Groups, old': Config, new': Config, deletes: seq<Message>)
    requires IsGrouping(g, old') && Deletes(deletes, Diff(old', new'))
    ensures IsGrouping(HandledAll(g, deletes), Restricted(old', new'.Keys))
  {
    hide IsGrouping, HandledAll;
    var gone := Diff(old', new');
    DeletesGroup(g, old', gone, deletes);
    assert KeysOf(deletes) == gone.Keys;
    assert old' - gone.Keys == Restricted(old', new'.Keys);
  }

  lemma AddedNew(g: Groups, old': Config, new': Config, adds: seq<Message>)
    requires IsGrouping(g, Restricted(old', new'.Keys)) && Adds(adds, Diff(new', old'))
    ensures IsGrouping(HandledAll(g, adds), Kept(old', new'))
  {
    hide IsGrouping, HandledAll;
    var more := Diff(new', old');
    AddsGroup(g, Restricted(old', new'.Keys), more, adds);
    assert KeysOf(adds) == more.Keys;
    assert Restricted(more, more.Keys) == more;
  }

  lemma KeptIsNew(old': Config, new': Config)
    ensures Kept(old', new') == new' <==> SameUnderCommonKeys(old', new')
  {
    if Kept(old', new') == new' {
      forall k | k in old' && k in new' ensures old'[k] == new'[k] {
        assert k in Restricted(old', new'.Keys) && k !in Diff(new', old');
      }
    }
  }

  /** An entry that moves to another service under its key stays in its old group. */
  lemma ChangedEntryStays(g: Groups, deletes: seq<Message>, adds: seq<Message>)
    requires IsGrouping(g, map["0000:01" := VF("vpn", "0000:01", "eth0", 0, "vfio0")])
    requires var was := map["0000:01" := VF("vpn", "0000:01", "eth0", 0, "vfio0")];
             var now := map["0000:01" := VF("firewall", "0000:01", "eth0", 0, "vfio0")];
             Deletes(deletes, Diff(was, now)) && Adds(adds, Diff(now, was))
    ensures IsGrouping(HandledAll(g, deletes + adds), map["0000:01" := VF("vpn", "0000:01", "eth0", 0, "vfio0")])
    ensures !IsGrouping(HandledAll(g, deletes + adds), map["0000:01" := VF("firewall", "0000:01", "eth0", 0, "vfio0")])
  {
    hide IsGrouping;
    var was := map["0000:01" := VF("vpn", "0000:01", "eth0", 0, "vfio0")];
    var now := map["0000:01" := VF("firewall", "0000:01", "eth0", 0, "vfio0")];
    UpdateGroups(g, was, now, deletes, adds);
    assert Kept(was, now) == was;
    assert "0000:01" in was && "0000:01" in now;
  }

  // ---- the configuration controller ----

  datatype Change = NewConfig(c: Config) | UpdatedConfig(c: Config) | DeletedConfig | Unreadable

  /** The messages that a change of the configuration map may send. */
  ghost predicate Sends(old': Config, ch: Change, ms: seq<Message>) {
    match ch
    case NewConfig(c) => Adds(ms, c)
    case UpdatedConfig(c) =>
      exists deletes, adds :: Deletes(deletes, Diff(old', c)) && Adds(adds, Diff(c, old')) && ms == deletes + adds
    case DeletedConfig => ms == [DeleteAll]
    case Unreadable => ms == []
  }

  function ConfigAfter(old': Config, ch: Change): Config {
    match ch
    case NewConfig(c) => c
    case UpdatedConfig(c) => c
    case DeletedConfig => map[]
    case Unreadable => old'
  }

  /** `processConfigMap`: one entry that does not parse fails the whole map. */
  method ProcessConfigMap(data: map<string, string>, parse: string -> Option<VF>) returns (r: Option<Config>)
    ensures r.None? <==> exists k :: k in data && parse(data[k]).None?
    ensures r.Some? ==> r.value.Keys == data.Keys && forall k :: k in data ==> parse(data[k]) == Some(r.value[k])
  {
    var vfs: Config := map[];
    var pending := data.Keys;
    while pending != {}
      invariant pending <= data.Keys && vfs.Keys == data.Keys - pending
      invariant forall k :: k in vfs ==> parse(data[k]) == Some(vfs[k])
      decreases pending
    {
      var k :| k in pending;
      var vf := parse(data[k]);
      if vf.None? {
        return None;
      }
      vfs := vfs[k := vf.value];
      pending := pending - {k};
    }
    return Some(vfs);
  }

  class ConfigController {
    var vfs: Config

    constructor ()
      ensures vfs == map[]
    {
      vfs := map[];
    }

    /** `processConfigMapAdd`, on the result of `processConfigMap`. */
    method ProcessConfigMapAdd(parsed: Option<Config>) returns (ms: seq<Message>)
      modifies this
      ensures var ch := if parsed.Some? then NewConfig(parsed.value) else Unreadable;
              vfs == ConfigAfter(old(vfs), ch) && Sends(old(vfs), ch, ms)
    {
      if parsed.None? {
        return [];
      }
      vfs := parsed.value;
      ms := SendAdds(vfs);
    }

    /** `processConfigMapUpdate`, on the result of `processConfigMap`. */
    method ProcessConfigMapUpdate(parsed: Option<Config>) returns (ms: seq<Message>)
      modifies this
      ensures var ch := if parsed.Some? then UpdatedConfig(parsed.value) else Unreadable;
              vfs == ConfigAfter(old(vfs), ch) && Sends(old(vfs), ch, ms)
    {
      if parsed.None? {
        return [];
      }
      var oldConfig := vfs;
      vfs := parsed.value;
      var toDelete := DiffMap(oldConfig, vfs);
      var toAdd := DiffMap(vfs, oldConfig);
      var deletes := SendDeletes(toDelete);
      var adds := SendAdds(toAdd);
      ms := deletes + adds;
    }

    /** `processConfigMapDelete`. */
    method ProcessConfigMapDelete() returns (ms: seq<Message>)
      modifies this
      ensures vfs == ConfigAfter(old(vfs), DeletedConfig) && Sends(old(vfs), DeletedConfig, ms)
    {
      vfs := map[];
      ms := [DeleteAll];
    }
  }

  // ---- histories ----

  datatype System = System(config: Config, groups: Groups)

  ghost predicate Step(s: System, ch: Change, s': System) {
    && s'.config == ConfigAfter(s.config, ch)
    && exists ms :: Sends(s.config, ch, ms) && s'.groups == HandledAll(s.groups, ms)
  }

  /** Every entry is still there and serves the same network service. */
  predicate Extends(old': Config, c: Config) {
    forall k :: k in old' ==> k in c && c[k].networkService == old'[k].networkService
  }

  /**
   * A map that is added keeps what an earlier one left, as it does where there was none; an update
   * keeps its entries under their keys.
   */
  predicate Orderly(old': Config, ch: Change) {
    match ch
    case NewConfig(c) => Extends(old', c)
    case UpdatedConfig(c) => SameUnderCommonKeys(old', c)
    case DeletedConfig => true
    case Unreadable => true
  }

  /** A change leaves the groups exact if and only if it is orderly. */
  lemma StepRegroupsIff(s: System, ch: Change, s': System)
    requires IsGrouping(s.groups, s.config) && Step(s, ch, s')
    ensures IsGrouping(s'.groups, s'.config) <==> Orderly(s.config, ch)
  {
    hide IsGrouping, Diff, Adds, Deletes, Extends, SameUnderCommonKeys;
    var ms :| Sends(s.config, ch, ms) && s'.groups == HandledAll(s.groups, ms);
    match ch
    case NewConfig(c) =>
      NewConfigGroupsIff(s.groups, s.config, c, ms);
    case UpdatedConfig(c) =>
      var deletes, adds :| Deletes(deletes, Diff(s.config, c)) && Adds(adds, Diff(c, s.config)) && ms == deletes + adds;
      UpdateGroups(s.groups, s.config, c, deletes, adds);
    case DeletedConfig =>
      assert HandledAll(s.groups, ms) == map[];
      NothingGrouped();
    case Unreadable =>
      assert HandledAll(s.groups, ms) == s.groups;
  }

  lemma NothingGrouped()
    ensures IsGrouping(map[], map[])
  {
  }

  /** A configuration map that is added while there are groups: exact if and only if it extends the old one. */
  lemma NewConfigGroupsIff(g: Groups, old': Config, c: Config, ms: seq<Message>)
    requires IsGrouping(g, old') && Adds(ms, c)
    ensures IsGrouping(HandledAll(g, ms), c) <==> Extends(old', c)
  {
    AddsLayOver(g, c, ms);
    assert KeysOf(ms) == c.Keys;
    assert Restricted(c, c.Keys) == c;
    assert NoEmptyGroup(g);
    var g' := HandledAll(g, ms);
    assert IsGrouping(g', c) <==> forall s :: At(g', s) == Group(c, s);
    if Extends(old', c) {
      forall s ensures At(g', s) == Group(c, s) {
        LaidOverIff(old', c, s);
        assert At(g', s) == At(g, s) + Group(c, s) && At(g, s) == Group(old', s);
      }
    }
    if IsGrouping(g', c) {
      forall k | k in old' ensures k in c && c[k].networkService == old'[k].networkService {
        var s := old'[k].networkService;
        LaidOverIff(old', c, s);
        assert At(g', s) == At(g, s) + Group(c, s) && At(g, s) == Group(old', s);
        assert k in Group(old', s);
      }
    }
  }

  lemma LaidOverIff(old': Config, c: Config, s: string)
    ensures Group(old', s) + Group(c, s) == Group(c, s) <==> forall k :: k in Group(old', s) ==> k in Group(c, s)
  {
    if Group(old', s) + Group(c, s) == Group(c, s) {
      forall k | k in Group(old', s) ensures k in Group(c, s) {
        assert k in Group(old', s) + Group(c, s);
      }
    }
  }

  ghost predicate IsHistory(states: seq<System>, changes: seq<Change>) {
    && |states| == |changes| + 1 && states[0] == System(map[], map[])
    && forall i :: 0 <= i < |changes| ==> Step(states[i], changes[i], states[i + 1])
  }

  /** Incremental grouping equals regrouping all along a history if and only if every change is orderly. */
  lemma HistoryRegroupsIff(states: seq<System>, changes: seq<Change>)
    requires IsHistory(states, changes)
    ensures (forall i :: 0 <= i <= |changes| ==> IsGrouping(states[i].groups, states[i].config)) <==>
            forall i :: 0 <= i < |changes| ==> Orderly(states[i].config, changes[i])
  {
    hide IsGrouping, Step, Orderly;
    if forall i :: 0 <= i < |changes| ==> Orderly(states[i].config, changes[i]) {
      forall i | 0 <= i <= |changes| ensures IsGrouping(states[i].groups, states[i].config) {
        HistoryRegroups(states, changes, i);
      }
    }
    if forall i :: 0 <= i <= |changes| ==> IsGrouping(states[i].groups, states[i].config) {
      forall i | 0 <= i < |changes| ensures Orderly(states[i].config, changes[i]) {
        assert IsGrouping(states[i].groups, states[i].config) && IsGrouping(states[i + 1].groups, states[i + 1].config);
        StepRegroupsIff(states[i], changes[i], states[i + 1]);
      }
    }
  }

  lemma {:induction false} HistoryRegroups(states: seq<System>, changes: seq<Change>, i: nat)
    requires IsHistory(states, changes) && i <= |changes|
    requires forall j :: 0 <= j < i ==> Orderly(states[j].config, changes[j])
    ensures IsGrouping(states[i].groups, states[i].config)
  {
    hide IsGrouping, Step, Orderly;
    if i == 0 {
      NothingGrouped();
    } else {
      HistoryRegroups(states, changes, i - 1);
      StepRegroupsIff(states[i - 1], changes[i - 1], states[i]);
    }
  }
}
