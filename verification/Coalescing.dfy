/**
 * Giving networks back: `ReleasePrefixes` joins sibling networks, level by level and pass by pass,
 * until nothing joins. Go iterates its maps in any order; here each choice is arbitrary.
 */
module Coalescing {
  import opened BigInt
  import opened IPNets
  import opened Spaces

  /** Networks by prefix length. */
  type Levels = map<int, seq<IPNet>>

  function At(m: Levels, k: int): seq<IPNet> {
    if k in m then m[k] else []
  }

  /** The networks of length `k` during a pass: those already moved and those still to come. */
  function Level(n: Levels, m: Levels, pending: set<int>, k: int): seq<IPNet> {
    At(n, k) + (if k in pending then At(m, k) else [])
  }

  /** All the networks of a map of levels. */
  function Nets(m: Levels): set<IPNet> {
    set k, p | k in m && p in m[k] :: p
  }

  function AtLen(s: set<IPNet>, k: int): set<IPNet> {
    set p | p in s && p.len == k
  }

  /** The levels of a pass hold exactly the networks `c`, each once and under its own length. */
  ghost predicate Holds(n: Levels, m: Levels, pending: set<int>, c: set<IPNet>) {
    forall k :: Distinct(Level(n, m, pending, k)) && Elems(Level(n, m, pending, k)) == AtLen(c, k)
  }

  // ---- removeDuplicates ----

  function Dedup(s: seq<IPNet>): seq<IPNet> {
    if s == [] then []
    else
      var init, last := s[..|s| - 1], s[|s| - 1];
      if last in init then Dedup(init) else Dedup(init) + [last]
  }

  lemma {:induction false} DedupKeepsElems(s: seq<IPNet>)
    ensures Distinct(Dedup(s)) && Elems(Dedup(s)) == Elems(s)
  {
    if s != [] {
      DedupKeepsElems(s[..|s| - 1]);
      assert s == s[..|s| - 1] + [s[|s| - 1]];
    }
  }

  /** `removeDuplicates`: the first occurrence of each network, in order. */
  method RemoveDuplicates(elements: seq<IPNet>) returns (result: seq<IPNet>)
    ensures result == Dedup(elements)
  {
    var encountered: set<IPNet> := {};
    result := [];
    for v := 0 to |elements|
      invariant encountered == Elems(elements[..v])
      invariant result == Dedup(elements[..v])
    {
      assert elements[..v + 1][..v] == elements[..v];
      if elements[v] !in encountered {
        encountered := encountered + {elements[v]};
        result := result + [elements[v]];
      }
    }
    assert elements[..|elements|] == elements;
  }

  // ---- one level ----

  /** The key under which `base` remembers a network: its address with the index bit cleared. */
  function BaseIp(p: IPNet): IPNet {
    IPNet(ClearBit(p.base, p.host), p.len, p.host)
  }

  /** Joining two siblings keeps the pool and its addresses, with one network less. */
  lemma JoinKeepsSpace(s: set<IPNet>, p: IPNet, q: IPNet, w: nat)
    requires Pool(s, w) && p in s && q in s && Siblings(p, q)
    ensures Pool(s - {p, q} + {Parent(p)}, w)
    ensures Addrs(s - {p, q} + {Parent(p)}) == Addrs(s)
    ensures Parent(p) !in s && |s - {p, q} + {Parent(p)}| == |s| - 1
    ensures p.len == q.len
  {
    hide Pool, Addrs, Block, Canonical;
    var r, rest := Parent(p), s - {p, q};
    SiblingsInPool(s, p, q, w);
    assert s == {p, q} + rest;
    PartsOfPool({p, q}, rest, w);
    AddrsOfUnion({p, q}, rest);
    AddrsOfOne(r);
    PoolOfUnion({r}, rest, w);
    AddrsOfUnion({r}, rest);
    assert {r} + rest == rest + {r};
    NotBothLevels(s, p, w);
  }

  lemma SiblingsInPool(s: set<IPNet>, p: IPNet, q: IPNet, w: nat)
    requires Pool(s, w) && p in s && q in s && Siblings(p, q)
    ensures Pool({Parent(p)}, w) && Addrs({p, q}) == Block(Parent(p)) && p.len == q.len
  {
    hide Addrs, Block;
    assert OfWidth(p, w) && OfWidth(q, w);
    SiblingsFormParent(p, q);
    AddrsOfUnion({p}, {q});
    assert {p} + {q} == {p, q};
    AddrsOfOne(p);
    AddrsOfOne(q);
  }

  /** `d` is `s` after `n` joins. */
  ghost predicate Joined(s: set<IPNet>, d: set<IPNet>, n: nat, w: nat) {
    && Pool(d, w)
    && Addrs(d) == Addrs(s)
    && |d| + n == |s|
    && (n == 0 ==> d == s)
  }

  lemma JoinedPool(s: set<IPNet>, d: set<IPNet>, n: nat, w: nat)
    requires Joined(s, d, n, w)
    ensures Pool(d, w)
  {
  }

  lemma JoinOnce(s: set<IPNet>, d: set<IPNet>, n: nat, p: IPNet, q: IPNet, w: nat)
    requires Joined(s, d, n, w) && p in d && q in d && Siblings(p, q)
    ensures Joined(s, d - {p, q} + {Parent(p)}, n + 1, w)
  {
    hide Pool, Addrs, Parent;
    JoinKeepsSpace(d, p, q, w);
  }

  /** A network and its parent overlap, so they are not in one pool. */
  lemma NotBothLevels(s: set<IPNet>, p: IPNet, w: nat)
    requires Pool(s, w) && p in s && p.len > 0
    ensures Parent(p) !in s
  {
    ParentHasHalf(p);
    Halves(Parent(p));
    assert p.base in Block(p) && p.base in Block(Parent(p));
  }

  lemma OneAtTheTop(p: IPNet, q: IPNet, w: nat)
    requires OfWidth(p, w) && OfWidth(q, w) && p.len == q.len == 0
    ensures p == q
  {
  }

  lemma SameBaseIp(p: IPNet, q: IPNet)
    requires p.len > 0
    ensures BaseIp(p) == BaseIp(q) <==> q.len > 0 && p.len == q.len && Parent(p) == Parent(q)
  {
  }

  lemma LevelHasParent(level: seq<IPNet>, len: nat, w: nat)
    requires Distinct(level) && Pool(Elems(level), w) && |level| >= 2
    requires forall p :: p in level ==> p.len == len
    ensures len > 0
  {
    assert level[0] in Elems(level) && level[1] in Elems(level);
    if len == 0 {
      OneAtTheTop(level[0], level[1], w);
    }
  }

  /** The networks of a level while it is being merged. */
  ghost predicate MergeState(d: set<IPNet>, base: map<IPNet, IPNet>, parents: seq<IPNet>, pending: seq<IPNet>,
                             len: nat) {
    && d == base.Values + Elems(parents) + Elems(pending)
    && Distinct(parents) && Distinct(pending)
    && (forall p :: p in parents ==> p.len + 1 == len)
    && (forall p :: p in pending ==> p.len == len && p !in base.Values)
    && (forall b :: b in base ==> BaseIp(base[b]) == b && base[b].len == len)
  }

  lemma MergeStart(level: seq<IPNet>, len: nat, w: nat)
    requires Pool(Elems(level), w) && Distinct(level) && forall p :: p in level ==> p.len == len
    ensures MergeState(Elems(level), map[], [], level[0..], len)
    ensures Joined(Elems(level), Elems(level), 0, w)
  {
    assert level[0..] == level;
  }

  lemma MergeEnd(d: set<IPNet>, base: map<IPNet, IPNet>, parents: seq<IPNet>, pending: seq<IPNet>, len: nat)
    requires MergeState(d, base, parents, pending, len) && pending == []
    ensures d == base.Values + Elems(parents) && Distinct(parents)
    ensures forall p :: p in parents ==> p.len + 1 == len
    ensures forall b :: b in base ==> BaseIp(base[b]) == b && base[b].len == len
  {
  }

  lemma MergeKeep(d: set<IPNet>, base: map<IPNet, IPNet>, parents: seq<IPNet>, pending: seq<IPNet>, len: nat)
    requires MergeState(d, base, parents, pending, len) && pending != [] && BaseIp(pending[0]) !in base
    ensures MergeState(d, base[BaseIp(pending[0]) := pending[0]], parents, pending[1..], len)
  {
    var p := pending[0];
    var base' := base[BaseIp(p) := p];
    assert pending == [p] + pending[1..];
    assert base'.Values == base.Values + {p} by {
      assert base'[BaseIp(p)] == p;
      forall q | q in base.Values ensures q in base'.Values {
        var b :| b in base && base[b] == q;
        assert base'[b] == q;
      }
    }
  }

  lemma MergeJoin(d: set<IPNet>, base: map<IPNet, IPNet>, parents: seq<IPNet>, pending: seq<IPNet>, len: nat,
                  w: nat)
    requires MergeState(d, base, parents, pending, len) && pending != [] && BaseIp(pending[0]) in base
    requires Pool(d, w) && len > 0
    ensures var p, q := pending[0], base[BaseIp(pending[0])];
            && p in d && q in d && Siblings(p, q)
            && MergeState(d - {p, q} + {Parent(p)}, base - {BaseIp(p)}, parents + [Parent(p)], pending[1..], len)
  {
    hide Pool, Block, Canonical, ClearBit;
    var p, q := pending[0], base[BaseIp(pending[0])];
    var base' := base - {BaseIp(p)};
    assert pending == [p] + pending[1..];
    assert q in base.Values && p in pending;
    SameBaseIp(p, q);
    NotBothLevels(d, p, w);
    forall x | x in base.Values && x != q ensures x in base'.Values {
      var b :| b in base && base[b] == x;
      assert base'[b] == x;
    }
    assert base'.Values == base.Values - {q} by {
      forall x | x in base'.Values ensures x in base.Values && x != q {
        var b :| b in base' && base'[b] == x;
        assert base[b] == x;
      }
    }
    assert p !in base.Values && p !in parents && q !in parents && q !in pending;
    assert p !in pending[1..];
    var d' := d - {p, q} + {Parent(p)};
    assert d' == base'.Values + Elems(parents + [Parent(p)]) + Elems(pending[1..]);
  }

  /** The inner loop as it stands, on any list: the unmerged networks by base address, and the parents. */
  function Merged(level: seq<IPNet>): (map<IPNet, IPNet>, seq<IPNet>)
    requires forall p :: p in level ==> p.len > 0
  {
    if level == [] then (map[], [])
    else
      var n := |level| - 1;
      var (base, parents) := Merged(level[..n]);
      var b := BaseIp(level[n]);
      if b !in base then (base[b := level[n]], parents)
      else (base - {b}, parents + [Parent(level[n])])
  }

  /**
   * What overlap does: the two halves of a network join into that network, and if it is in the list
   * already, the two copies join into the network one level up, twice as large as anything released.
   */
  lemma OverlapJoins(p: IPNet)
    requires Canonical(p) && p.len > 0 && p.host > 0
    ensures Merged([Left(p), Right(p)]) == (map[], [p])
    ensures Merged([p, p]) == (map[], [Parent(p)])
    ensures Block(p) < Block(Parent(p))
  {
    hide Canonical, Block, ClearBit;
    ParentOfHalves(p);
    MergedTwo(Left(p), Right(p));
    MergedTwo(p, p);
    ParentHasHalf(p);
    Halves(Parent(p));
  }

  ghost predicate MergesTo(level: seq<IPNet>, base: map<IPNet, IPNet>, parents: seq<IPNet>) {
    (forall p :: p in level ==> p.len > 0) && Merged(level) == (base, parents)
  }

  lemma MergesOneMore(level: seq<IPNet>, i: nat, base: map<IPNet, IPNet>, parents: seq<IPNet>)
    requires i < |level| && level[i].len > 0 && MergesTo(level[..i], base, parents)
    ensures var p := level[i];
            if BaseIp(p) !in base then MergesTo(level[..i + 1], base[BaseIp(p) := p], parents)
            else MergesTo(level[..i + 1], base - {BaseIp(p)}, parents + [Parent(p)])
  {
    hide BaseIp, Parent;
    assert level[..i + 1][..i] == level[..i];
  }

  lemma MergesNothing(level: seq<IPNet>)
    ensures MergesTo(level[..0], map[], [])
  {
  }

  lemma MergedTwo(p: IPNet, q: IPNet)
    requires p.len > 0 && q.len > 0 && BaseIp(p) == BaseIp(q)
    ensures Merged([p, q]) == (map[], [Parent(q)])
  {
    hide Parent, BaseIp, Merged;
    var level := [p, q];
    MergesNothing(level);
    MergesOneMore(level, 0, map[], []);
    MergesOneMore(level, 1, map[BaseIp(p) := p], []);
    assert level[..2] == level && [] + [Parent(q)] == [Parent(q)];
    assert map[BaseIp(p) := p] - {BaseIp(p)} == map[];
  }

  /**
   * The inner loop over one level of at least two networks: pairs with one base address become
   * their parent, and what is left over has no siblings.
   */
  method MergeLevel(level: seq<IPNet>, len: nat, ghost w: nat) returns (left: seq<IPNet>, parents: seq<IPNet>)
    requires Distinct(level) && Pool(Elems(level), w) && |level| >= 2
    requires forall p :: p in level ==> p.len == len
    ensures Distinct(left) && Distinct(parents)
    ensures forall p :: p in left ==> p.len == len
    ensures forall p :: p in parents ==> p.len + 1 == len
    ensures Joined(Elems(level), Elems(left) + Elems(parents), |parents|, w)
    ensures Reduced(Elems(left))
    ensures exists base :: MergesTo(level, base, parents) && Elems(left) == base.Values
  {
    hide Block, Canonical, Pool, Addrs, Reduced, MergeState, Distinct, ClearBit, Joined, MergesTo;
    LevelHasParent(level, len, w);
    var base: map<IPNet, IPNet> := map[];
    parents := [];
    ghost var d := Elems(level);
    MergeStart(level, len, w);
    MergesNothing(level);
    for i := 0 to |level|
      invariant MergeState(d, base, parents, level[i..], len)
      invariant Joined(Elems(level), d, |parents|, w)
      invariant MergesTo(level[..i], base, parents)
    {
      MergesOneMore(level, i, base, parents);
      var netValue := level[i];
      var baseIp := BaseIp(netValue);
      assert level[i..][0] == netValue && level[i..][1..] == level[i + 1..];
      if baseIp !in base {
        MergeKeep(d, base, parents, level[i..], len);
        base := base[baseIp := netValue];
      } else {
        var bv := base[baseIp];
        assert Pool(d, w) by { JoinedPool(Elems(level), d, |parents|, w); }
        MergeJoin(d, base, parents, level[i..], len, w);
        JoinOnce(Elems(level), d, |parents|, netValue, bv, w);
        base := base - {baseIp};
        parents := parents + [IPNet(baseIp.base, len - 1, baseIp.host + 1)];
        d := d - {netValue, bv} + {Parent(netValue)};
      }
    }
    assert level[..|level|] == level;
    MergeEnd(d, base, parents, level[|level|..], len);
    left := Leftovers(base, len);
  }

  /** The unmerged networks, in whatever order the map yields them. */
  method Leftovers(base: map<IPNet, IPNet>, ghost len: nat) returns (left: seq<IPNet>)
    requires forall b :: b in base ==> BaseIp(base[b]) == b && base[b].len == len
    ensures Distinct(left) && Elems(left) == base.Values
    ensures forall p :: p in left ==> p.len == len
    ensures Reduced(Elems(left))
  {
    left := [];
    var keys := base.Keys;
    while keys != {}
      invariant keys <= base.Keys
      invariant Distinct(left)
      invariant forall p :: p in left <==> BaseIp(p) in base && BaseIp(p) !in keys && base[BaseIp(p)] == p
      decreases keys
    {
      var b :| b in keys;
      left := left + [base[b]];
      keys := keys - {b};
    }
    forall p, q | p in left && q in left ensures !Siblings(p, q) {
      if Siblings(p, q) {
        SameBaseIp(p, q);
      }
    }
    forall p | p in base.Values ensures p in left {
      var b :| b in base && base[b] == p;
      assert BaseIp(p) == b;
    }
  }

  // ---- one pass over the levels ----

  lemma JoinedThen(a: set<IPNet>, b: set<IPNet>, c: set<IPNet>, i: nat, j: nat, w: nat)
    requires Joined(a, b, i, w) && Joined(b, c, j, w)
    ensures Joined(a, c, i + j, w)
  {
    hide Pool, Addrs;
  }

  /** Joins inside one level are joins of the whole. */
  lemma JoinedWithin(c: set<IPNet>, level: set<IPNet>, d: set<IPNet>, n: nat, w: nat)
    requires Pool(c, w) && level <= c && Joined(level, d, n, w)
    ensures Joined(c, (c - level) + d, n, w)
    ensures d !! (c - level)
  {
    hide Pool, Addrs;
    var rest := c - level;
    assert c == level + rest;
    PartsOfPool(level, rest, w);
    PoolOfUnion(d, rest, w);
    AddrsOfUnion(level, rest);
    AddrsOfUnion(d, rest);
    assert d + rest == rest + d;
    ApartMeansDifferent(d, rest);
  }

  lemma ApartMeansDifferent(s: set<IPNet>, t: set<IPNet>)
    requires Addrs(s) !! Addrs(t)
    ensures s !! t
  {
    forall p | p in s ensures p !in t {
      assert Block(p) <= Addrs(s) && p.base in Block(p);
    }
  }

  /** Moving a level over unchanged. */
  lemma HoldsMove(n: Levels, m: Levels, pending: set<int>, c: set<IPNet>, k: int)
    requires Holds(n, m, pending, c) && k in pending
    ensures Holds(n[k := Level(n, m, pending, k)], m, pending - {k}, c)
  {
    hide Level, Distinct, Elems, AtLen;
    var n', pending' := n[k := Level(n, m, pending, k)], pending - {k};
    forall j ensures Distinct(Level(n', m, pending', j)) && Elems(Level(n', m, pending', j)) == AtLen(c, j) {
      LevelMoved(n, m, pending, k, j);
    }
  }

  lemma LevelMoved(n: Levels, m: Levels, pending: set<int>, k: int, j: int)
    requires k in pending
    ensures Level(n[k := Level(n, m, pending, k)], m, pending - {k}, j) == Level(n, m, pending, j)
  {
  }

  /** Replacing a level by its leftovers, and adding the parents one level up. */
  lemma HoldsMerge(n: Levels, m: Levels, pending: set<int>, c: set<IPNet>, k: int,
                   left: seq<IPNet>, parents: seq<IPNet>)
    requires Holds(n, m, pending, c) && k in pending
    requires Distinct(left) && Distinct(parents)
    requires forall p :: p in left ==> p.len == k
    requires forall p :: p in parents ==> p.len == k - 1 && p !in c
    ensures Holds(n[k := left][k - 1 := At(n, k - 1) + parents], m, pending - {k},
                  (c - Elems(Level(n, m, pending, k))) + (Elems(left) + Elems(parents)))
  {
    var n', pending' := n[k := left][k - 1 := At(n, k - 1) + parents], pending - {k};
    var c' := (c - Elems(Level(n, m, pending, k))) + (Elems(left) + Elems(parents));
    assert Elems(Level(n, m, pending, k)) == AtLen(c, k);
    forall j ensures Distinct(Level(n', m, pending', j)) && Elems(Level(n', m, pending', j)) == AtLen(c', j) {
      assert Elems(Level(n, m, pending, j)) == AtLen(c, j);
      if j == k {
        assert Level(n', m, pending', j) == left;
        assert AtLen(c', j) == Elems(left);
      } else if j == k - 1 {
        var rest := if j in pending then At(m, j) else [];
        assert Level(n, m, pending, j) == At(n, j) + rest;
        assert Level(n', m, pending', j) == At(n, j) + parents + rest;
        assert Elems(At(n, j) + rest) == AtLen(c, j);
        DistinctInsert(At(n, j), parents, rest);
        assert AtLen(c', j) == AtLen(c, j) + Elems(parents);
      } else {
        assert AtLen(c', j) == AtLen(c, j);
        assert Level(n', m, pending', j) == Level(n, m, pending, j);
      }
    }
  }

  lemma DistinctInsert(a: seq<IPNet>, b: seq<IPNet>, c: seq<IPNet>)
    requires Distinct(a + c) && Distinct(b) && Elems(b) !! Elems(a + c)
    ensures Distinct(a + b + c)
  {
    var s := a + b + c;
    forall i, j | 0 <= i < j < |s| ensures s[i] != s[j] {
      var i' := if i < |a| then i else i - |b|;
      var j' := if j < |a| then j else j - |b|;
      if |a| <= i < |a| + |b| {
        assert s[i] in Elems(b);
        if j >= |a| + |b| {
          assert s[j] == (a + c)[j'];
        }
      } else {
        assert s[i] == (a + c)[i'];
        if |a| <= j < |a| + |b| {
          assert s[j] in Elems(b);
        } else {
          assert s[j] == (a + c)[j'];
        }
      }
    }
  }

  lemma FewHaveNoSiblings(ps: seq<IPNet>)
    requires |ps| < 2
    ensures Reduced(Elems(ps))
  {
  }

  lemma HeldLevel(n: Levels, m: Levels, pending: set<int>, c: set<IPNet>, k: int)
    requires Holds(n, m, pending, c)
    ensures Distinct(Level(n, m, pending, k)) && Elems(Level(n, m, pending, k)) == AtLen(c, k)
    ensures forall p :: p in Level(n, m, pending, k) ==> p in c && p.len == k
  {
    assert Elems(Level(n, m, pending, k)) == AtLen(c, k);
    forall p | p in Level(n, m, pending, k) ensures p in c && p.len == k {
      assert p in AtLen(c, k);
    }
  }

  lemma PartOfPool(s: set<IPNet>, t: set<IPNet>, w: nat)
    requires Pool(s, w) && t <= s
    ensures Pool(t, w)
  {
  }

  /**
   * One pass of the release loop: it keeps the addresses, takes away one network per join, and if
   * it joins nothing then nothing is left to join.
   */
  method MergePass(m: Levels, ghost c0: set<IPNet>, ghost w: nat)
    returns (n: Levels, changes: nat, ghost c: set<IPNet>)
    requires Pool(c0, w) && Holds(map[], m, m.Keys, c0)
    ensures Joined(Nets(m), Nets(n), changes, w) && Holds(map[], n, n.Keys, c)
    ensures changes == 0 ==> Reduced(Nets(n))
    ensures c0 == Nets(m) && c == Nets(n)
  {
    hide Pool, Addrs, Reduced, Distinct, Holds, Level, Joined, AtLen, Nets;
    n, changes, c := map[], 0, c0;
    var pending := m.Keys;
    JoinedStart(c0, w);
    while pending != {}
      invariant pending <= m.Keys
      invariant Holds(n, m, pending, c) && Joined(c0, c, changes, w)
      invariant changes == 0 ==> forall k :: k in m && k !in pending ==> Reduced(AtLen(c, k))
      decreases pending
    {
      SomeKey(pending);
      var k :| k in pending;
      var cvalue := At(n, k) + m[k];
      assert cvalue == Level(n, m, pending, k) by { LevelOfTodo(n, m, pending, k); }
      HeldLevel(n, m, pending, c, k);
      if |cvalue| < 2 {
        HoldsMove(n, m, pending, c, k);
        FewHaveNoSiblings(cvalue);
        n := n[k := cvalue];
      } else {
        assert cvalue[0] in cvalue;
        assert Pool(Elems(cvalue), w) by {
          JoinedPool(c0, c, changes, w);
          PartOfPool(c, Elems(cvalue), w);
        }
        var left, parents := MergeLevel(cvalue, k, w);
        MergeInPass(n, m, pending, c0, c, changes, k, left, parents, w);
        n := n[k := left][k - 1 := At(n, k - 1) + parents];
        changes := changes + |parents|;
        c := (c - Elems(cvalue)) + (Elems(left) + Elems(parents));
      }
      pending := pending - {k};
    }
    PassEnd(n, m, c0, c, changes, w);
    HeldNets(m, c0);
    HeldNets(n, c);
  }

  lemma HeldNets(m: Levels, c: set<IPNet>)
    requires Holds(map[], m, m.Keys, c)
    ensures Nets(m) == c
  {
    hide Distinct, Holds, Elems;
    forall p | p in c ensures p in Nets(m) {
      HeldLevel(map[], m, m.Keys, c, p.len);
      assert p in AtLen(c, p.len);
    }
    forall p | p in Nets(m) ensures p in c {
      var k :| k in m && p in m[k];
      HeldLevel(map[], m, m.Keys, c, k);
    }
  }

  lemma SomeKey(s: set<int>)
    requires s != {}
    ensures exists k :: k in s
  {
    assert (forall k :: k !in s) ==> s == {};
  }

  lemma JoinedStart(s: set<IPNet>, w: nat)
    requires Pool(s, w)
    ensures Joined(s, s, 0, w)
  {
  }

  lemma LevelOfTodo(n: Levels, m: Levels, pending: set<int>, k: int)
    requires k in pending && k in m
    ensures Level(n, m, pending, k) == At(n, k) + m[k]
  {
  }

  lemma MergeInPass(n: Levels, m: Levels, pending: set<int>, c0: set<IPNet>, c: set<IPNet>, changes: nat, k: nat,
                    left: seq<IPNet>, parents: seq<IPNet>, w: nat)
    requires Holds(n, m, pending, c) && Joined(c0, c, changes, w) && k in pending && k in m
    requires Distinct(left) && Distinct(parents)
    requires forall p :: p in left ==> p.len == k
    requires forall p :: p in parents ==> p.len + 1 == k
    requires Joined(Elems(At(n, k) + m[k]), Elems(left) + Elems(parents), |parents|, w)
    requires Reduced(Elems(left))
    ensures var c' := (c - Elems(At(n, k) + m[k])) + (Elems(left) + Elems(parents));
            && Holds(n[k := left][k - 1 := At(n, k - 1) + parents], m, pending - {k}, c')
            && Joined(c0, c', changes + |parents|, w)
            && (parents == [] ==> c' == c && Reduced(AtLen(c, k)))
  {
    hide Pool, Addrs, Reduced, Distinct, Holds, Joined;
    var level := Elems(At(n, k) + m[k]);
    var d := Elems(left) + Elems(parents);
    LevelOfTodo(n, m, pending, k);
    HeldLevel(n, m, pending, c, k);
    JoinedPool(c0, c, changes, w);
    JoinedWithin(c, level, d, |parents|, w);
    JoinedThen(c0, c, (c - level) + d, changes, |parents|, w);
    forall p | p in parents ensures p !in c {
      assert p in d;
    }
    HoldsMerge(n, m, pending, c, k, left, parents);
    if parents == [] {
      UnchangedLevel(level, d, w);
      assert d == Elems(left);
    }
  }

  lemma UnchangedLevel(level: set<IPNet>, d: set<IPNet>, w: nat)
    requires Joined(level, d, 0, w)
    ensures d == level
  {
  }

  lemma PassEnd(n: Levels, m: Levels, c0: set<IPNet>, c: set<IPNet>, changes: nat, w: nat)
    requires Holds(n, m, {}, c) && Joined(c0, c, changes, w) && Holds(map[], m, m.Keys, c0)
    requires changes == 0 ==> forall k :: k in m ==> Reduced(AtLen(c, k))
    ensures Holds(map[], n, n.Keys, c)
    ensures changes == 0 ==> Reduced(c)
  {
    hide Pool, Addrs, Distinct;
    forall k ensures Level(map[], n, n.Keys, k) == Level(n, m, {}, k) {
      assert [] + At(n, k) == At(n, k) + [];
    }
    if changes == 0 {
      forall p, q | p in c && q in c ensures !Siblings(p, q) {
        HeldLevel(map[], m, m.Keys, c0, p.len);
        assert p in AtLen(c, p.len);
        assert p.len in m;
        assert Siblings(p, q) ==> q in AtLen(c, p.len);
      }
    }
  }

  // ---- the whole release ----

  /** The first loop: the networks by length. */
  method Group(nets: seq<IPNet>) returns (m: Levels)
    requires Distinct(nets)
    ensures Holds(map[], m, m.Keys, Elems(nets))
  {
    m := map[];
    for i := 0 to |nets|
      invariant forall k :: Distinct(At(m, k)) && Elems(At(m, k)) == AtLen(Elems(nets[..i]), k)
    {
      var ipnet := nets[i];
      assert nets[..i + 1] == nets[..i] + [ipnet];
      assert ipnet !in Elems(nets[..i]);
      GroupStep(m, Elems(nets[..i]), ipnet);
      assert Elems(nets[..i]) + {ipnet} == Elems(nets[..i + 1]);
      m := m[ipnet.len := At(m, ipnet.len) + [ipnet]];
    }
    assert nets[..|nets|] == nets;
    forall k ensures Level(map[], m, m.Keys, k) == At(m, k) {
    }
  }

  lemma GroupStep(m: Levels, s: set<IPNet>, p: IPNet)
    requires forall k :: Distinct(At(m, k)) && Elems(At(m, k)) == AtLen(s, k)
    requires p !in s
    ensures var m' := m[p.len := At(m, p.len) + [p]];
            forall k :: Distinct(At(m', k)) && Elems(At(m', k)) == AtLen(s + {p}, k)
  {
    var m' := m[p.len := At(m, p.len) + [p]];
    forall k ensures Distinct(At(m', k)) && Elems(At(m', k)) == AtLen(s + {p}, k) {
      if k == p.len {
        assert p !in AtLen(s, k);
        assert p !in Elems(At(m, k));
      } else {
        assert At(m', k) == At(m, k);
        assert AtLen(s + {p}, k) == AtLen(s, k);
      }
    }
  }

  /** The last loop: all levels, in whatever order the map yields them. */
  method Flatten(n: Levels, ghost c: set<IPNet>) returns (result: seq<IPNet>)
    requires Holds(map[], n, n.Keys, c)
    ensures Distinct(result) && Elems(result) == c
  {
    result := [];
    var pending := n.Keys;
    while pending != {}
      invariant pending <= n.Keys && Distinct(result)
      invariant forall p :: p in result <==> p in c && p.len in n && p.len !in pending
      decreases pending
    {
      SomeKey(pending);
      var k :| k in pending;
      HeldLevel(map[], n, n.Keys, c, k);
      assert Level(map[], n, n.Keys, k) == n[k];
      assert Elems(n[k]) == AtLen(c, k);
      DistinctInsert(result, n[k], []);
      assert result + n[k] + [] == result + n[k];
      result := result + n[k];
      pending := pending - {k};
    }
    forall p | p in c ensures p in result {
      HeldLevel(map[], n, n.Keys, c, p.len);
      assert p in AtLen(c, p.len);
    }
  }

  /**
   * `ReleasePrefixes`: without released networks the list comes back as it is; otherwise the result
   * covers the same addresses, without overlap and with no two siblings. Its members are the maximal
   * networks in those addresses, so no order of iteration makes a difference to them.
   */
  method ReleasePrefixes(prefixes: seq<IPNet>, released: seq<IPNet>, ghost w: nat) returns (remaining: seq<IPNet>)
    requires Pool(Elems(prefixes + released), w)
    ensures released == [] ==> remaining == prefixes
    ensures released != [] ==>
              && Distinct(remaining) && Pool(Elems(remaining), w) && Reduced(Elems(remaining))
              && Addrs(Elems(remaining)) == Addrs(Elems(prefixes + released))
              && forall p :: p in remaining <==> Maximal(p, Addrs(Elems(prefixes + released)), w)
  {
    hide Pool, Addrs, Reduced, Distinct, Holds, Maximal;
    if |released| == 0 {
      return prefixes;
    }
    var result := RemoveDuplicates(prefixes + released);
    DedupKeepsElems(prefixes + released);
    var m := Group(result);
    ghost var c := Elems(result);
    ghost var joins := 0;
    JoinedStart(c, w);
    while true
      invariant Holds(map[], m, m.Keys, c) && Joined(Elems(prefixes + released), c, joins, w)
      decreases |c|
    {
      JoinedPool(Elems(prefixes + released), c, joins, w);
      var n, changes, c' := MergePass(m, c, w);
      JoinedThen(Elems(prefixes + released), c, c', joins, changes, w);
      joins := joins + changes;
      if changes == 0 {
        remaining := Flatten(n, c');
        forall p ensures p in remaining <==> Maximal(p, Addrs(Elems(remaining)), w) {
          ReducedIsMaximal(Elems(remaining), p, w);
        }
        return;
      }
      assert |c'| < |c|;
      m, c := n, c';
    }
  }
}
