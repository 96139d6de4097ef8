/**
 * Sets of networks and the address space they cover.
 *
 * The main result is that a disjoint set of networks without siblings is determined by the
 * addresses it covers: it is the set of all maximal networks inside them.
 */
module Spaces {
  import opened IPNets

  predicate AllOfWidth(s: set<IPNet>, w: nat) {
    forall p :: p in s ==> OfWidth(p, w)
  }

  predicate Disjoint(s: set<IPNet>) {
    forall p, q :: p in s && q in s && p != q ==> Block(p) !! Block(q)
  }

  /** A set of networks of one address family that do not overlap. */
  predicate Pool(s: set<IPNet>, w: nat) {
    AllOfWidth(s, w) && Disjoint(s)
  }

  /** No two halves of one network: nothing is left to coalesce. */
  predicate Reduced(s: set<IPNet>) {
    forall p, q :: p in s && q in s ==> !Siblings(p, q)
  }

  /** The addresses covered. */
  function Addrs(s: set<IPNet>): (r: set<int>)
    ensures forall p :: p in s ==> Block(p) <= r
  {
    set p, a | p in s && a in Block(p) :: a
  }

  /** `p` is a largest network inside the addresses `space`. */
  ghost predicate Maximal(p: IPNet, space: set<int>, w: nat) {
    && OfWidth(p, w)
    && Block(p) <= space
    && forall q :: OfWidth(q, w) && Block(p) <= Block(q) && Block(q) <= space ==> q == p
  }

  lemma AddrsOfUnion(s: set<IPNet>, t: set<IPNet>)
    ensures Addrs(s + t) == Addrs(s) + Addrs(t)
  {
    AddrsMonotone(s, s + t);
    AddrsMonotone(t, s + t);
    UnionCovered(s, t);
    UnionFromParts(Addrs(s), Addrs(t), Addrs(s + t));
  }

  lemma CoveredInPart(s: set<IPNet>, t: set<IPNet>, a: int)
    requires a in Addrs(s + t)
    ensures a in Addrs(s) || a in Addrs(t)
  {
    var p :| p in s + t && a in Block(p);
    if p in s {
      assert a in Addrs(s);
    } else {
      assert a in Addrs(t);
    }
  }

  lemma UnionCovered(s: set<IPNet>, t: set<IPNet>)
    ensures Addrs(s + t) <= Addrs(s) + Addrs(t)
  {
    forall a | a in Addrs(s + t) ensures a in Addrs(s) + Addrs(t) {
      CoveredInPart(s, t, a);
    }
  }

  lemma UnionFromParts(x: set<int>, y: set<int>, z: set<int>)
    requires x <= z && y <= z && z <= x + y
    ensures z == x + y
  {
  }

  lemma AddrsMonotone(s: set<IPNet>, t: set<IPNet>)
    requires s <= t
    ensures Addrs(s) <= Addrs(t)
  {
    forall a | a in Addrs(s) ensures a in Addrs(t) {
      var p :| p in s && a in Block(p);
      assert p in t;
    }
  }

  lemma AddrsOfOne(p: IPNet)
    ensures Addrs({p}) == Block(p)
  {
  }

  /** Two pools over separate addresses make one pool, and conversely. */
  lemma PoolOfUnion(s: set<IPNet>, t: set<IPNet>, w: nat)
    requires Pool(s, w) && Pool(t, w) && Addrs(s) !! Addrs(t)
    ensures Pool(s + t, w)
  {
    forall p, q | p in s + t && q in s + t && p != q
      ensures Block(p) !! Block(q)
    {
      if p in s && q in t {
        assert Block(p) <= Addrs(s) && Block(q) <= Addrs(t);
      } else if p in t && q in s {
        assert Block(p) <= Addrs(t) && Block(q) <= Addrs(s);
      }
    }
  }

  lemma PoolWithOneMore(s: set<IPNet>, p: IPNet, w: nat)
    requires Pool(s, w) && OfWidth(p, w) && Block(p) !! Addrs(s)
    ensures p !in s && Pool({p} + s, w)
  {
    hide Canonical;
    forall q | q in s ensures Block(p) !! Block(q) {
      assert Block(q) <= Addrs(s);
    }
  }

  lemma PartsOfPool(s: set<IPNet>, t: set<IPNet>, w: nat)
    requires Pool(s + t, w) && s !! t
    ensures Pool(s, w) && Pool(t, w) && Addrs(s) !! Addrs(t)
  {
  }

  /** In a reduced pool every network that is wholly covered lies inside one member. */
  lemma {:induction false} CoveredByOne(s: set<IPNet>, p: IPNet, w: nat) returns (q: IPNet)
    requires Pool(s, w) && Reduced(s)
    requires OfWidth(p, w) && Block(p) <= Addrs(s)
    ensures q in s && Block(p) <= Block(q)
    decreases p.host
  {
    hide Addrs, Pool, Reduced, Canonical;
    if p.host == 0 {
      q := CoveredPoint(s, p);
    } else {
      Halves(p);
      var l := CoveredByOne(s, Left(p), w);
      var r := CoveredByOne(s, Right(p), w);
      q := if Block(p) <= Block(l) then l else r;
      OneAroundBoth(s, p, l, r, w);
    }
  }

  lemma CoveredPoint(s: set<IPNet>, p: IPNet) returns (q: IPNet)
    requires p.host == 0 && Block(p) <= Addrs(s)
    ensures q in s && Block(p) <= Block(q)
  {
    assert Size(p) == 1 && p.base in Addrs(s);
    q :| q in s && p.base in Block(q);
  }

  /** If two members lie around the halves of `p`, one of them lies around `p`, or they are siblings. */
  lemma OneAroundBoth(s: set<IPNet>, p: IPNet, l: IPNet, r: IPNet, w: nat)
    requires Pool(s, w) && Reduced(s) && l in s && r in s && OfWidth(p, w) && p.host > 0
    requires Block(Left(p)) <= Block(l) && Block(Right(p)) <= Block(r)
    ensures Block(p) <= Block(l) || Block(p) <= Block(r)
  {
    hide Canonical, Block;
    Halves(p);
    if !(Block(p) <= Block(l)) && !(Block(p) <= Block(r)) {
      HalfOrMore(p, Left(p), l, w);
      HalfOrMore(p, Right(p), r, w);
      ParentOfHalves(p);
    }
  }

  /** A network around a half of `p` but not around `p` is that half. */
  lemma HalfOrMore(p: IPNet, half: IPNet, q: IPNet, w: nat)
    requires OfWidth(p, w) && p.host > 0 && OfWidth(q, w)
    requires half == Left(p) || half == Right(p)
    requires Block(half) <= Block(q) && !(Block(p) <= Block(q))
    ensures q == half
  {
    Halves(p);
    if p.host <= q.host {
      NestedOrApart(q, p, w);
    } else {
      NestedOrApart(half, q, w);
      assert half.base in Block(q);
      assert Block(q) == Block(half);
      SameBlockSameNet(half, q, w);
    }
  }

  /** The members of a reduced pool are exactly the maximal networks in the space it covers. */
  lemma ReducedIsMaximal(s: set<IPNet>, p: IPNet, w: nat)
    requires Pool(s, w) && Reduced(s)
    ensures p in s <==> Maximal(p, Addrs(s), w)
  {
    if p in s {
      forall q | OfWidth(q, w) && Block(p) <= Block(q) && Block(q) <= Addrs(s)
        ensures q == p
      {
        var r := CoveredByOne(s, q, w);
        assert p.base in Block(p) && p.base in Block(r);
        assert r == p;
        assert Block(q) == Block(p);
        SameBlockSameNet(p, q, w);
      }
    }
    if Maximal(p, Addrs(s), w) {
      var r := CoveredByOne(s, p, w);
      assert r == p;
    }
  }

  /** The reduced form of an address space is unique. */
  lemma ReducedIsUnique(s: set<IPNet>, t: set<IPNet>, w: nat)
    requires Pool(s, w) && Reduced(s) && Pool(t, w) && Reduced(t)
    requires Addrs(s) == Addrs(t)
    ensures s == t
  {
    forall p
      ensures p in s <==> p in t
    {
      ReducedIsMaximal(s, p, w);
      ReducedIsMaximal(t, p, w);
    }
  }

  // ---- lists of networks ----

  function Elems(ps: seq<IPNet>): (s: set<IPNet>)
    ensures forall p :: p in s <==> p in ps
  {
    set p | p in ps
  }

  predicate Distinct(ps: seq<IPNet>) {
    forall i, j :: 0 <= i < j < |ps| ==> ps[i] != ps[j]
  }

  function AddrsOf(ps: seq<IPNet>): set<int> {
    if ps == [] then {} else Block(ps[0]) + AddrsOf(ps[1..])
  }

  /** A pool kept as a list: each network is apart from all later ones. */
  predicate ListPool(ps: seq<IPNet>, w: nat) {
    ps == [] || (OfWidth(ps[0], w) && Block(ps[0]) !! AddrsOf(ps[1..]) && ListPool(ps[1..], w))
  }

  function SizeSum(ps: seq<IPNet>): nat {
    if ps == [] then 0 else Size(ps[0]) + SizeSum(ps[1..])
  }

  lemma {:induction false} AddrsOfConcat(a: seq<IPNet>, b: seq<IPNet>)
    ensures AddrsOf(a + b) == AddrsOf(a) + AddrsOf(b)
  {
    if a == [] {
      assert a + b == b;
    } else {
      AddrsOfConcat(a[1..], b);
      assert (a + b)[1..] == a[1..] + b;
    }
  }

  lemma SinglePool(p: IPNet, w: nat)
    ensures AddrsOf([p]) == Block(p)
    ensures ListPool([p], w) <==> OfWidth(p, w)
  {
    assert [p][1..] == [];
  }

  lemma DisjointFromUnion(x: set<int>, y: set<int>, z: set<int>)
    ensures x !! (y + z) <==> x !! y && x !! z
    ensures (x + y) !! z <==> x !! z && y !! z
  {
  }

  lemma {:induction false} ListPoolConcat(a: seq<IPNet>, b: seq<IPNet>, w: nat)
    ensures ListPool(a + b, w) <==> ListPool(a, w) && ListPool(b, w) && AddrsOf(a) !! AddrsOf(b)
  {
    if a == [] {
      assert a + b == b;
    } else {
      var p, rest := a[0], a[1..];
      ListPoolConcat(rest, b, w);
      AddrsOfConcat(rest, b);
      assert (a + b)[0] == p && (a + b)[1..] == rest + b;
      assert AddrsOf(a) == Block(p) + AddrsOf(rest);
      DisjointFromUnion(Block(p), AddrsOf(rest), AddrsOf(b));
    }
  }

  lemma {:induction false} SizeSumConcat(a: seq<IPNet>, b: seq<IPNet>)
    ensures SizeSum(a + b) == SizeSum(a) + SizeSum(b)
  {
    if a == [] {
      assert a + b == b;
    } else {
      SizeSumConcat(a[1..], b);
      assert (a + b)[1..] == a[1..] + b;
    }
  }

  lemma {:induction false} AddrsOfIsAddrs(ps: seq<IPNet>)
    ensures AddrsOf(ps) == Addrs(Elems(ps))
  {
    if ps == [] {
      assert Addrs({}) == {};
      assert Elems(ps) == {};
    } else {
      AddrsOfIsAddrs(ps[1..]);
      assert ps == [ps[0]] + ps[1..];
      assert Elems(ps) == {ps[0]} + Elems(ps[1..]);
      AddrsOfUnion({ps[0]}, Elems(ps[1..]));
      AddrsOfOne(ps[0]);
    }
  }

  lemma HeadApart(p: IPNet, rest: seq<IPNet>, w: nat)
    requires Pool(Elems(rest), w)
    ensures OfWidth(p, w) && Block(p) !! AddrsOf(rest) <==> p !in rest && Pool({p} + Elems(rest), w)
  {
    AddrsOfIsAddrs(rest);
    var s := Elems(rest);
    if OfWidth(p, w) && Block(p) !! Addrs(s) {
      PoolWithOneMore(s, p, w);
    }
    if p !in rest && Pool({p} + s, w) {
      assert p in {p} + s;
      AddrsOfOne(p);
      PartsOfPool({p}, s, w);
    }
  }

  lemma DistinctHead(p: IPNet, rest: seq<IPNet>)
    ensures Distinct([p] + rest) <==> p !in rest && Distinct(rest)
  {
    var ps := [p] + rest;
    if Distinct(ps) {
      forall i, j | 0 <= i < j < |rest| ensures rest[i] != rest[j] {
        assert ps[i + 1] != ps[j + 1];
      }
      forall i | 0 <= i < |rest| ensures rest[i] != p {
        assert ps[0] != ps[i + 1];
      }
    }
  }

  /** A list pool is a pool without repetition. */
  lemma {:induction false} ListPoolIsPool(ps: seq<IPNet>, w: nat)
    ensures ListPool(ps, w) <==> Distinct(ps) && Pool(Elems(ps), w)
  {
    if ps != [] {
      var p, rest := ps[0], ps[1..];
      ListPoolIsPool(rest, w);
      assert ps == [p] + rest;
      assert Elems(ps) == {p} + Elems(rest);
      DistinctHead(p, rest);
      if Pool(Elems(rest), w) {
        HeadApart(p, rest, w);
      }
    }
  }

  lemma MemberOfListPool(ps: seq<IPNet>, p: IPNet, w: nat)
    requires ListPool(ps, w) && p in ps
    ensures OfWidth(p, w) && Block(p) <= AddrsOf(ps)
  {
    ListPoolIsPool(ps, w);
    AddrsOfIsAddrs(ps);
    assert p in Elems(ps);
  }

  /** In a pool no address is counted twice: the sizes add up to the number of addresses. */
  lemma {:induction false} SizeSumIsCount(ps: seq<IPNet>, w: nat)
    requires ListPool(ps, w)
    ensures SizeSum(ps) == |AddrsOf(ps)|
  {
    if ps != [] {
      SizeSumIsCount(ps[1..], w);
      BlockSize(ps[0]);
    }
  }
}
