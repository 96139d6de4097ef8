/**
 * Best fit is optimal.
 *
 * Serving required lengths greedily, in any order, fails only when no placement of disjoint blocks
 * of those lengths exists in the free space. The link is a counting condition: for every length
 * `cap`, the blocks asked for with prefixes up to `cap` are no larger in total than the free ones.
 */
module BestFit {
  import opened Powers
  import opened Sets
  import opened IPNets
  import opened Spaces
  import opened Extraction

  /** The members whose prefix length is at most `cap`. */
  function UpToLen(ps: seq<IPNet>, cap: nat): seq<IPNet> {
    if ps == [] then []
    else if ps[0].len <= cap then [ps[0]] + UpToLen(ps[1..], cap)
    else UpToLen(ps[1..], cap)
  }

  /** The number of addresses in the members whose prefix length is at most `cap`. */
  function FreeUpTo(ps: seq<IPNet>, cap: nat): nat {
    if ps == [] then 0
    else (if ps[0].len <= cap then Size(ps[0]) else 0) + FreeUpTo(ps[1..], cap)
  }

  /** The addresses that the lengths up to `cap` ask for. */
  function Demand(lens: seq<nat>, cap: nat, w: nat): nat {
    if lens == [] then 0
    else (if lens[0] <= cap && lens[0] <= w then Pow2(w - lens[0]) else 0) + Demand(lens[1..], cap, w)
  }

  ghost predicate Fits(lens: seq<nat>, ps: seq<IPNet>, w: nat) {
    && (forall l :: l in lens ==> l <= w)
    && forall cap: nat :: cap <= w ==> Demand(lens, cap, w) <= FreeUpTo(ps, cap)
  }

  /** Disjoint networks of the lengths asked for, inside the free addresses. */
  ghost predicate Placement(qs: seq<IPNet>, lens: seq<nat>, ps: seq<IPNet>, w: nat) {
    && Lens(qs) == lens
    && ListPool(qs, w)
    && AddrsOf(qs) <= AddrsOf(ps)
  }

  lemma {:induction false} FreeUpToConcat(a: seq<IPNet>, b: seq<IPNet>, cap: nat)
    ensures FreeUpTo(a + b, cap) == FreeUpTo(a, cap) + FreeUpTo(b, cap)
  {
    if a == [] {
      assert a + b == b;
    } else {
      FreeUpToConcat(a[1..], b, cap);
      assert (a + b)[1..] == a[1..] + b;
    }
  }

  lemma {:induction false} FreeIsSize(ps: seq<IPNet>, cap: nat)
    ensures FreeUpTo(ps, cap) == SizeSum(UpToLen(ps, cap))
  {
    if ps != [] {
      FreeIsSize(ps[1..], cap);
      if ps[0].len <= cap {
        UpToLenTail(ps, cap);
      }
    }
  }

  lemma UpToLenTail(ps: seq<IPNet>, cap: nat)
    requires ps != [] && ps[0].len <= cap
    ensures UpToLen(ps, cap) != [] && UpToLen(ps, cap)[0] == ps[0]
    ensures UpToLen(ps, cap)[1..] == UpToLen(ps[1..], cap)
  {
  }

  lemma {:induction false} UpToLenMembers(ps: seq<IPNet>, cap: nat)
    ensures forall p :: p in UpToLen(ps, cap) <==> p in ps && p.len <= cap
  {
    if ps != [] {
      UpToLenMembers(ps[1..], cap);
    }
  }

  lemma {:induction false} UpToLenPool(ps: seq<IPNet>, cap: nat, w: nat)
    requires ListPool(ps, w)
    ensures ListPool(UpToLen(ps, cap), w)
    ensures AddrsOf(UpToLen(ps, cap)) <= AddrsOf(ps)
  {
    if ps != [] {
      UpToLenPool(ps[1..], cap, w);
      if ps[0].len <= cap {
        UpToLenTail(ps, cap);
      }
    }
  }

  // ---- both sides count whole blocks of the coarsest length ----

  lemma {:induction false} FreeIsMultiple(ps: seq<IPNet>, cap: nat, w: nat)
    requires cap <= w && forall p :: p in ps ==> p.len + p.host == w
    ensures Multiple(FreeUpTo(ps, cap), Pow2(w - cap))
  {
    hide Multiple, Pow2;
    var m := Pow2(w - cap);
    MultipleZero(m);
    if ps != [] {
      FreeIsMultiple(ps[1..], cap, w);
      if ps[0].len <= cap {
        PowerIsMultiple(ps[0].host, w - cap);
        MultipleSum(Size(ps[0]), FreeUpTo(ps[1..], cap), m);
      }
    }
  }

  lemma {:induction false} DemandIsMultiple(lens: seq<nat>, cap: nat, w: nat)
    requires cap <= w
    ensures Multiple(Demand(lens, cap, w), Pow2(w - cap))
  {
    hide Multiple, Pow2;
    var m := Pow2(w - cap);
    MultipleZero(m);
    if lens != [] {
      DemandIsMultiple(lens[1..], cap, w);
      if lens[0] <= cap {
        PowerIsMultiple(w - lens[0], w - cap);
        MultipleSum(Pow2(w - lens[0]), Demand(lens[1..], cap, w), m);
      }
    }
  }

  lemma PowerIsMultiple(big: nat, small: nat)
    requires small <= big
    ensures Multiple(Pow2(big), Pow2(small))
  {
    hide Pow2;
    Pow2Add(small, big - small);
    DivModUnique(Pow2(small), Pow2(big - small), 0);
  }

  // ---- what one extraction does to the counts ----

  lemma {:induction false} RightsUpTo(root: IPNet, want: nat, cap: nat, w: nat)
    requires OfWidth(root, w) && root.len <= want <= w
    ensures FreeUpTo(Rights(root, want), cap) ==
            if cap < root.len then 0
            else if cap <= want then Size(root) - Pow2(w - cap)
            else Size(root) - Pow2(w - want)
    decreases want - root.len
  {
    if root.len < want {
      Halves(root);
      SubnetIsHalf(root);
      var l, r := Left(root), Right(root);
      RightsUpTo(l, want, cap, w);
      FreeUpToConcat(Rights(l, want), [r], cap);
      assert FreeUpTo([r], cap) == if r.len <= cap then Size(r) else 0;
      assert Size(root) == Size(l) + Size(r);
    }
  }

  /** The free count after best fit has served `want` from a root of length `m`. */
  lemma CutUpTo(ps: seq<IPNet>, i: nat, want: nat, cap: nat, w: nat)
    requires ListPool(ps, w) && i < |ps| && ps[i].len <= want <= w
    ensures CutAt(ps, i, want).Extracted?
    ensures FreeUpTo(CutAt(ps, i, want).remaining, cap) ==
            FreeUpTo(ps, cap) - (if cap < ps[i].len then 0
                                 else if cap <= want then Pow2(w - cap)
                                 else Pow2(w - want))
  {
    var root := ps[i];
    MemberOfListPool(ps, root, w);
    RightsUpTo(root, want, cap, w);
    var a, c := ps[..i], ps[i + 1..];
    assert ps == a + [root] + c;
    FreeUpToConcat(a + [root], c, cap);
    FreeUpToConcat(a, [root], cap);
    FreeUpToConcat(a + Rights(root, want), c, cap);
    FreeUpToConcat(a, Rights(root, want), cap);
    assert FreeUpTo([root], cap) == if root.len <= cap then Size(root) else 0;
  }

  /** Members longer than `m` but no longer than `want` do not exist, so the counts agree there. */
  lemma {:induction false} NoneBetween(ps: seq<IPNet>, m: nat, want: nat, cap: nat)
    requires m <= cap <= want
    requires forall j :: 0 <= j < |ps| && ps[j].len <= want ==> ps[j].len <= m
    ensures FreeUpTo(ps, cap) == FreeUpTo(ps, want)
  {
    if ps != [] {
      NoneBetween(ps[1..], m, want, cap);
      assert ps[0].len <= want ==> ps[0].len <= m;
    }
  }

  lemma {:induction false} DemandMonotone(lens: seq<nat>, a: nat, b: nat, w: nat)
    requires a <= b
    ensures Demand(lens, a, w) <= Demand(lens, b, w)
  {
    if lens != [] {
      DemandMonotone(lens[1..], a, b, w);
    }
  }

  lemma {:induction false} FreeNeedsMember(ps: seq<IPNet>, cap: nat)
    requires FreeUpTo(ps, cap) > 0
    ensures exists p :: p in ps && p.len <= cap
  {
    if ps[0].len > cap {
      FreeNeedsMember(ps[1..], cap);
    }
  }

  /** One greedy step neither creates nor destroys the counting condition. */
  lemma GreedyStep(ps: seq<IPNet>, lens: seq<nat>, w: nat)
    requires ListPool(ps, w) && lens != []
    ensures Fits(lens, ps, w) <==>
            && ExtractOne(ps, lens[0]).Extracted?
            && Fits(lens[1..], ExtractOne(ps, lens[0]).remaining, w)
  {
    var want := lens[0];
    ExtractOneCarves(ps, want, w);
    ScanIsBestFit(ps, want, 0, -1);
    var i := Scan(ps, want, 0, -1);
    if Fits(lens, ps, w) {
      assert want in lens;
      assert Demand(lens, want, w) <= FreeUpTo(ps, want);
      FreeNeedsMember(ps, want);
      StepKeepsFits(ps, i, lens, w);
    }
    if ExtractOne(ps, want).Extracted? && Fits(lens[1..], ExtractOne(ps, want).remaining, w) {
      StepReflectsFits(ps, i, lens, w);
    }
  }

  lemma StepReflectsFits(ps: seq<IPNet>, i: nat, lens: seq<nat>, w: nat)
    requires ListPool(ps, w) && lens != [] && i < |ps| && ps[i].len <= lens[0] <= w
    requires CutAt(ps, i, lens[0]).Extracted? && Fits(lens[1..], CutAt(ps, i, lens[0]).remaining, w)
    ensures Fits(lens, ps, w)
  {
    assert lens == [lens[0]] + lens[1..];
    forall cap: nat | cap <= w ensures Demand(lens, cap, w) <= FreeUpTo(ps, cap) {
      CutUpTo(ps, i, lens[0], cap, w);
      assert Demand(lens[1..], cap, w) <= FreeUpTo(CutAt(ps, i, lens[0]).remaining, cap);
    }
  }

  lemma StepKeepsFits(ps: seq<IPNet>, i: nat, lens: seq<nat>, w: nat)
    requires ListPool(ps, w) && lens != [] && Fits(lens, ps, w)
    requires i < |ps| && ps[i].len <= lens[0]
    requires forall j :: 0 <= j < |ps| && ps[j].len <= lens[0] ==> ps[j].len <= ps[i].len
    ensures CutAt(ps, i, lens[0]).Extracted? && Fits(lens[1..], CutAt(ps, i, lens[0]).remaining, w)
  {
    assert forall l :: l in lens[1..] ==> l in lens;
    assert lens[0] in lens;
    CutUpTo(ps, i, lens[0], 0, w);
    forall cap: nat | cap <= w
      ensures Demand(lens[1..], cap, w) <= FreeUpTo(CutAt(ps, i, lens[0]).remaining, cap)
    {
      StepKeepsFit(ps, i, lens, cap, w);
    }
  }

  lemma StepKeepsFit(ps: seq<IPNet>, i: nat, lens: seq<nat>, cap: nat, w: nat)
    requires ListPool(ps, w) && lens != [] && cap <= w && lens[0] <= w
    requires Demand(lens, cap, w) <= FreeUpTo(ps, cap) && Demand(lens, lens[0], w) <= FreeUpTo(ps, lens[0])
    requires i < |ps| && ps[i].len <= lens[0]
    requires forall j :: 0 <= j < |ps| && ps[j].len <= lens[0] ==> ps[j].len <= ps[i].len
    ensures CutAt(ps, i, lens[0]).Extracted?
    ensures Demand(lens[1..], cap, w) <= FreeUpTo(CutAt(ps, i, lens[0]).remaining, cap)
  {
    hide ListPool, CutAt, FreeUpTo, Pow2;
    CutUpTo(ps, i, lens[0], cap, w);
    if ps[i].len <= cap < lens[0] {
      RoomAboveWant(ps, ps[i].len, lens, cap, w);
    }
  }

  /**
   * With no free prefix longer than `m` up to the wanted length, the counts at any length in
   * between differ by more than nothing, hence by a whole block of that length.
   */
  lemma RoomAboveWant(ps: seq<IPNet>, m: nat, lens: seq<nat>, cap: nat, w: nat)
    requires ListPool(ps, w) && lens != [] && m <= cap < lens[0] <= w
    requires Demand(lens, lens[0], w) <= FreeUpTo(ps, lens[0])
    requires forall j :: 0 <= j < |ps| && ps[j].len <= lens[0] ==> ps[j].len <= m
    ensures Demand(lens[1..], cap, w) + Pow2(w - cap) <= FreeUpTo(ps, cap)
  {
    var want, rest := lens[0], lens[1..];
    NoneBetween(ps, m, want, cap);
    DemandMonotone(rest, cap, want, w);
    assert Demand(rest, cap, w) < FreeUpTo(ps, cap);
    forall p | p in ps ensures p.len + p.host == w {
      MemberOfListPool(ps, p, w);
    }
    FreeIsMultiple(ps, cap, w);
    DemandIsMultiple(rest, cap, w);
    AlignedGap(Demand(rest, cap, w), FreeUpTo(ps, cap), Pow2(w - cap));
  }

  /** The required phase succeeds exactly when the counting condition holds. */
  lemma {:induction false} GreedyIffFits(ps: seq<IPNet>, lens: seq<nat>, w: nat)
    requires ListPool(ps, w)
    ensures ExtractAll(ps, lens).Taken? <==> Fits(lens, ps, w)
    decreases |lens|
  {
    if lens != [] {
      GreedyStep(ps, lens, w);
      ExtractOneCarves(ps, lens[0], w);
      var e := ExtractOne(ps, lens[0]);
      if e.Extracted? {
        ListPoolConcat([e.net], e.remaining, w);
        GreedyIffFits(e.remaining, lens[1..], w);
      }
    }
  }

  // ---- placements ----

  /** A placement satisfies the counting condition, since every block sits in one free prefix. */
  lemma PlacementFits(qs: seq<IPNet>, lens: seq<nat>, ps: seq<IPNet>, w: nat)
    requires ListPool(ps, w) && Reduced(Elems(ps)) && Placement(qs, lens, ps, w)
    ensures Fits(lens, ps, w)
  {
    forall l | l in lens ensures l <= w {
      var i :| 0 <= i < |lens| && lens[i] == l;
      MemberOfListPool(qs, qs[i], w);
    }
    forall cap: nat | cap <= w ensures Demand(lens, cap, w) <= FreeUpTo(ps, cap) {
      DemandOfNets(qs, cap, w);
      UpToLenPool(qs, cap, w);
      UpToLenPool(ps, cap, w);
      CapInside(qs, ps, cap, w);
      FreeIsSize(qs, cap);
      FreeIsSize(ps, cap);
      SizeSumIsCount(UpToLen(qs, cap), w);
      SizeSumIsCount(UpToLen(ps, cap), w);
      SubsetNoLarger(AddrsOf(UpToLen(qs, cap)), AddrsOf(UpToLen(ps, cap)));
    }
  }

  lemma {:induction false} DemandOfNets(qs: seq<IPNet>, cap: nat, w: nat)
    requires ListPool(qs, w)
    ensures Demand(Lens(qs), cap, w) == FreeUpTo(qs, cap)
  {
    if qs != [] {
      DemandOfNets(qs[1..], cap, w);
      assert Lens(qs)[1..] == Lens(qs[1..]);
    }
  }

  lemma {:induction false} CapInside(qs: seq<IPNet>, ps: seq<IPNet>, cap: nat, w: nat)
    requires ListPool(ps, w) && Reduced(Elems(ps))
    requires ListPool(qs, w) && AddrsOf(qs) <= AddrsOf(ps)
    ensures AddrsOf(UpToLen(qs, cap)) <= AddrsOf(UpToLen(ps, cap))
  {
    if qs != [] {
      CapInside(qs[1..], ps, cap, w);
      if qs[0].len <= cap {
        var p := FreeAround(ps, qs[0], w);
        UpToLenMembers(ps, cap);
        UpToLenPool(ps, cap, w);
        MemberOfListPool(UpToLen(ps, cap), p, w);
        UpToLenTail(qs, cap);
      }
    }
  }

  /**
   * Best fit is optimal: on a reduced pool the required phase succeeds exactly when some placement
   * of all the required lengths exists, which is exactly when the counting condition holds.
   */
  lemma BestFitIsOptimal(ps: seq<IPNet>, lens: seq<nat>, w: nat)
    requires ListPool(ps, w) && Reduced(Elems(ps))
    ensures ExtractAll(ps, lens).Taken? <==> exists qs :: Placement(qs, lens, ps, w)
    ensures ExtractAll(ps, lens).Taken? <==> Fits(lens, ps, w)
  {
    GreedyIffFits(ps, lens, w);
    if qs :| Placement(qs, lens, ps, w) {
      PlacementFits(qs, lens, ps, w);
    }
    if ExtractAll(ps, lens).Taken? {
      GreedyPlaces(ps, lens, w);
    }
  }

  lemma GreedyPlaces(ps: seq<IPNet>, lens: seq<nat>, w: nat)
    requires ListPool(ps, w) && ExtractAll(ps, lens).Taken?
    ensures Placement(ExtractAll(ps, lens).nets, lens, ps, w)
  {
    ExtractAllCarves(ps, lens, w);
    var t := ExtractAll(ps, lens);
    ListPoolConcat(t.nets, t.remaining, w);
    AddrsOfConcat(t.nets, t.remaining);
  }

  // ---- the order of the requests ----

  lemma {:induction false} DemandConcat(a: seq<nat>, b: seq<nat>, cap: nat, w: nat)
    ensures Demand(a + b, cap, w) == Demand(a, cap, w) + Demand(b, cap, w)
  {
    if a == [] {
      assert a + b == b;
    } else {
      DemandConcat(a[1..], b, cap, w);
      assert (a + b)[1..] == a[1..] + b;
    }
  }

  /** A permutation with one occurrence of the head taken out on both sides. */
  lemma MatchHead(a: seq<nat>, b: seq<nat>) returns (k: nat)
    requires multiset(a) == multiset(b) && a != []
    ensures k < |b| && b[k] == a[0] && b == b[..k] + [a[0]] + b[k + 1..]
    ensures multiset(a[1..]) == multiset(b[..k] + b[k + 1..])
  {
    assert a == [a[0]] + a[1..];
    assert a[0] in multiset(b);
    k :| 0 <= k < |b| && b[k] == a[0];
    assert b == b[..k] + [a[0]] + b[k + 1..];
    var rest := multiset(b[..k]) + multiset(b[k + 1..]);
    assert multiset(b) == multiset{a[0]} + rest;
    assert multiset(a) == multiset{a[0]} + multiset(a[1..]);
    assert multiset(a[1..]) == rest by {
      forall x: nat ensures multiset(a[1..])[x] == rest[x] {
        assert multiset(a)[x] == multiset(b)[x];
      }
    }
  }

  lemma {:induction false} DemandOfPermutation(a: seq<nat>, b: seq<nat>, cap: nat, w: nat)
    requires multiset(a) == multiset(b)
    ensures Demand(a, cap, w) == Demand(b, cap, w)
  {
    assert |a| == |multiset(a)| == |multiset(b)| == |b|;
    if a != [] {
      var k := MatchHead(a, b);
      var b1, b2 := b[..k], b[k + 1..];
      DemandOfPermutation(a[1..], b1 + b2, cap, w);
      DemandConcat(b1 + [a[0]], b2, cap, w);
      DemandConcat(b1, [a[0]], cap, w);
      DemandConcat(b1, b2, cap, w);
      assert a == [a[0]] + a[1..];
      DemandConcat([a[0]], a[1..], cap, w);
    }
  }

  /** Whether all required lengths can be served does not depend on the order they are served in. */
  lemma OrderDoesNotMatter(ps: seq<IPNet>, a: seq<nat>, b: seq<nat>, w: nat)
    requires ListPool(ps, w) && multiset(a) == multiset(b)
    ensures ExtractAll(ps, a).Taken? <==> ExtractAll(ps, b).Taken?
  {
    GreedyIffFits(ps, a, w);
    GreedyIffFits(ps, b, w);
    forall cap: nat ensures Demand(a, cap, w) == Demand(b, cap, w) {
      DemandOfPermutation(a, b, cap, w);
    }
    assert forall l :: l in a <==> l in multiset(a);
    assert forall l :: l in b <==> l in multiset(b);
  }

  // ---- reducedness is needed ----

  /** The larger members together with the block that two free siblings would make. */
  lemma SiblingsPlaced(ps: seq<IPNet>, p: IPNet, q: IPNet, w: nat)
    requires ListPool(ps, w) && p in ps && q in ps && Siblings(p, q)
    ensures var qs := UpToLen(ps, p.len - 1) + [Parent(p)];
            Placement(qs, Lens(qs), ps, w)
  {
    var r := Parent(p);
    var kept := UpToLen(ps, r.len);
    MergedSiblingsApart(ps, kept, p, q, w);
    UpToLenPool(ps, r.len, w);
    SinglePool(r, w);
    ListPoolConcat(kept, [r], w);
    AddrsOfConcat(kept, [r]);
  }

  lemma MergedSiblingsApart(ps: seq<IPNet>, kept: seq<IPNet>, p: IPNet, q: IPNet, w: nat)
    requires ListPool(ps, w) && p in ps && q in ps && Siblings(p, q)
    requires kept == UpToLen(ps, p.len - 1)
    ensures OfWidth(Parent(p), w) && Block(Parent(p)) !! AddrsOf(kept) && Block(Parent(p)) <= AddrsOf(ps)
  {
    hide ListPool, Canonical;
    MemberOfListPool(ps, p, w);
    MemberOfListPool(ps, q, w);
    SiblingsFormParent(p, q);
    UpToLenMembers(ps, p.len - 1);
    LargerMembersApart(ps, kept, p, w);
    LargerMembersApart(ps, kept, q, w);
  }

  const TWENTYFOUR := IPNet(0, 24, 8)
  const HALVES := [IPNet(0, 25, 7), IPNet(128, 25, 7)]

  lemma HalvesOfTwentyFour()
    ensures OfWidth(TWENTYFOUR, 32) && HALVES == [Left(TWENTYFOUR), Right(TWENTYFOUR)]
  {
    Pow2Monotone(8, 32);
    AlignedIsMultiple(0, 8);
    assert Pow2(3) == 8;
    Pow2Add(3, 4);
  }

  /** Both halves of a /24 are free, and best fit finds no room for a /24. */
  lemma TwoHalvesNoRoom()
    ensures ListPool(HALVES, 32) && Placement([TWENTYFOUR], [24], HALVES, 32) && ExtractAll(HALVES, [24]).Short?
  {
    hide Canonical, Pow2;
    HalvesOfTwentyFour();
    Halves(TWENTYFOUR);
    SinglePool(TWENTYFOUR, 32);
    SinglePool(Right(TWENTYFOUR), 32);
    assert HALVES[1..] == [Right(TWENTYFOUR)];
    assert Lens([TWENTYFOUR]) == [24];
    assert Scan(HALVES, 24, 1, -1) == Scan(HALVES, 24, 2, -1) == -1;
    assert ExtractOne(HALVES, 24) == NoRoom;
  }

  /** If two siblings are free, some lengths have a placement that best fit does not find. */
  lemma SiblingsDefeatBestFit(ps: seq<IPNet>, p: IPNet, q: IPNet, w: nat)
    requires ListPool(ps, w) && p in ps && q in ps && Siblings(p, q)
    ensures exists lens :: (exists qs :: Placement(qs, lens, ps, w)) && ExtractAll(ps, lens).Short?
  {
    SiblingsPlaced(ps, p, q, w);
    var r := Parent(p);
    var cap := r.len;
    var kept := UpToLen(ps, cap);
    var qs := kept + [r];
    var lens := Lens(qs);
    DemandOfNets(qs, cap, w);
    FreeUpToConcat(kept, [r], cap);
    assert FreeUpTo([r], cap) == Size(r);
    FreeOfUpToLen(ps, cap);
    MemberOfListPool(ps, p, w);
    assert Demand(lens, cap, w) > FreeUpTo(ps, cap) && cap <= w;
    GreedyIffFits(ps, lens, w);
  }

  lemma {:induction false} FreeOfUpToLen(ps: seq<IPNet>, cap: nat)
    ensures FreeUpTo(UpToLen(ps, cap), cap) == FreeUpTo(ps, cap)
  {
    if ps != [] {
      FreeOfUpToLen(ps[1..], cap);
      if ps[0].len <= cap {
        UpToLenTail(ps, cap);
      }
    }
  }

  lemma LargerMembersApart(ps: seq<IPNet>, kept: seq<IPNet>, p: IPNet, w: nat)
    requires ListPool(ps, w) && p in ps
    requires forall k :: k in kept ==> k in ps && k != p
    ensures Block(p) !! AddrsOf(kept)
  {
    ListPoolIsPool(ps, w);
    AddrsOfIsAddrs(kept);
    forall a | a in AddrsOf(kept) ensures a !in Block(p) {
      var k :| k in Elems(kept) && a in Block(k);
      assert k in Elems(ps) && p in Elems(ps) && k != p;
    }
  }

  /** Best fit finds every placement there is exactly when the free prefixes are reduced. */
  lemma OptimalIffReduced(ps: seq<IPNet>, w: nat)
    requires ListPool(ps, w)
    ensures Reduced(Elems(ps)) <==>
            forall lens :: (exists qs :: Placement(qs, lens, ps, w)) ==> ExtractAll(ps, lens).Taken?
  {
    if Reduced(Elems(ps)) {
      forall lens | exists qs :: Placement(qs, lens, ps, w) ensures ExtractAll(ps, lens).Taken? {
        BestFitIsOptimal(ps, lens, w);
      }
    } else {
      var p, q :| p in Elems(ps) && q in Elems(ps) && Siblings(p, q);
      SiblingsDefeatBestFit(ps, p, q, w);
    }
  }
}
