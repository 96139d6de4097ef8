/**
 * Taking networks out of a list of free ones: best fit by repeated halving.
 *
 * The functions say what each loop of the allocator computes; the methods are those loops. The
 * lemmas say what the computation means for the address space.
 */
module Extraction {
  import opened BigInt
  import opened Powers
  import opened IPNets
  import opened Spaces

  datatype Extracted = Extracted(net: IPNet, remaining: seq<IPNet>) | NoRoom

  datatype Taken = Taken(nets: seq<IPNet>, remaining: seq<IPNet>) | Short

  datatype Family = IPv4 | IPv6 | OtherFamily

  datatype AddrFamily = NilFamily | AddrFamily(family: Family)

  datatype Request =
    | NilRequest
    | Request(addrFamily: AddrFamily, prefixLen: nat, required: nat, requested: nat)

  /** `ExtraPrefixRequest.IsValid`. */
  predicate IsValid(r: Request) {
    && r.Request?
    && r.required >= 1
    && r.requested >= 1
    && r.required <= r.requested
    && r.prefixLen >= 1
    && r.addrFamily.AddrFamily?
    && (r.addrFamily.family == IPv4 ==> r.prefixLen <= 32)
    && (r.addrFamily.family == IPv6 ==> r.prefixLen <= 128)
  }

  function Width(family: Family): nat {
    match family
    case IPv4 => 32
    case IPv6 => 128
    case OtherFamily => 0
  }

  /** A request of a known family is valid if its numbers are in order and networks of its length exist. */
  lemma ValidIff(r: Request)
    requires r.Request? && r.addrFamily.AddrFamily? && r.addrFamily.family != OtherFamily
    ensures IsValid(r) <==>
            && 1 <= r.required <= r.requested && r.prefixLen >= 1
            && exists p :: OfWidth(p, Width(r.addrFamily.family)) && p.len == r.prefixLen
  {
    var w := Width(r.addrFamily.family);
    if r.prefixLen <= w {
      var p := IPNet(0, r.prefixLen, w - r.prefixLen);
      Pow2Monotone(p.host, w);
      AlignedIsMultiple(0, p.host);
      MultipleZero(Pow2(p.host));
      assert OfWidth(p, w);
    }
  }

  /** A missing request or family is never valid; an unknown family has no limit of its own. */
  lemma ValidOtherwise(r: Request)
    ensures r.NilRequest? || r.addrFamily.NilFamily? ==> !IsValid(r)
    ensures r.Request? && r.addrFamily == AddrFamily(OtherFamily) ==>
              (IsValid(r) <==> 1 <= r.required <= r.requested && r.prefixLen >= 1)
  {
  }

  // ---- one network ----

  /**
   * The search loop of `ExtractPrefix` from index `i` on, with `best` the split candidate so far
   * (-1 for none). A candidate of length 0 is always replaced, as its length doubles as "none".
   */
  function Scan(ps: seq<IPNet>, want: nat, i: nat, best: int): (r: int)
    requires i <= |ps| && -1 <= best < i
    ensures -1 <= r < |ps|
    decreases |ps| - i
  {
    if i == |ps| then best
    else if ps[i].len == want then i
    else if ps[i].len < want && (best == -1 || ps[best].len == 0 || ps[i].len > ps[best].len) then
      Scan(ps, want, i + 1, i)
    else
      Scan(ps, want, i + 1, best)
  }

  /** The right halves that splitting `root` down to length `want` leaves, deepest first. */
  function Rights(root: IPNet, want: nat): seq<IPNet>
    requires root.len <= want <= root.len + root.host
    decreases want - root.len
  {
    if root.len == want then [] else Rights(Half(root, 0), want) + [Half(root, 1)]
  }

  function Leftmost(root: IPNet, want: nat): IPNet
    requires root.len <= want <= root.len + root.host
    decreases want - root.len
  {
    if root.len == want then root else Leftmost(Half(root, 0), want)
  }

  lemma {:induction false} ScanIsBestFit(ps: seq<IPNet>, want: nat, i: nat, best: int)
    requires i <= |ps| && -1 <= best < i
    requires best != -1 ==> ps[best].len < want
    requires forall j :: 0 <= j < i && ps[j].len <= want ==> best != -1 && ps[j].len <= ps[best].len
    ensures var r := Scan(ps, want, i, best);
            && (r != -1 ==> ps[r].len <= want)
            && forall j :: 0 <= j < |ps| && ps[j].len <= want ==> r != -1 && ps[j].len <= ps[r].len
    decreases |ps| - i
  {
    if i < |ps| && ps[i].len != want {
      if ps[i].len < want && (best == -1 || ps[best].len == 0 || ps[i].len > ps[best].len) {
        ScanIsBestFit(ps, want, i + 1, i);
      } else {
        ScanIsBestFit(ps, want, i + 1, best);
      }
    }
  }

  /**
   * Which of them: the first of the greatest length that fits, except that among prefixes of length
   * zero, which the search takes for none, it is the last.
   */
  ghost predicate BestAt(ps: seq<IPNet>, want: nat, i: nat) {
    && i < |ps| && ps[i].len <= want
    && (forall j :: 0 <= j < |ps| && ps[j].len <= want ==> ps[j].len <= ps[i].len)
    && (ps[i].len > 0 || want == 0 ==> forall j :: 0 <= j < i ==> ps[j].len > want || ps[j].len < ps[i].len)
    && (ps[i].len == 0 && want > 0 ==> forall j :: i < j < |ps| ==> ps[j].len > want)
  }

  lemma {:induction false} ScanTakesFirst(ps: seq<IPNet>, want: nat, i: nat, best: int)
    requires i <= |ps| && -1 <= best < i
    requires best == -1 ==> forall j :: 0 <= j < i ==> ps[j].len > want
    requires best != -1 ==>
               && ps[best].len < want
               && (forall j :: 0 <= j < i && ps[j].len <= want ==> ps[j].len <= ps[best].len)
               && (ps[best].len > 0 ==> forall j :: 0 <= j < best ==> ps[j].len > want || ps[j].len < ps[best].len)
               && (ps[best].len == 0 ==> forall j :: best < j < i ==> ps[j].len > want)
    ensures var r := Scan(ps, want, i, best);
            if r == -1 then forall j :: 0 <= j < |ps| ==> ps[j].len > want else BestAt(ps, want, r)
    decreases |ps| - i
  {
    if i < |ps| && ps[i].len != want {
      if ps[i].len < want && (best == -1 || ps[best].len == 0 || ps[i].len > ps[best].len) {
        ScanTakesFirst(ps, want, i + 1, i);
      } else {
        ScanTakesFirst(ps, want, i + 1, best);
      }
    }
  }

  /** The leftmost block starts where the root does. */
  lemma {:induction false} LeftmostIs(root: IPNet, want: nat)
    requires root.len <= want <= root.len + root.host
    ensures Leftmost(root, want) == IPNet(root.base, want, root.len + root.host - want)
    decreases want - root.len
  {
    if root.len < want {
      OrZero(root.base);
      LeftmostIs(Half(root, 0), want);
    }
  }

  /** The right halves, deepest first: each starts one block of its own size after the root does. */
  ghost predicate AreRights(parts: seq<IPNet>, root: IPNet, want: nat, w: nat)
    requires root.len <= want <= w
  {
    && |parts| == want - root.len
    && forall i :: 0 <= i < |parts| ==> parts[i] == IPNet(root.base + Pow2(w - want + i), want - i, w - want + i)
  }

  lemma {:induction false} RightsAre(root: IPNet, want: nat, w: nat)
    requires OfWidth(root, w) && root.len <= want <= w
    ensures AreRights(Rights(root, want), root, want, w)
    decreases want - root.len
  {
    if root.len < want {
      hide Canonical, Pow2;
      SubnetIsHalf(root);
      Halves(root);
      RightsAre(Left(root), want, w);
    }
  }

  /** Cutting the member at `i` down to length `want`, its right halves put in its place. */
  function CutAt(ps: seq<IPNet>, i: nat, want: nat): Extracted
    requires i < |ps| && ps[i].len <= want
  {
    if want > ps[i].len + ps[i].host then NoRoom
    else Extracted(Leftmost(ps[i], want), ps[..i] + Rights(ps[i], want) + ps[i + 1..])
  }

  /** What `ExtractPrefix` returns. */
  function ExtractOne(ps: seq<IPNet>, want: nat): Extracted {
    ScanIsBestFit(ps, want, 0, -1);
    var i := Scan(ps, want, 0, -1);
    if i == -1 then NoRoom else CutAt(ps, i, want)
  }

  lemma ExactCut(ps: seq<IPNet>, i: nat)
    requires i < |ps|
    ensures CutAt(ps, i, ps[i].len) == Extracted(ps[i], ps[..i] + ps[i + 1..])
  {
    assert ps[..i] + [] == ps[..i];
  }

  function Rev(s: seq<IPNet>): (r: seq<IPNet>)
    ensures |r| == |s| && forall i :: 0 <= i < |s| ==> r[i] == s[|s| - 1 - i]
  {
    seq(|s|, i requires 0 <= i < |s| => s[|s| - 1 - i])
  }

  /** `reverse`. */
  method Reverse(values: seq<IPNet>) returns (r: seq<IPNet>)
    ensures r == Rev(values)
  {
    var n := |values|;
    var newValues := new IPNet[n](_ => IPNet(0, 0, 0));
    var i, j := 0, n - 1;
    while i <= j
      invariant 0 <= i <= n && j == n - 1 - i && i <= j + 2
      invariant forall k :: 0 <= k < n && (k < i || k > j) ==> newValues[k] == values[n - 1 - k]
    {
      newValues[i] := values[j];
      if i != j {
        newValues[j] := values[i];
      }
      i, j := i + 1, j - 1;
    }
    r := newValues[..];
  }

  /** `ExtractPrefix`: an exact match, else the longest shorter prefix, split down the left side. */
  method ExtractPrefix(prefixes: seq<IPNet>, prefixLen: nat) returns (r: Extracted)
    ensures r == ExtractOne(prefixes, prefixLen)
  {
    var maxPrefix, maxPrefixIdx := 0, -1;
    for idx := 0 to |prefixes|
      invariant -1 <= maxPrefixIdx < idx
      invariant maxPrefix == if maxPrefixIdx == -1 then 0 else prefixes[maxPrefixIdx].len
      invariant maxPrefixIdx != -1 ==> maxPrefix < prefixLen
      invariant Scan(prefixes, prefixLen, 0, -1) == Scan(prefixes, prefixLen, idx, maxPrefixIdx)
    {
      var parentLen := prefixes[idx].len;
      if prefixLen == parentLen {
        ExactCut(prefixes, idx);
        return Extracted(prefixes[idx], prefixes[..idx] + prefixes[idx + 1..]);
      } else if parentLen < prefixLen && (parentLen > maxPrefix || maxPrefix == 0) {
        maxPrefix := parentLen;
        maxPrefixIdx := idx;
      }
    }
    if maxPrefixIdx == -1 {
      return NoRoom;
    }
    var ok, net, parts := SplitRoot(prefixes[maxPrefixIdx], prefixLen);
    if !ok {
      return NoRoom;
    }
    r := Extracted(net, prefixes[..maxPrefixIdx] + parts + prefixes[maxPrefixIdx + 1..]);
  }

  /** The split loop of `ExtractPrefix`: keep the left half, set the right half aside. */
  method SplitRoot(root: IPNet, prefixLen: nat) returns (ok: bool, net: IPNet, parts: seq<IPNet>)
    requires root.len <= prefixLen
    ensures ok <==> prefixLen <= root.len + root.host
    ensures ok ==> net == Leftmost(root, prefixLen) && parts == Rights(root, prefixLen)
  {
    var rightParts: seq<IPNet> := [];
    net := root;
    parts := [];
    while net.len != prefixLen
      invariant net.len <= prefixLen && net.len + net.host == root.len + root.host
      invariant prefixLen <= root.len + root.host ==>
                  && Leftmost(root, prefixLen) == Leftmost(net, prefixLen)
                  && Rights(root, prefixLen) == Rights(net, prefixLen) + Rev(rightParts)
      decreases net.host
    {
      var sub1 := Subnet(net, 0);
      if sub1.NoCut? {
        return false, net, [];
      }
      var sub2 := Subnet(net, 1);
      if sub2.NoCut? {
        return false, net, [];
      }
      assert Rev(rightParts + [sub2.net]) == [sub2.net] + Rev(rightParts);
      rightParts := rightParts + [sub2.net];
      net := sub1.net;
    }
    parts := Reverse(rightParts);
    ok := true;
  }

  // ---- what one extraction does to the address space ----

  /** `ps` has been cut into `nets` and `rem`: no address is lost, gained or shared. */
  ghost predicate Carved(ps: seq<IPNet>, nets: seq<IPNet>, rem: seq<IPNet>, w: nat) {
    && ListPool(nets + rem, w)
    && AddrsOf(nets + rem) == AddrsOf(ps)
    && (Reduced(Elems(ps)) ==> Reduced(Elems(rem)))
  }

  /** Splitting is an exact partition of the root. */
  lemma {:induction false} SplitIsPartition(root: IPNet, want: nat, w: nat)
    requires OfWidth(root, w) && root.len <= want <= w
    ensures ListPool([Leftmost(root, want)] + Rights(root, want), w)
    ensures AddrsOf([Leftmost(root, want)] + Rights(root, want)) == Block(root)
    decreases want - root.len
  {
    var net := Leftmost(root, want);
    if root.len == want {
      assert [net] + Rights(root, want) == [root];
    } else {
      Halves(root);
      SubnetIsHalf(root);
      var l, r := Left(root), Right(root);
      SplitIsPartition(l, want, w);
      var deep := [net] + Rights(l, want);
      assert [net] + Rights(root, want) == deep + [r];
      ListPoolConcat(deep, [r], w);
      AddrsOfConcat(deep, [r]);
    }
  }

  /** The right halves have different lengths, and each one's sibling lies inside the root. */
  lemma {:induction false} RightsHaveNoSiblings(root: IPNet, want: nat, w: nat)
    requires OfWidth(root, w) && root.len <= want <= w
    ensures Reduced(Elems(Rights(root, want)))
    ensures forall t :: t in Rights(root, want) ==> t.len > root.len && Block(Parent(t)) <= Block(root)
    decreases want - root.len
  {
    if root.len < want {
      Halves(root);
      SubnetIsHalf(root);
      RightsHaveNoSiblings(Left(root), want, w);
      ParentOfHalves(root);
    }
  }

  /** Putting the pieces of one member in its place keeps the pool. */
  lemma ReplaceMember(a: seq<IPNet>, root: IPNet, c: seq<IPNet>, net: IPNet, parts: seq<IPNet>, w: nat)
    requires ListPool(a + [root] + c, w)
    requires ListPool([net] + parts, w) && AddrsOf([net] + parts) == Block(root)
    ensures ListPool([net] + (a + parts + c), w)
    ensures AddrsOf([net] + (a + parts + c)) == AddrsOf(a + [root] + c)
  {
    ListPoolConcat(a + [root], c, w);
    ListPoolConcat(a, [root], w);
    AddrsOfConcat(a + [root], c);
    AddrsOfConcat(a, [root]);
    ListPoolConcat([net], parts, w);
    AddrsOfConcat([net], parts);
    ListPoolConcat([net], a + parts + c, w);
    AddrsOfConcat([net], a + parts + c);
    ListPoolConcat(a + parts, c, w);
    AddrsOfConcat(a + parts, c);
    ListPoolConcat(a, parts, w);
    AddrsOfConcat(a, parts);
    SinglePool(root, w);
  }

  lemma PiecesStayReduced(s: set<IPNet>, root: IPNet, parts: set<IPNet>, w: nat)
    requires Pool(s, w) && Reduced(s) && root in s
    requires AllOfWidth(parts, w) && Reduced(parts)
    requires forall t :: t in parts ==> t.len > 0 && Block(Parent(t)) <= Block(root)
    ensures Reduced((s - {root}) + parts)
  {
    forall p, q | p in s && p != root && q in parts
      ensures !Siblings(p, q) && !Siblings(q, p)
    {
      if Siblings(p, q) || Siblings(q, p) {
        SiblingsFormParent(q, p);
        assert false;
      }
    }
  }

  /** The member that best fit cuts, and what it leaves. */
  lemma SplitStaysReduced(ps: seq<IPNet>, i: nat, want: nat, w: nat)
    requires ListPool(ps, w) && Reduced(Elems(ps)) && i < |ps|
    requires ps[i].len <= want <= w && OfWidth(ps[i], w)
    ensures Reduced(Elems(ps[..i] + Rights(ps[i], want) + ps[i + 1..]))
  {
    var root, parts := ps[i], Rights(ps[i], want);
    RightsHaveNoSiblings(root, want, w);
    SplitIsPartition(root, want, w);
    ListPoolConcat([Leftmost(root, want)], parts, w);
    ListPoolIsPool(parts, w);
    ListPoolIsPool(ps, w);
    PiecesStayReduced(Elems(ps), root, Elems(parts), w);
    ElemsOfReplacement(ps, i, parts);
  }

  lemma ElemsOfReplacement(ps: seq<IPNet>, i: nat, parts: seq<IPNet>)
    requires Distinct(ps) && i < |ps|
    ensures Elems(ps[..i] + parts + ps[i + 1..]) == (Elems(ps) - {ps[i]}) + Elems(parts)
  {
    assert ps == ps[..i] + [ps[i]] + ps[i + 1..];
  }

  lemma CutAtCarves(ps: seq<IPNet>, i: nat, want: nat, w: nat)
    requires ListPool(ps, w) && i < |ps| && ps[i].len <= want
    ensures CutAt(ps, i, want).Extracted? <==> want <= w
    ensures var r := CutAt(ps, i, want);
            r.Extracted? ==> r.net.len == want && Carved(ps, [r.net], r.remaining, w)
  {
    hide Reduced, Canonical, Leftmost, Rights, ListPool, AddrsOf;
    var root := ps[i];
    MemberOfListPool(ps, root, w);
    if want <= w {
      SplitIsPartition(root, want, w);
      LeftmostIs(root, want);
      assert ps == ps[..i] + [root] + ps[i + 1..];
      ReplaceMember(ps[..i], root, ps[i + 1..], Leftmost(root, want), Rights(root, want), w);
      if Reduced(Elems(ps)) {
        SplitStaysReduced(ps, i, want, w);
      }
    }
  }

  /**
   * `ExtractPrefix` on a pool: it succeeds exactly when some free prefix is long enough to be cut
   * (and the length exists in the family), and then it cuts the pool exactly.
   */
  lemma ExtractOneCarves(ps: seq<IPNet>, want: nat, w: nat)
    requires ListPool(ps, w)
    ensures ExtractOne(ps, want).Extracted? <==> want <= w && exists p :: p in ps && p.len <= want
    ensures var r := ExtractOne(ps, want);
            r.Extracted? ==> r.net.len == want && Carved(ps, [r.net], r.remaining, w)
  {
    ScanIsBestFit(ps, want, 0, -1);
    var i := Scan(ps, want, 0, -1);
    if i != -1 {
      CutAtCarves(ps, i, want, w);
      assert ps[i] in ps;
    }
  }

  /**
   * What `ExtractPrefix` returns, place by place: the start of the best fitting prefix, and the list
   * with the right halves of that prefix, deepest first, where it was.
   */
  lemma ExtractOneExactly(ps: seq<IPNet>, want: nat, w: nat) returns (i: nat, parts: seq<IPNet>)
    requires ListPool(ps, w)
    ensures var r := ExtractOne(ps, want);
            r.Extracted? ==>
              && BestAt(ps, want, i) && want <= w && AreRights(parts, ps[i], want, w)
              && r.net == IPNet(ps[i].base, want, w - want)
              && r.remaining == ps[..i] + parts + ps[i + 1..]
  {
    hide ListPool, Canonical, AreRights, BestAt, Scan, Rights, Leftmost;
    i, parts := 0, [];
    var at := Scan(ps, want, 0, -1);
    ScanIsBestFit(ps, want, 0, -1);
    ScanTakesFirst(ps, want, 0, -1);
    if at != -1 {
      MemberOfListPool(ps, ps[at], w);
      if want <= w {
        i, parts := at, Rights(ps[at], want);
        RightsAre(ps[at], want, w);
        LeftmostIs(ps[at], want);
      }
    }
  }

  /** No false refusal: on a reduced pool a length is refused only when no block of it is free. */
  lemma NoFalseRefusal(ps: seq<IPNet>, want: nat, w: nat)
    requires ListPool(ps, w) && Reduced(Elems(ps))
    ensures ExtractOne(ps, want).Extracted? <==>
              exists q :: OfWidth(q, w) && q.len == want && Block(q) <= AddrsOf(ps)
  {
    ExtractOneCarves(ps, want, w);
    if q :| OfWidth(q, w) && q.len == want && Block(q) <= AddrsOf(ps) {
      var p := FreeAround(ps, q, w);
    }
    if ExtractOne(ps, want).Extracted? {
      var r := ExtractOne(ps, want);
      MemberOfListPool([r.net] + r.remaining, r.net, w);
    }
  }

  /** A free block lies in one free prefix, which is no longer than the block's own prefix. */
  lemma FreeAround(ps: seq<IPNet>, q: IPNet, w: nat) returns (p: IPNet)
    requires ListPool(ps, w) && Reduced(Elems(ps))
    requires OfWidth(q, w) && Block(q) <= AddrsOf(ps)
    ensures p in ps && OfWidth(p, w) && p.len <= q.len && Block(q) <= Block(p)
  {
    ListPoolIsPool(ps, w);
    AddrsOfIsAddrs(ps);
    p := CoveredByOne(Elems(ps), q, w);
    if Block(q) == Block(p) {
      SameBlockSameNet(p, q, w);
    } else {
      SmallerBlockDeeper(p, q, w);
    }
  }

  // ---- several requests ----

  predicate AllValid(rs: seq<Request>) {
    forall i :: 0 <= i < |rs| ==> IsValid(rs[i])
  }

  function Repeat(len: nat, n: nat): seq<nat> {
    if n == 0 then [] else [len] + Repeat(len, n - 1)
  }

  /** The lengths the required phase asks for, in order. */
  function RequiredLens(rs: seq<Request>): seq<nat>
    requires AllValid(rs)
  {
    if rs == [] then [] else Repeat(rs[0].prefixLen, rs[0].required) + RequiredLens(rs[1..])
  }

  /** The required phase: every length or nothing. */
  function ExtractAll(ps: seq<IPNet>, lens: seq<nat>): Taken
    decreases |lens|
  {
    if lens == [] then Taken([], ps)
    else
      match ExtractOne(ps, lens[0])
      case NoRoom => Short
      case Extracted(net, rem) => After([net], ExtractAll(rem, lens[1..]))
  }

  function After(nets: seq<IPNet>, t: Taken): Taken {
    match t
    case Short => Short
    case Taken(more, rem) => Taken(nets + more, rem)
  }

  /** The optional phase for one request: up to `n` more, as far as there is room. */
  function UpTo(ps: seq<IPNet>, len: nat, n: nat): (t: Taken)
    ensures t.Taken?
    decreases n
  {
    if n == 0 then Taken([], ps)
    else
      match ExtractOne(ps, len)
      case NoRoom => Taken([], ps)
      case Extracted(net, rem) => After([net], UpTo(rem, len, n - 1))
  }

  function TopUp(ps: seq<IPNet>, rs: seq<Request>): (t: Taken)
    requires AllValid(rs)
    ensures t.Taken?
    decreases |rs|
  {
    if rs == [] then Taken([], ps)
    else
      var t := UpTo(ps, rs[0].prefixLen, rs[0].requested - rs[0].required);
      After(t.nets, TopUp(t.remaining, rs[1..]))
  }

  /** What `ExtractPrefixes` grants. */
  function ExtractMany(ps: seq<IPNet>, rs: seq<Request>): Taken {
    if !AllValid(rs) then Short
    else
      match ExtractAll(ps, RequiredLens(rs))
      case Short => Short
      case Taken(nets, rem) =>
        var t := After(nets, TopUp(rem, rs));
        if t.nets == [] then Short else t
  }

  lemma AfterAfter(a: seq<IPNet>, b: seq<IPNet>, t: Taken)
    ensures After(a, After(b, t)) == After(a + b, t)
    ensures After([], t) == t
  {
    if t.Taken? {
      assert a + (b + t.nets) == a + b + t.nets;
    }
  }

  function Lens(nets: seq<IPNet>): (r: seq<nat>)
    ensures |r| == |nets| && forall i :: 0 <= i < |nets| ==> r[i] == nets[i].len
  {
    seq(|nets|, i requires 0 <= i < |nets| => nets[i].len)
  }

  lemma LensConcat(a: seq<IPNet>, b: seq<IPNet>)
    ensures Lens(a + b) == Lens(a) + Lens(b)
  {
  }

  /** Carving twice is carving once. */
  lemma CarvedThen(ps: seq<IPNet>, a: seq<IPNet>, mid: seq<IPNet>, b: seq<IPNet>, rem: seq<IPNet>, w: nat)
    requires Carved(ps, a, mid, w) && Carved(mid, b, rem, w)
    ensures Carved(ps, a + b, rem, w)
  {
    ListPoolConcat(a, mid, w);
    AddrsOfConcat(a, mid);
    assert a + b + rem == a + (b + rem);
    ListPoolConcat(a, b + rem, w);
    AddrsOfConcat(a, b + rem);
  }

  lemma CarvedNothing(ps: seq<IPNet>, w: nat)
    requires ListPool(ps, w)
    ensures Carved(ps, [], ps, w) && Lens([]) == []
  {
    assert [] + ps == ps;
  }

  lemma CarvedRest(ps: seq<IPNet>, nets: seq<IPNet>, rem: seq<IPNet>, w: nat)
    requires Carved(ps, nets, rem, w)
    ensures ListPool(rem, w) && ListPool(nets, w) && AddrsOf(nets) !! AddrsOf(rem)
    ensures AddrsOf(nets) + AddrsOf(rem) == AddrsOf(ps)
  {
    ListPoolConcat(nets, rem, w);
    AddrsOfConcat(nets, rem);
  }

  /** What an extraction and everything taken from its remainder give together. */
  lemma OneThenRest(ps: seq<IPNet>, len: nat, e: Extracted, t: Taken, w: nat)
    requires e.Extracted? && e.net.len == len && Carved(ps, [e.net], e.remaining, w)
    requires t.Taken? && Carved(e.remaining, t.nets, t.remaining, w)
    ensures After([e.net], t) == Taken([e.net] + t.nets, t.remaining)
    ensures Lens([e.net] + t.nets) == [len] + Lens(t.nets)
    ensures Carved(ps, [e.net] + t.nets, t.remaining, w)
  {
    LensConcat([e.net], t.nets);
    CarvedThen(ps, [e.net], e.remaining, t.nets, t.remaining, w);
  }

  lemma {:induction false} ExtractAllCarves(ps: seq<IPNet>, lens: seq<nat>, w: nat)
    requires ListPool(ps, w)
    ensures var t := ExtractAll(ps, lens);
            t.Taken? ==> Lens(t.nets) == lens && Carved(ps, t.nets, t.remaining, w)
    decreases |lens|
  {
    hide ExtractOne, ListPool, Carved, Lens;
    if lens == [] {
      CarvedNothing(ps, w);
    } else {
      var e := ExtractOne(ps, lens[0]);
      ExtractOneCarves(ps, lens[0], w);
      if e.Extracted? {
        CarvedRest(ps, [e.net], e.remaining, w);
        var t := ExtractAll(e.remaining, lens[1..]);
        ExtractAllCarves(e.remaining, lens[1..], w);
        if t.Taken? {
          OneThenRest(ps, lens[0], e, t, w);
          assert lens == [lens[0]] + lens[1..];
        }
      }
    }
  }

  /** `ExtractPrefixes`: an error leaves the caller with the prefixes it passed in. */
  method ExtractPrefixes(prefixes: seq<IPNet>, requests: seq<Request>)
    returns (ok: bool, result: seq<IPNet>, remaining: seq<IPNet>)
    ensures ok == ExtractMany(prefixes, requests).Taken?
    ensures ok ==> Taken(result, remaining) == ExtractMany(prefixes, requests)
    ensures !ok ==> result == [] && remaining == prefixes
  {
    for k := 0 to |requests|
      invariant forall j :: 0 <= j < k ==> IsValid(requests[j])
    {
      if !IsValid(requests[k]) {
        return false, [], prefixes;
      }
    }
    ok, result, remaining := RequiredPhase(prefixes, requests);
    if !ok {
      return false, [], prefixes;
    }
    result, remaining := OptionalPhase(result, remaining, requests);
    if |result| == 0 {
      return false, [], prefixes;
    }
  }

  /** The first loop over the requests: all the required networks. */
  method RequiredPhase(prefixes: seq<IPNet>, requests: seq<Request>)
    returns (ok: bool, result: seq<IPNet>, remaining: seq<IPNet>)
    requires AllValid(requests)
    ensures ExtractAll(prefixes, RequiredLens(requests)) == if ok then Taken(result, remaining) else Short
  {
    hide ExtractOne, ExtractAll, Repeat, RequiredLens;
    ok, result, remaining := true, [], prefixes;
    ghost var all := ExtractAll(prefixes, RequiredLens(requests));
    AfterAfter([], [], all);
    assert requests[0..] == requests;
    for k := 0 to |requests|
      invariant all == After(result, ExtractAll(remaining, RequiredLens(requests[k..])))
    {
      var request := requests[k];
      ghost var rest := RequiredLens(requests[k + 1..]);
      RequiredFrom(requests, k);
      for i := 0 to request.required
        invariant all == After(result, ExtractAll(remaining, Repeat(request.prefixLen, request.required - i) + rest))
      {
        UnfoldRepeat(remaining, request.prefixLen, request.required - i, rest);
        var e := ExtractPrefix(remaining, request.prefixLen);
        if e.NoRoom? {
          return false, [], prefixes;
        }
        AfterAfter(result, [e.net],
                   ExtractAll(e.remaining, Repeat(request.prefixLen, request.required - i - 1) + rest));
        result, remaining := result + [e.net], e.remaining;
      }
      NoMoreOf(request.prefixLen, rest);
    }
    NoneRequired(requests, remaining);
  }

  lemma RequiredFrom(requests: seq<Request>, k: nat)
    requires AllValid(requests) && k < |requests|
    ensures RequiredLens(requests[k..]) ==
            Repeat(requests[k].prefixLen, requests[k].required) + RequiredLens(requests[k + 1..])
  {
    assert requests[k..][1..] == requests[k + 1..];
  }

  lemma NoMoreOf(len: nat, rest: seq<nat>)
    ensures Repeat(len, 0) + rest == rest
  {
  }

  lemma NoneRequired(requests: seq<Request>, ps: seq<IPNet>)
    requires AllValid(requests)
    ensures ExtractAll(ps, RequiredLens(requests[|requests|..])) == Taken([], ps)
  {
  }

  lemma UnfoldRepeat(ps: seq<IPNet>, len: nat, n: nat, rest: seq<nat>)
    requires n > 0
    ensures ExtractAll(ps, Repeat(len, n) + rest) ==
            match ExtractOne(ps, len)
            case NoRoom => Short
            case Extracted(net, rem) => After([net], ExtractAll(rem, Repeat(len, n - 1) + rest))
  {
    var lens := Repeat(len, n) + rest;
    assert lens[0] == len && lens[1..] == Repeat(len, n - 1) + rest;
  }

  /** The second loop: more networks up to the requested numbers, stopping at each first refusal. */
  method OptionalPhase(result0: seq<IPNet>, remaining0: seq<IPNet>, requests: seq<Request>)
    returns (result: seq<IPNet>, remaining: seq<IPNet>)
    requires AllValid(requests)
    ensures Taken(result, remaining) == After(result0, TopUp(remaining0, requests))
  {
    hide ExtractOne, UpTo;
    result, remaining := result0, remaining0;
    ghost var all := After(result0, TopUp(remaining0, requests));
    assert requests[0..] == requests;
    for k := 0 to |requests|
      invariant all == After(result, TopUp(remaining, requests[k..]))
    {
      var request := requests[k];
      var n := request.requested - request.required;
      assert requests[k..][1..] == requests[k + 1..];
      ghost var t := UpTo(remaining, request.prefixLen, n);
      AfterAfter(result, t.nets, TopUp(t.remaining, requests[k + 1..]));
      result, remaining := ExtractUpTo(result, remaining, request.prefixLen, n);
    }
  }

  /** Its inner loop, for one request. */
  method ExtractUpTo(result0: seq<IPNet>, remaining0: seq<IPNet>, prefixLen: nat, n: nat)
    returns (result: seq<IPNet>, remaining: seq<IPNet>)
    ensures Taken(result, remaining) == After(result0, UpTo(remaining0, prefixLen, n))
  {
    hide ExtractOne;
    result, remaining := result0, remaining0;
    for i := 0 to n
      invariant After(result0, UpTo(remaining0, prefixLen, n)) == After(result, UpTo(remaining, prefixLen, n - i))
    {
      var e := ExtractPrefix(remaining, prefixLen);
      if e.NoRoom? {
        break;
      }
      AfterAfter(result, [e.net], UpTo(e.remaining, prefixLen, n - i - 1));
      result, remaining := result + [e.net], e.remaining;
    }
  }

  // ---- what the requests are granted ----

  /** No member is cut from and none is handed out for the length `len`. */
  predicate NoRoomFor(ps: seq<IPNet>, len: nat, w: nat) {
    len > w || forall p :: p in ps ==> p.len > len
  }

  lemma NoRoomIsRefusal(ps: seq<IPNet>, len: nat, w: nat)
    requires ListPool(ps, w)
    ensures ExtractOne(ps, len).NoRoom? <==> NoRoomFor(ps, len, w)
  {
    ExtractOneCarves(ps, len, w);
  }

  lemma {:induction false} RightsAreLonger(root: IPNet, want: nat)
    requires root.len <= want <= root.len + root.host
    ensures forall p :: p in Rights(root, want) ==> p.len > root.len
    decreases want - root.len
  {
    if root.len < want {
      RightsAreLonger(Half(root, 0), want);
    }
  }

  /** Once a length has no room, extractions do not make room for it again. */
  lemma NoRoomStays(ps: seq<IPNet>, len: nat, want: nat, w: nat)
    requires NoRoomFor(ps, len, w) && ExtractOne(ps, want).Extracted?
    ensures NoRoomFor(ExtractOne(ps, want).remaining, len, w)
  {
    ScanIsBestFit(ps, want, 0, -1);
    RightsAreLonger(ps[Scan(ps, want, 0, -1)], want);
  }

  lemma {:induction false} UpToCarves(ps: seq<IPNet>, len: nat, n: nat, w: nat)
    requires ListPool(ps, w)
    ensures var t := UpTo(ps, len, n);
            Lens(t.nets) == Repeat(len, |t.nets|) && Carved(ps, t.nets, t.remaining, w)
    decreases n
  {
    hide ExtractOne, ListPool, Carved, Lens;
    var e := ExtractOne(ps, len);
    CarvedNothing(ps, w);
    if n > 0 && e.Extracted? {
      ExtractOneCarves(ps, len, w);
      CarvedRest(ps, [e.net], e.remaining, w);
      var t := UpTo(e.remaining, len, n - 1);
      UpToCarves(e.remaining, len, n - 1, w);
      OneThenRest(ps, len, e, t, w);
      assert |[e.net] + t.nets| == 1 + |t.nets|;
    }
  }

  lemma {:induction false} UpToStopsWhenFull(ps: seq<IPNet>, len: nat, n: nat, w: nat)
    requires ListPool(ps, w)
    ensures var t := UpTo(ps, len, n);
            |t.nets| <= n && (|t.nets| < n ==> NoRoomFor(t.remaining, len, w))
    decreases n
  {
    hide ExtractOne, Canonical, Reduced;
    var e := ExtractOne(ps, len);
    NoRoomIsRefusal(ps, len, w);
    if n > 0 && e.Extracted? {
      ExtractOneCarves(ps, len, w);
      CarvedRest(ps, [e.net], e.remaining, w);
      UpToStopsWhenFull(e.remaining, len, n - 1, w);
    }
  }

  lemma {:induction false} NoRoomAfterUpTo(ps: seq<IPNet>, len: nat, want: nat, n: nat, w: nat)
    requires NoRoomFor(ps, len, w)
    ensures NoRoomFor(UpTo(ps, want, n).remaining, len, w)
    decreases n
  {
    var e := ExtractOne(ps, want);
    if n > 0 && e.Extracted? {
      NoRoomStays(ps, len, want, w);
      NoRoomAfterUpTo(e.remaining, len, want, n - 1, w);
    }
  }

  lemma {:induction false} NoRoomAfterTopUp(ps: seq<IPNet>, len: nat, rs: seq<Request>, w: nat)
    requires NoRoomFor(ps, len, w) && AllValid(rs)
    ensures NoRoomFor(TopUp(ps, rs).remaining, len, w)
    decreases |rs|
  {
    if rs != [] {
      var n := rs[0].requested - rs[0].required;
      NoRoomAfterUpTo(ps, len, rs[0].prefixLen, n, w);
      NoRoomAfterTopUp(UpTo(ps, rs[0].prefixLen, n).remaining, len, rs[1..], w);
    }
  }

  /** The lengths of the networks granted beyond the required ones. */
  function ExtraLens(rs: seq<Request>, extra: seq<nat>): seq<nat>
    requires AllValid(rs) && |extra| == |rs|
  {
    if rs == [] then [] else Repeat(rs[0].prefixLen, extra[0]) + ExtraLens(rs[1..], extra[1..])
  }

  /**
   * Request `i` got `extra[i]` networks beyond the required ones: at most up to its requested
   * number, and fewer only if the final remainder has no room left for its length.
   */
  ghost predicate FairExtra(rs: seq<Request>, extra: seq<nat>, rem: seq<IPNet>, w: nat)
    requires AllValid(rs)
  {
    && |extra| == |rs|
    && forall i :: 0 <= i < |rs| ==>
         && extra[i] <= rs[i].requested - rs[i].required
         && (extra[i] < rs[i].requested - rs[i].required ==> NoRoomFor(rem, rs[i].prefixLen, w))
  }

  lemma {:induction false} TopUpCarves(ps: seq<IPNet>, rs: seq<Request>, w: nat)
    requires ListPool(ps, w) && AllValid(rs)
    ensures Carved(ps, TopUp(ps, rs).nets, TopUp(ps, rs).remaining, w)
    decreases |rs|
  {
    hide UpTo, Carved, ListPool, AddrsOf;
    if rs == [] {
      CarvedNothing(ps, w);
    } else {
      var len, n := rs[0].prefixLen, rs[0].requested - rs[0].required;
      var t := UpTo(ps, len, n);
      UpToCarves(ps, len, n, w);
      CarvedRest(ps, t.nets, t.remaining, w);
      var t' := TopUp(t.remaining, rs[1..]);
      TopUpCarves(t.remaining, rs[1..], w);
      CarvedThen(ps, t.nets, t.remaining, t'.nets, t'.remaining, w);
    }
  }

  lemma {:induction false} TopUpGrants(ps: seq<IPNet>, rs: seq<Request>, w: nat) returns (extra: seq<nat>)
    requires ListPool(ps, w) && AllValid(rs)
    ensures FairExtra(rs, extra, TopUp(ps, rs).remaining, w)
    ensures Lens(TopUp(ps, rs).nets) == ExtraLens(rs, extra)
    decreases |rs|
  {
    hide ExtractOne, UpTo, Carved, ListPool, AddrsOf, FairExtra, NoRoomFor, Repeat;
    if rs == [] {
      extra := [];
      NothingExtra(TopUp(ps, rs).remaining, w);
    } else {
      var len, n := rs[0].prefixLen, rs[0].requested - rs[0].required;
      var t := UpTo(ps, len, n);
      UpToCarves(ps, len, n, w);
      UpToStopsWhenFull(ps, len, n, w);
      CarvedRest(ps, t.nets, t.remaining, w);
      var rest := TopUpGrants(t.remaining, rs[1..], w);
      if |t.nets| < n {
        NoRoomAfterTopUp(t.remaining, len, rs[1..], w);
      }
      extra := [|t.nets|] + rest;
      assert extra[1..] == rest;
      LensConcat(t.nets, TopUp(t.remaining, rs[1..]).nets);
      FairExtraCons(rs, extra, TopUp(ps, rs).remaining, w);
    }
  }

  lemma NothingExtra(rem: seq<IPNet>, w: nat)
    ensures FairExtra([], [], rem, w)
  {
  }

  lemma FairExtraCons(rs: seq<Request>, extra: seq<nat>, rem: seq<IPNet>, w: nat)
    requires AllValid(rs) && rs != [] && extra != []
    requires FairExtra(rs[1..], extra[1..], rem, w)
    requires extra[0] <= rs[0].requested - rs[0].required
    requires extra[0] < rs[0].requested - rs[0].required ==> NoRoomFor(rem, rs[0].prefixLen, w)
    ensures FairExtra(rs, extra, rem, w)
  {
    forall i | 0 < i < |rs|
      ensures && extra[i] <= rs[i].requested - rs[i].required
              && (extra[i] < rs[i].requested - rs[i].required ==> NoRoomFor(rem, rs[i].prefixLen, w))
    {
      assert rs[i] == rs[1..][i - 1] && extra[i] == extra[1..][i - 1];
    }
  }

  /** How many networks of one length the requests require, and how many they ask for. */
  function RequiredOf(rs: seq<Request>, len: nat): nat
    requires AllValid(rs)
  {
    if rs == [] then 0 else (if rs[0].prefixLen == len then rs[0].required else 0) + RequiredOf(rs[1..], len)
  }

  function RequestedOf(rs: seq<Request>, len: nat): nat
    requires AllValid(rs)
  {
    if rs == [] then 0 else (if rs[0].prefixLen == len then rs[0].requested else 0) + RequestedOf(rs[1..], len)
  }

  lemma {:induction false} RepeatCount(len: nat, n: nat, l: nat)
    ensures multiset(Repeat(len, n))[l] == if l == len then n else 0
  {
    if n > 0 {
      RepeatCount(len, n - 1, l);
    }
  }

  lemma {:induction false} RequiredCount(rs: seq<Request>, len: nat)
    requires AllValid(rs)
    ensures multiset(RequiredLens(rs))[len] == RequiredOf(rs, len)
  {
    if rs != [] {
      RepeatCount(rs[0].prefixLen, rs[0].required, len);
      RequiredCount(rs[1..], len);
    }
  }

  lemma {:induction false} ExtraCount(rs: seq<Request>, extra: seq<nat>, rem: seq<IPNet>, len: nat, w: nat)
    requires AllValid(rs) && FairExtra(rs, extra, rem, w)
    ensures RequiredOf(rs, len) + multiset(ExtraLens(rs, extra))[len] <= RequestedOf(rs, len)
    ensures RequiredOf(rs, len) + multiset(ExtraLens(rs, extra))[len] < RequestedOf(rs, len) ==> NoRoomFor(rem, len, w)
  {
    if rs != [] {
      hide NoRoomFor;
      RepeatCount(rs[0].prefixLen, extra[0], len);
      FairExtraRest(rs, extra, rem, w);
      ExtraCount(rs[1..], extra[1..], rem, len, w);
    }
  }

  lemma FairExtraRest(rs: seq<Request>, extra: seq<nat>, rem: seq<IPNet>, w: nat)
    requires AllValid(rs) && rs != [] && FairExtra(rs, extra, rem, w)
    ensures FairExtra(rs[1..], extra[1..], rem, w)
  {
    hide NoRoomFor;
  }

  /**
   * Of every length the requests are granted at least as many networks as they require and at most as
   * many as they ask for; fewer than that only if no room is left for the length.
   */
  lemma GrantedCounts(ps: seq<IPNet>, rs: seq<Request>, len: nat, w: nat)
    requires ListPool(ps, w) && ExtractMany(ps, rs).Taken?
    ensures var t := ExtractMany(ps, rs);
            && AllValid(rs)
            && RequiredOf(rs, len) <= multiset(Lens(t.nets))[len] <= RequestedOf(rs, len)
            && (multiset(Lens(t.nets))[len] < RequestedOf(rs, len) ==> NoRoomFor(t.remaining, len, w))
  {
    hide ExtractMany, ExtractAll, ListPool, Carved, FairExtra, RequiredLens, ExtraLens, NoRoomFor;
    hide RequiredOf, RequestedOf;
    var extra := ExtractManyGrants(ps, rs, w);
    RequiredCount(rs, len);
    ExtraCount(rs, extra, ExtractMany(ps, rs).remaining, len, w);
  }

  /**
   * `ExtractPrefixes` on a pool. It fails exactly on an invalid request, on no request at all, or
   * when the required networks cannot all be taken: never for lack of room for optional ones. On
   * success every request gets its required number and fairly many more, cut exactly from the pool.
   */
  lemma ExtractManyGrants(ps: seq<IPNet>, rs: seq<Request>, w: nat) returns (extra: seq<nat>)
    requires ListPool(ps, w)
    ensures ExtractMany(ps, rs).Taken? <==>
            AllValid(rs) && rs != [] && ExtractAll(ps, RequiredLens(rs)).Taken?
    ensures var t := ExtractMany(ps, rs);
            t.Taken? ==>
              && Carved(ps, t.nets, t.remaining, w)
              && FairExtra(rs, extra, t.remaining, w)
              && Lens(t.nets) == RequiredLens(rs) + ExtraLens(rs, extra)
  {
    hide ExtractAll, Carved, ListPool, AddrsOf, FairExtra, RequiredLens;
    extra := [];
    if AllValid(rs) {
      RequiredLensNonempty(rs);
      var a := ExtractAll(ps, RequiredLens(rs));
      ExtractAllCarves(ps, RequiredLens(rs), w);
      if a.Taken? {
        CarvedRest(ps, a.nets, a.remaining, w);
        extra := TopUpGrants(a.remaining, rs, w);
        var b := TopUp(a.remaining, rs);
        TopUpCarves(a.remaining, rs, w);
        LensConcat(a.nets, b.nets);
        CarvedThen(ps, a.nets, a.remaining, b.nets, b.remaining, w);
        if rs == [] {
          assert a.nets + b.nets == [];
        } else {
          assert a.nets + b.nets != [];
        }
      }
    }
  }

  lemma RequiredLensNonempty(rs: seq<Request>)
    requires AllValid(rs)
    ensures RequiredLens(rs) == [] <==> rs == []
  {
    if rs != [] {
      assert Repeat(rs[0].prefixLen, rs[0].required) != [];
    }
  }
}
