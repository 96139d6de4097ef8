/**
 * IP networks in CIDR notation as aligned blocks of addresses.
 *
 * A network is an address together with a mask of `len` ones and `host` zeros, so the address
 * width (32 for IPv4, 128 for IPv6) is `len + host`, as `IPMask.Size` reports it.
 */
module IPNets {
  import opened Powers
  import opened BigInt
  import opened Sets

  datatype IPNet = IPNet(base: nat, len: nat, host: nat)

  /** A network address: no host bit is set and the block lies inside the address space. */
  predicate Canonical(p: IPNet) {
    && Aligned(p.base, p.host)
    && p.base + Pow2(p.host) <= Pow2(p.len + p.host)
  }

  function Size(p: IPNet): nat {
    Pow2(p.host)
  }

  predicate Between(lo: int, a: int, hi: int) {
    lo <= a < hi
  }

  function Interval(lo: int, hi: int): (s: set<int>)
    ensures forall a :: a in s <==> lo <= a < hi
  {
    set a | lo <= a < hi && Between(lo, a, hi)
  }

  /** The addresses of a network. */
  function Block(p: IPNet): (s: set<int>)
    ensures p.base in s
  {
    Interval(p.base, p.base + Size(p))
  }

  predicate OfWidth(p: IPNet, w: nat) {
    Canonical(p) && p.len + p.host == w
  }

  function Left(p: IPNet): IPNet
    requires p.host > 0
  {
    IPNet(p.base, p.len + 1, p.host - 1)
  }

  function Right(p: IPNet): IPNet
    requires p.host > 0
  {
    IPNet(p.base + Pow2(p.host - 1), p.len + 1, p.host - 1)
  }

  /** What `clearNetIndexInIP` and the shorter mask make of a network: the block one level up. */
  function Parent(p: IPNet): IPNet
    requires p.len > 0
  {
    IPNet(ClearBit(p.base, p.host), p.len - 1, p.host + 1)
  }

  predicate Siblings(p: IPNet, q: IPNet) {
    p != q && p.len > 0 && q.len > 0 && Parent(p) == Parent(q)
  }

  /** The network one level down whose index bit is `index`, OR-ed in just below the mask. */
  function Half(p: IPNet, index: nat): IPNet
    requires p.host > 0
  {
    IPNet(Or(p.base, index * Pow2(p.host - 1)), p.len + 1, p.host - 1)
  }

  datatype Cut = Cut(net: IPNet) | NoCut

  /** `subnet`: no room below a full mask; an index of 2 slips through the range check. */
  function Subnet(p: IPNet, index: int): Cut {
    if p.host == 0 then NoCut
    else if index < 0 || index > 2 then NoCut
    else Cut(Half(p, index))
  }

  lemma {:induction false} IntervalSize(lo: int, n: nat)
    ensures |Interval(lo, lo + n)| == n
  {
    if n > 0 {
      IntervalSize(lo, n - 1);
      assert Interval(lo, lo + n) == Interval(lo, lo + (n - 1)) + {lo + (n - 1)};
    } else {
      assert Interval(lo, lo + n) == {};
    }
  }

  lemma BlockSize(p: IPNet)
    ensures |Block(p)| == Size(p)
  {
    IntervalSize(p.base, Size(p));
  }

  lemma HalvesAligned(p: IPNet)
    requires Canonical(p) && p.host > 0
    ensures Canonical(Left(p)) && Canonical(Right(p))
  {
    var m := Pow2(p.host - 1);
    assert Pow2(p.host) == 2 * m;
    hide Aligned, Pow2;
    AlignedToSmaller(p.base, p.host - 1, p.host);
    AlignedPlusOne(p.base, p.host - 1);
  }

  lemma AlignedPlusOne(x: nat, h: nat)
    requires Aligned(x, h)
    ensures Aligned(x + Pow2(h), h)
  {
    hide Aligned, Pow2;
    var m := Pow2(h);
    AlignedIsMultiple(x, h);
    AlignedIsMultiple(x + m, h);
    DivModUnique(m, 1, 0);
    AlignedSum(x, m, m);
  }

  lemma Halves(p: IPNet)
    requires Canonical(p) && p.host > 0
    ensures Canonical(Left(p)) && Canonical(Right(p))
    ensures Block(Left(p)) + Block(Right(p)) == Block(p)
    ensures Block(Left(p)) !! Block(Right(p))
    ensures Left(p) != Right(p)
  {
    HalvesAligned(p);
    assert Size(p) == 2 * Pow2(p.host - 1);
  }

  /** Index 0 and 1 yield the two halves: OR with a shifted bit is addition here. */
  lemma SubnetIsHalf(p: IPNet)
    requires Canonical(p) && p.host > 0
    ensures Half(p, 0) == Left(p) && Half(p, 1) == Right(p)
  {
    OrZero(p.base);
    var k := p.host - 1;
    HalfBitClear(p.base, k);
    OrWithBit(p.base, k);
    assert 1 * Pow2(k) == Pow2(k) && 0 * Pow2(k) == 0;
  }

  lemma HalfBitClear(x: nat, k: nat)
    requires Aligned(x, k + 1)
    ensures Bit(x, k) == 0
    ensures Bit(x + Pow2(k), k) == 1
  {
    AlignedIsMultiple(x, k + 1);
    var m, q := Pow2(k), x / Pow2(k + 1);
    assert Pow2(k + 1) == 2 * m;
    assert x == (2 * m) * q by { MultipleOf(x, 2 * m); }
    EvenQuotient(x, m, q);
  }

  lemma EvenQuotient(x: nat, m: nat, q: nat)
    requires m > 0 && x == (2 * m) * q
    ensures (x / m) % 2 == 0 && ((x + m) / m) % 2 == 1
  {
    Reassociate(m, q);
    DivModUnique(m, 2 * q, 0);
    DivModUnique(m, 2 * q + 1, 0);
  }

  lemma Reassociate(m: nat, q: nat)
    ensures (2 * m) * q == m * (2 * q)
    ensures m * (2 * q) + m == m * (2 * q + 1)
  {
  }

  lemma ParentOfHalves(p: IPNet)
    requires Canonical(p) && p.host > 0
    ensures Parent(Left(p)) == p && Parent(Right(p)) == p
  {
    hide Bit, ClearBit, Aligned;
    HalfBitClear(p.base, p.host - 1);
    ClearBitTakesWeight(p.base, p.host - 1);
    ClearBitTakesWeight(p.base + Pow2(p.host - 1), p.host - 1);
  }

  lemma TwiceHalf(m: nat, q: nat)
    ensures m * q == (2 * m) * (q / 2) + (if q % 2 == 1 then m else 0)
  {
    var half := q / 2;
    if q % 2 == 1 {
      assert m * (2 * half + 1) == (2 * m) * half + m;
    } else {
      assert m * (2 * half) == (2 * m) * half;
    }
  }

  lemma ClearBitAligns(x: nat, h: nat)
    requires Aligned(x, h)
    ensures Aligned(ClearBit(x, h), h + 1)
    ensures x == ClearBit(x, h) || x == ClearBit(x, h) + Pow2(h)
  {
    AlignedIsMultiple(x, h);
    AlignedIsMultiple(ClearBit(x, h), h + 1);
    var m, q := Pow2(h), x / Pow2(h);
    ClearBitTakesWeight(x, h);
    assert x == m * q by { MultipleOf(x, m); }
    TwiceHalf(m, q);
    DivModUnique(2 * m, q / 2, 0);
    assert Bit(x, h) == q % 2;
  }

  lemma ParentHasHalf(p: IPNet)
    requires Canonical(p) && p.len > 0
    ensures Canonical(Parent(p))
    ensures p == Left(Parent(p)) || p == Right(Parent(p))
  {
    ClearBitAligns(p.base, p.host);
    AlignedTop(ClearBit(p.base, p.host), p.host + 1, p.len - 1);
  }

  lemma AlignedTop(b: nat, h: nat, l: nat)
    requires Aligned(b, h) && b < Pow2(l + h)
    ensures b + Pow2(h) <= Pow2(l + h)
  {
    var m, k := Pow2(h), Pow2(l);
    assert b % m == 0 by { AlignedIsMultiple(b, h); }
    assert Pow2(l + h) % m == 0 && Pow2(l + h) == m * k by {
      Pow2Add(h, l);
      DivModUnique(m, k, 0);
    }
    AlignedGap(b, Pow2(l + h), m);
  }

  lemma SiblingsFormParent(p: IPNet, q: IPNet)
    requires Canonical(p) && Canonical(q) && Siblings(p, q)
    ensures Canonical(Parent(p))
    ensures Block(Parent(p)) == Block(p) + Block(q)
    ensures p.len == q.len && p.host == q.host
  {
    ParentHasHalf(p);
    ParentHasHalf(q);
    Halves(Parent(p));
  }

  /** A block boundary of a large network is a block boundary of every smaller one. */
  lemma EdgesAligned(p: IPNet, h: nat)
    requires Canonical(p) && h <= p.host
    ensures p.base % Pow2(h) == 0 && (p.base + Size(p)) % Pow2(h) == 0
  {
    AlignedToSmaller(p.base, h, p.host);
    AlignedIsMultiple(p.base, h);
    Pow2Add(h, p.host - h);
    DivModUnique(Pow2(h), Pow2(p.host - h), 0);
    AlignedSum(p.base, Size(p), Pow2(h));
  }

  /** Two networks of one family are nested or apart. */
  lemma NestedOrApart(p: IPNet, q: IPNet, w: nat)
    requires OfWidth(p, w) && OfWidth(q, w) && q.host <= p.host
    ensures Block(q) <= Block(p) || Block(q) !! Block(p)
  {
    EdgesAligned(p, q.host);
    AlignedIsMultiple(q.base, q.host);
    if q.base < p.base {
      AlignedGap(q.base, p.base, Size(q));
    } else if q.base < p.base + Size(p) {
      AlignedGap(q.base, p.base + Size(p), Size(q));
    }
  }

  lemma SameBlockSameNet(p: IPNet, q: IPNet, w: nat)
    requires OfWidth(p, w) && OfWidth(q, w) && Block(p) == Block(q)
    ensures p == q
  {
    BlockSize(p);
    BlockSize(q);
    if p.host < q.host {
      Pow2Monotone(p.host, q.host - 1);
    } else if q.host < p.host {
      Pow2Monotone(q.host, p.host - 1);
    }
  }

  lemma SmallerBlockDeeper(p: IPNet, q: IPNet, w: nat)
    requires OfWidth(p, w) && OfWidth(q, w) && Block(q) < Block(p)
    ensures q.host < p.host
  {
    BlockSize(p);
    BlockSize(q);
    ProperSubsetSmaller(Block(q), Block(p));
    if p.host <= q.host {
      Pow2Monotone(p.host, q.host);
    }
  }
}
