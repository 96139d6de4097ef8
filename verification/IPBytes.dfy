/**
 * Addresses as byte strings: `fromIP`, `toIP`, the index-bit operations and `IncrementIP`.
 *
 * `FromIP` is a bijection between byte strings and integers, which is what lets the rest of the
 * model work on integers.
 */
module IPBytes {
  import opened Powers
  import opened BigInt
  import opened IPNets

  newtype byte = x: int | 0 <= x < 256

  /** `SetBytes`: the big-endian value. */
  function FromIP(ip: seq<byte>): nat {
    if ip == [] then 0 else 256 * FromIP(ip[..|ip| - 1]) + ip[|ip| - 1] as int
  }

  /** `Bytes`: big-endian, without leading zeros. */
  function Bytes(n: nat): seq<byte> {
    if n == 0 then [] else Bytes(n / 256) + [(n % 256) as byte]
  }

  function Zeros(n: nat): (r: seq<byte>)
    ensures |r| == n && forall i :: 0 <= i < n ==> r[i] == 0
  {
    seq(n, _ => 0)
  }

  lemma {:induction false} FromIPBound(ip: seq<byte>)
    ensures FromIP(ip) < Pow2(8 * |ip|)
  {
    if ip != [] {
      FromIPBound(ip[..|ip| - 1]);
      Pow2Add(8, 8 * (|ip| - 1));
      assert Pow2(8) == 256;
    }
  }

  lemma {:induction false} FromBytes(n: nat)
    ensures FromIP(Bytes(n)) == n
  {
    if n > 0 {
      FromBytes(n / 256);
      assert Bytes(n)[..|Bytes(n)| - 1] == Bytes(n / 256);
    }
  }

  lemma {:induction false} BytesFit(n: nat, k: nat)
    requires n < Pow2(8 * k)
    ensures |Bytes(n)| <= k
    decreases k
  {
    if n > 0 {
      if k > 0 {
        Pow2Add(8, 8 * (k - 1));
        assert Pow2(8) == 256;
        BytesFit(n / 256, k - 1);
      }
    }
  }

  lemma {:induction false} LeadingZeros(z: nat, ip: seq<byte>)
    ensures FromIP(Zeros(z) + ip) == FromIP(ip)
    decreases |ip|, z
  {
    var s := Zeros(z) + ip;
    if ip != [] {
      LeadingZeros(z, ip[..|ip| - 1]);
      assert s[..|s| - 1] == Zeros(z) + ip[..|ip| - 1];
    } else if z > 0 {
      LeadingZeros(z - 1, []);
      assert s[..|s| - 1] == Zeros(z - 1) + [];
    }
  }

  /** Byte strings of one length are determined by their values. */
  lemma {:induction false} FromIPInjective(a: seq<byte>, b: seq<byte>)
    requires |a| == |b| && FromIP(a) == FromIP(b)
    ensures a == b
  {
    if a != [] {
      var n := |a| - 1;
      FromIPInjective(a[..n], b[..n]);
      assert a == a[..n] + [a[n]] && b == b[..n] + [b[n]];
    }
  }

  /** `toIP`: packs the bytes of the value into the end of a buffer of zeros. */
  method ToIP(ipInt: nat, bits: nat) returns (ip: seq<byte>)
    requires bits % 8 == 0 && ipInt < Pow2(bits)
    ensures |ip| == bits / 8 && FromIP(ip) == ipInt
  {
    var ipBytes := Bytes(ipInt);
    BytesFit(ipInt, bits / 8);
    var ret := new byte[bits / 8](_ => 0);
    ghost var z := ret.Length - |ipBytes|;
    for i := 1 to |ipBytes| + 1
      invariant forall j :: ret.Length - i < j < ret.Length ==> ret[j] == ipBytes[j - z]
      invariant forall j :: 0 <= j <= ret.Length - i ==> ret[j] == 0
    {
      ret[ret.Length - i] := ipBytes[|ipBytes| - i];
    }
    ip := ret[..];
    assert ip == Zeros(z) + ipBytes;
    LeadingZeros(z, ipBytes);
    FromBytes(ipInt);
  }

  /** `toIP` undoes `fromIP`. */
  method ToFromIP(ip: seq<byte>) returns (r: seq<byte>)
    ensures r == ip
  {
    FromIPBound(ip);
    r := ToIP(FromIP(ip), 8 * |ip|);
    FromIPInjective(r, ip);
  }

  // ---- the index bit ----

  /** `ip` holds the address of the network `p`, in its full width. */
  ghost predicate IsAddressOf(ip: seq<byte>, p: IPNet) {
    8 * |ip| == p.len + p.host && FromIP(ip) == p.base
  }

  /** `net.IP` holds four bytes or sixteen. */
  predicate IsIP(ip: seq<byte>) {
    |ip| == 4 || |ip| == 16
  }

  /**
   * `setNetIndexInIP`, where the result has no more bits than the address: OR with the shifted index.
   * Of a network address it makes the address of one half.
   */
  method SetNetIndexInIP(ip: seq<byte>, num: nat, prefixLen: nat) returns (r: seq<byte>)
    requires IsIP(ip) && prefixLen <= 8 * |ip|
    requires Or(FromIP(ip), num * Pow2(8 * |ip| - prefixLen)) < Pow2(8 * |ip|)
    ensures |r| == |ip| && FromIP(r) == Or(FromIP(ip), num * Pow2(8 * |ip| - prefixLen))
    ensures forall p :: Canonical(p) && p.host > 0 && IsAddressOf(ip, p) && prefixLen == p.len + 1 ==>
              && (num == 0 ==> IsAddressOf(r, Left(p)))
              && (num == 1 ==> IsAddressOf(r, Right(p)))
  {
    hide Or, Pow2, FromIP, Canonical;
    var ipInt, totalBits := FromIP(ip), 8 * |ip|;
    var bigNum := num * Pow2(totalBits - prefixLen);
    r := ToIP(Or(ipInt, bigNum), totalBits);
    forall p | Canonical(p) && p.host > 0 && IsAddressOf(ip, p) && prefixLen == p.len + 1
      ensures num == 0 ==> IsAddressOf(r, Left(p))
      ensures num == 1 ==> IsAddressOf(r, Right(p))
    {
      SubnetIsHalf(p);
    }
  }

  /** `clearNetIndexInIP`. Of a network address it makes the address of its parent. */
  method ClearNetIndexInIP(ip: seq<byte>, prefixLen: nat) returns (r: seq<byte>)
    requires IsIP(ip) && prefixLen <= 8 * |ip|
    ensures |r| == |ip| && FromIP(r) == ClearBit(FromIP(ip), 8 * |ip| - prefixLen)
    ensures forall p :: Canonical(p) && p.len > 0 && IsAddressOf(ip, p) && prefixLen == p.len ==>
              IsAddressOf(r, Parent(p))
  {
    hide ClearBit, Pow2, FromIP, Canonical;
    var ipInt, totalBits := FromIP(ip), 8 * |ip|;
    ClearBitTakesWeight(ipInt, totalBits - prefixLen);
    FromIPBound(ip);
    r := ToIP(ClearBit(ipInt, totalBits - prefixLen), totalBits);
  }

  // ---- IncrementIP ----

  /** Ripple carry: trailing 255s become zeros and the byte before them goes up by one. */
  function Inc(ip: seq<byte>): (r: seq<byte>)
    ensures |r| == |ip|
  {
    if ip == [] then []
    else
      var n := |ip| - 1;
      if ip[n] == 255 then Inc(ip[..n]) + [0] else ip[..n] + [ip[n] + 1]
  }

  /** Ripple carry adds one, modulo the width. */
  lemma {:induction false} IncAddsOne(ip: seq<byte>)
    ensures FromIP(Inc(ip)) == (FromIP(ip) + 1) % Pow2(8 * |ip|)
  {
    if ip != [] {
      var n := |ip| - 1;
      var init, m := ip[..n], Pow2(8 * n);
      assert Pow2(8 * |ip|) == 256 * m by {
        Pow2Add(8, 8 * n);
        assert Pow2(8) == 256;
      }
      FromIPBound(ip);
      FromIPBound(init);
      if ip[n] == 255 {
        IncAddsOne(init);
        assert Inc(ip)[..n] == Inc(init);
        WrapScaled(FromIP(init) + 1, m);
      } else {
        assert Inc(ip)[..n] == init;
        DivModUnique(256 * m, 0, FromIP(ip) + 1);
      }
    }
  }

  lemma WrapScaled(x: nat, m: nat)
    requires 0 < x <= m
    ensures 256 * (x % m) == (256 * x) % (256 * m)
  {
    if x == m {
      DivModUnique(m, 1, 0);
      DivModUnique(256 * m, 1, 0);
    } else {
      DivModUnique(m, 0, x);
      DivModUnique(256 * m, 0, 256 * x);
    }
  }

  lemma IncAt(ip: seq<byte>, i: nat)
    requires i < |ip|
    ensures Inc(ip[..i + 1]) == if ip[i] == 255 then Inc(ip[..i]) + [0] else ip[..i] + [ip[i] + 1]
  {
    assert ip[..i + 1][..i] == ip[..i];
  }

  /** The loop of `IncrementIP`, on a copy of the address. */
  method Ripple(sourceIp: seq<byte>) returns (r: seq<byte>)
    ensures r == Inc(sourceIp)
  {
    hide Inc;
    var n := |sourceIp|;
    var ip := new byte[n](i requires 0 <= i < n => sourceIp[i]);
    assert sourceIp[..n] == sourceIp;
    var i := n - 1;
    while i >= 0
      invariant -1 <= i < n
      invariant forall j :: 0 <= j <= i ==> ip[j] == sourceIp[j]
      invariant forall j :: i < j < n ==> ip[j] == 0
      invariant Inc(sourceIp) == Inc(sourceIp[..i + 1]) + Zeros(n - 1 - i)
    {
      IncAt(sourceIp, i);
      ip[i] := if ip[i] == 255 then 0 else ip[i] + 1;
      if ip[i] != 0 {
        assert ip[..] == sourceIp[..i] + [ip[i]] + Zeros(n - 1 - i);
        return ip[..];
      }
      OneMoreZero(Inc(sourceIp[..i]), n - 1 - i);
      i := i - 1;
    }
    NoBytes();
    r := ip[..];
  }

  lemma OneMoreZero(a: seq<byte>, z: nat)
    ensures a + [0] + Zeros(z) == a + Zeros(z + 1)
  {
    assert [0] + Zeros(z) == Zeros(z + 1);
  }

  lemma NoBytes()
    ensures Inc([]) == [] && AllFull([])
  {
  }

  // ---- the sixteen-byte form of IPv4 ----

  /** What a sixteen-byte address starts with if it stands for an IPv4 address. */
  const V4PREFIX: seq<byte> := [0, 0, 0, 0, 0, 0, 0, 0, 0, 0, 255, 255]

  predicate Mapped(ip: seq<byte>) {
    |ip| == 16 && ip[..12] == V4PREFIX
  }

  /** The four bytes of an IPv4 address in either form; other addresses as they are. */
  function Short(ip: seq<byte>): seq<byte> {
    if Mapped(ip) then ip[12..] else ip
  }

  /** The value in `k` bytes, big-endian. */
  function Encode(n: nat, k: nat): (ip: seq<byte>)
    ensures |ip| == k
  {
    if k == 0 then [] else Encode(n / 256, k - 1) + [(n % 256) as byte]
  }

  lemma {:induction false} FromEncode(n: nat, k: nat)
    requires n < Pow2(8 * k)
    ensures FromIP(Encode(n, k)) == n
    decreases k
  {
    if k == 0 {
      assert Pow2(0) == 1;
    } else {
      Pow2Add(8, 8 * (k - 1));
      assert Pow2(8) == 256;
      FromEncode(n / 256, k - 1);
      assert Encode(n, k)[..k - 1] == Encode(n / 256, k - 1);
    }
  }

  lemma EncodeNext(n: nat, k: nat)
    requires k > 0 && n % 256 != 255
    ensures Inc(Encode(n, k)) == Encode(n + 1, k)
  {
    assert (n + 1) / 256 == n / 256 && (n + 1) % 256 == n % 256 + 1;
    assert Encode(n, k)[..k - 1] == Encode(n / 256, k - 1);
  }

  /** The two address widths. */
  predicate IPWidth(w: nat) {
    w == 32 || w == 128
  }

  /** An address as `ParseCIDR` returns it: sixteen bytes for either family. */
  function Parsed(n: nat, w: nat): (ip: seq<byte>)
    requires IPWidth(w)
    ensures |ip| == 16
  {
    if w == 32 then V4PREFIX + Encode(n, 4) else Encode(n, 16)
  }

  /** 10.10.1.1 as it is parsed. */
  lemma ParsedExample()
    ensures Parsed(0x0a0a_0101, 32) == [0, 0, 0, 0, 0, 0, 0, 0, 0, 0, 255, 255, 10, 10, 1, 1]
  {
    assert Encode(0x0a, 1) == Encode(0, 0) + [10];
    assert Encode(0x0a0a, 2) == [10, 10];
    assert Encode(0x0a0a_01, 3) == [10, 10, 1];
    assert Encode(0x0a0a_0101, 4) == [10, 10, 1, 1];
  }

  /** Different addresses have different parsed forms. */
  lemma ParsedInjective(m: nat, n: nat, w: nat)
    requires IPWidth(w) && m < Pow2(w) && n < Pow2(w) && Parsed(m, w) == Parsed(n, w)
    ensures m == n
  {
    hide Encode, Pow2, FromIP;
    var k := w / 8;
    if w == 32 {
      assert Parsed(m, w)[12..] == Encode(m, k) && Parsed(n, w)[12..] == Encode(n, k);
    }
    FromEncode(m, k);
    FromEncode(n, k);
  }

  lemma ParsedNext(n: nat, w: nat)
    requires IPWidth(w) && n % 256 != 255
    ensures Inc(Parsed(n, w)) == Parsed(n + 1, w)
  {
    if w == 128 {
      EncodeNext(n, 16);
    } else {
      var x := Encode(n, 4);
      EncodeNext(n, 4);
      assert (V4PREFIX + x)[..15] == V4PREFIX + x[..3];
      assert V4PREFIX + x[..3] + [x[3] + 1] == V4PREFIX + (x[..3] + [x[3] + 1]);
    }
  }

  /** `IPNet.Contains`: IPv4 addresses in either form, equal lengths, equal bits under the mask. */
  predicate Contains(ipNet: IPNet, ip: seq<byte>) {
    var nn, x := Short(Encode(ipNet.base, (ipNet.len + ipNet.host) / 8)), Short(ip);
    |x| == |nn| && FromIP(x) / Pow2(ipNet.host) == FromIP(nn) / Pow2(ipNet.host)
  }

  lemma InBlockIff(p: IPNet, a: nat)
    requires Canonical(p)
    ensures a in Block(p) <==> a / Pow2(p.host) == p.base / Pow2(p.host)
  {
    hide Pow2, Aligned;
    AlignedIsMultiple(p.base, p.host);
    SameQuotientIff(p.base, a, Pow2(p.host));
  }

  lemma SameQuotientIff(b: nat, a: nat, m: nat)
    requires m > 0 && b % m == 0
    ensures a / m == b / m <==> b <= a < b + m
  {
    MultipleOf(b, m);
    var q := b / m;
    if b <= a < b + m {
      DivModUnique(m, q, a - b);
    }
    assert a / m == q ==> a == m * q + a % m;
  }

  lemma CanonicalFits(p: IPNet)
    requires Canonical(p)
    ensures p.base < Pow2(p.len + p.host)
  {
  }

  /** An IPv4 network holds the four-byte addresses of its block. */
  lemma ContainsFour(ipNet: IPNet, ip: seq<byte>)
    requires OfWidth(ipNet, 32) && |ip| == 4
    ensures Contains(ipNet, ip) <==> FromIP(ip) in Block(ipNet)
  {
    hide FromIP, Encode, Pow2, Canonical;
    CanonicalFits(ipNet);
    FromEncode(ipNet.base, 4);
    InBlockIff(ipNet, FromIP(ip));
  }

  /** An IPv4 network holds the sixteen-byte forms of the addresses of its block and no others. */
  lemma ContainsSixteen(ipNet: IPNet, ip: seq<byte>)
    requires OfWidth(ipNet, 32) && |ip| == 16
    ensures Contains(ipNet, ip) <==> ip[..12] == V4PREFIX && FromIP(ip[12..]) in Block(ipNet)
  {
    hide FromIP, Encode, Pow2, Canonical;
    CanonicalFits(ipNet);
    FromEncode(ipNet.base, 4);
    InBlockIff(ipNet, FromIP(ip[12..]));
  }

  lemma {:induction false} FromConcat(a: seq<byte>, b: seq<byte>)
    ensures FromIP(a + b) == FromIP(a) * Pow2(8 * |b|) + FromIP(b)
    decreases |b|
  {
    if b == [] {
      assert a + b == a && Pow2(0) == 1;
    } else {
      hide Pow2;
      var n := |b| - 1;
      FromConcat(a, b[..n]);
      assert (a + b)[..|a| + n] == a + b[..n];
      NextByte(n);
      ScaleUp(FromIP(a), Pow2(8 * n));
    }
  }

  lemma NextByte(n: nat)
    ensures Pow2(8 * (n + 1)) == 256 * Pow2(8 * n)
  {
    Pow2Add(8, 8 * n);
    assert Pow2(8) == 256;
  }

  lemma ScaleUp(x: nat, m: nat)
    ensures x * (256 * m) == 256 * (x * m)
  {
  }

  const V4VALUE: nat := 0xffff

  lemma PrefixValue()
    ensures FromIP(V4PREFIX) == V4VALUE
  {
    LeadingZeros(10, [255, 255]);
    assert V4PREFIX == Zeros(10) + [255, 255];
    assert [255, 255][..1] == [255] && [255][..0] == [];
  }

  /** A sixteen-byte address is mapped if its upper 96 bits say so. */
  lemma MappedIff(ip: seq<byte>)
    requires |ip| == 16
    ensures Mapped(ip) <==> FromIP(ip) / Pow2(32) == V4VALUE
    ensures FromIP(ip) % Pow2(32) == FromIP(ip[12..])
  {
    hide FromIP, Pow2;
    var a, b := ip[..12], ip[12..];
    assert ip == a + b;
    FromConcat(a, b);
    FromIPBound(b);
    PrefixValue();
    assert FromIP(a) * Pow2(32) == Pow2(32) * FromIP(a);
    DivModUnique(Pow2(32), FromIP(a), FromIP(b));
    if FromIP(a) == V4VALUE {
      FromIPInjective(a, V4PREFIX);
    }
  }

  /** A network with mapped addresses has at most 32 host bits. */
  lemma MappedHost(p: IPNet)
    requires OfWidth(p, 128) && p.base / Pow2(32) == V4VALUE
    ensures p.host <= 32
  {
    hide Pow2, Aligned;
    if p.host > 32 {
      AlignedToSmaller(p.base, 33, p.host);
      HalfBitClear(p.base, 32);
    }
  }

  /** The quotient by a smaller power decides the quotient by a larger one. */
  lemma {:induction false} CoarserQuotient(x: nat, y: nat, small: nat, big: nat)
    requires small <= big && x / Pow2(small) == y / Pow2(small)
    ensures x / Pow2(big) == y / Pow2(big)
    decreases small
  {
    if small > 0 {
      HalfDivMod(x, Pow2(small - 1));
      HalfDivMod(y, Pow2(small - 1));
      CoarserQuotient(x / 2, y / 2, small - 1, big - 1);
      HalfDivMod(x, Pow2(big - 1));
      HalfDivMod(y, Pow2(big - 1));
    }
  }

  /** Quotients of two numbers with the same upper part can be compared on the lower parts. */
  lemma {:induction false} LowerQuotient(x: nat, y: nat, h: nat, n: nat)
    requires h <= n && x / Pow2(n) == y / Pow2(n)
    ensures x / Pow2(h) == y / Pow2(h) <==> (x % Pow2(n)) / Pow2(h) == (y % Pow2(n)) / Pow2(h)
    decreases h
  {
    if h == 0 {
      assert Pow2(0) == 1;
      hide Pow2;
      SamePartsSame(x, y, Pow2(n));
    } else {
      HalvedQuotients(x, h, n);
      HalvedQuotients(y, h, n);
      hide Pow2;
      LowerQuotient(x / 2, y / 2, h - 1, n - 1);
    }
  }

  lemma SamePartsSame(x: nat, y: nat, m: nat)
    requires m > 0 && x / m == y / m
    ensures x == y <==> x % m == y % m
  {
    assert x == m * (x / m) + x % m && y == m * (y / m) + y % m;
  }

  lemma HalvedQuotients(x: nat, h: nat, n: nat)
    requires 0 < h <= n
    ensures x / Pow2(h) == (x / 2) / Pow2(h - 1) && x / Pow2(n) == (x / 2) / Pow2(n - 1)
    ensures (x % Pow2(n)) / Pow2(h) == ((x / 2) % Pow2(n - 1)) / Pow2(h - 1)
  {
    var a, b := Pow2(h - 1), Pow2(n - 1);
    assert Pow2(h) == 2 * a && Pow2(n) == 2 * b;
    hide Pow2;
    HalfDivMod(x, a);
    HalfDivMod(x, b);
    HalfDivMod(x % (2 * b), a);
  }

  /**
   * An IPv6 network holds the addresses of its block, except that a network of other addresses does
   * not hold those that stand for IPv4 addresses.
   */
  lemma ContainsSix(ipNet: IPNet, ip: seq<byte>)
    requires OfWidth(ipNet, 128) && |ip| == 16
    ensures Contains(ipNet, ip) <==>
            FromIP(ip) in Block(ipNet) && (Mapped(ip) ==> Mapped(Encode(ipNet.base, 16)))
  {
    hide FromIP, Encode, Pow2, Canonical;
    var nn, h := Encode(ipNet.base, 16), ipNet.host;
    CanonicalFits(ipNet);
    FromEncode(ipNet.base, 16);
    InBlockIff(ipNet, FromIP(ip));
    MappedIff(ip);
    MappedIff(nn);
    if Mapped(nn) {
      MappedHost(ipNet);
      if Mapped(ip) {
        LowerQuotient(FromIP(ip), ipNet.base, h, 32);
      } else if FromIP(ip) in Block(ipNet) {
        CoarserQuotient(FromIP(ip), ipNet.base, h, 32);
        assert false;
      }
    }
  }

  /** A network holds the parsed form of the addresses that follow its own in one block of four. */
  lemma ContainsNear(ipNet: IPNet, d: nat, w: nat)
    requires OfWidth(ipNet, w) && IPWidth(w) && ipNet.host >= 2 && d < 4
    ensures Contains(ipNet, Parsed(ipNet.base + d, w))
  {
    hide FromIP, Encode, Pow2, Canonical, Contains;
    var a := ipNet.base + d;
    NearInBlock(ipNet, d);
    if w == 32 {
      FromEncode(a, 4);
      ContainsSixteen(ipNet, Parsed(a, w));
      assert Parsed(a, w)[..12] == V4PREFIX && Parsed(a, w)[12..] == Encode(a, 4);
    } else {
      FromEncode(a, 16);
      FromEncode(ipNet.base, 16);
      ContainsSix(ipNet, Encode(a, 16));
      MappedIff(Encode(a, 16));
      MappedIff(Encode(ipNet.base, 16));
      CoarserQuotient(ipNet.base, a, 2, 32);
    }
  }

  lemma NearInBlock(p: IPNet, d: nat)
    requires Canonical(p) && p.host >= 2 && d < 4
    ensures p.base + d in Block(p) && p.base + d < Pow2(p.len + p.host) && p.base < Pow2(p.len + p.host)
    ensures p.base % 4 == 0 && p.base / Pow2(2) == (p.base + d) / Pow2(2)
  {
    hide Aligned;
    assert Pow2(2) == 4;
    Pow2Monotone(2, p.host);
    AlignedToSmaller(p.base, 2, p.host);
    AlignedIsMultiple(p.base, 2);
  }

  // ---- IncrementIP ----

  predicate AllFull(x: seq<byte>) {
    forall i :: 0 <= i < |x| ==> x[i] == 255
  }

  /** All bytes are 255 in the largest value of the width alone. */
  lemma {:induction false} FullIff(x: seq<byte>)
    ensures AllFull(x) <==> FromIP(x) + 1 == Pow2(8 * |x|)
  {
    if x == [] {
      assert Pow2(0) == 1;
    } else {
      var n := |x| - 1;
      NextByte(n);
      hide Pow2;
      FullIff(x[..n]);
      FromIPBound(x[..n]);
      FullSnoc(x);
      hide AllFull;
    }
  }

  /** A carry leaves the lower bytes exactly when they are all 255. */
  lemma {:induction false} IncSuffix(p: seq<byte>, x: seq<byte>)
    ensures Inc(p + x) == (if AllFull(x) then Inc(p) else p) + Inc(x)
    decreases |x|
  {
    hide Inc, AllFull;
    if x == [] {
      NoBytes();
      assert p + x == p && Inc(p) + [] == Inc(p) && p + [] == p;
    } else {
      var n := |x| - 1;
      var init, last := x[..n], x[n];
      assert x == init + [last] && p + x == p + init + [last];
      IncSuffix(p, init);
      FullSnoc(x);
      IncSnoc(init, last);
      IncSnoc(p + init, last);
      var upper := if AllFull(init) then Inc(p) else p;
      assert upper + Inc(init) + [0] == upper + (Inc(init) + [0]);
      assert p + init + [if last == 255 then 0 else last + 1] == p + (init + [if last == 255 then 0 else last + 1]);
    }
  }

  lemma IncSnoc(a: seq<byte>, b: byte)
    ensures Inc(a + [b]) == if b == 255 then Inc(a) + [0] else a + [b + 1]
  {
    assert (a + [b])[..|a|] == a;
  }

  lemma FullSnoc(x: seq<byte>)
    requires x != []
    ensures AllFull(x) <==> AllFull(x[..|x| - 1]) && x[|x| - 1] == 255
  {
  }

  /** The sixteen-byte form of an IPv4 address, incremented: the last one leaves the IPv4 addresses. */
  lemma IncMapped(x: seq<byte>)
    requires |x| == 4
    ensures FromIP(x) + 1 < Pow2(32) ==> Inc(V4PREFIX + x) == V4PREFIX + Inc(x) && FromIP(Inc(x)) == FromIP(x) + 1
    ensures FromIP(x) + 1 == Pow2(32) ==> !Mapped(Inc(V4PREFIX + x))
    ensures FromIP(x) + 1 <= Pow2(32)
  {
    hide FromIP, Pow2, Inc, AllFull;
    IncSuffix(V4PREFIX, x);
    FullIff(x);
    IncAddsOne(x);
    FromIPBound(x);
    if FromIP(x) + 1 < Pow2(32) {
      DivModUnique(Pow2(32), 0, FromIP(x) + 1);
    } else {
      PrefixOverflows();
      assert (Inc(V4PREFIX) + Inc(x))[11] == 0 && V4PREFIX[11] == 255;
    }
  }

  lemma PrefixOverflows()
    ensures Inc(V4PREFIX)[11] == 0
  {
    assert V4PREFIX[..11][10] == 255;
  }

  /**
   * `IncrementIP`: the next address, refused when it leaves the network. A four-byte address wraps
   * around; the sixteen-byte form of an IPv4 address does not.
   */
  method IncrementIP(sourceIp: seq<byte>, ipNet: IPNet) returns (ok: bool, r: seq<byte>)
    ensures ok <==> Contains(ipNet, Inc(sourceIp))
    ensures r == if ok then Inc(sourceIp) else []
    ensures OfWidth(ipNet, 32) && |sourceIp| == 4 ==>
              (ok <==> (FromIP(sourceIp) + 1) % Pow2(32) in Block(ipNet))
    ensures OfWidth(ipNet, 32) && Mapped(sourceIp) ==> (ok <==> FromIP(sourceIp[12..]) + 1 in Block(ipNet))
    ensures OfWidth(ipNet, 128) && |sourceIp| == 16 ==>
              (ok <==> && (FromIP(sourceIp) + 1) % Pow2(128) in Block(ipNet)
                       && (Mapped(Inc(sourceIp)) ==> Mapped(Encode(ipNet.base, 16))))
  {
    hide FromIP, Pow2, Contains, Inc, Canonical, Encode;
    r := Ripple(sourceIp);
    ok := Contains(ipNet, r);
    if OfWidth(ipNet, 32) && |sourceIp| == 4 {
      IncAddsOne(sourceIp);
      ContainsFour(ipNet, r);
    }
    if OfWidth(ipNet, 32) && Mapped(sourceIp) {
      MappedStays(ipNet, sourceIp);
    }
    if OfWidth(ipNet, 128) && |sourceIp| == 16 {
      IncAddsOne(sourceIp);
      ContainsSix(ipNet, r);
    }
    r := if ok then r else [];
  }

  lemma MappedStays(ipNet: IPNet, ip: seq<byte>)
    requires OfWidth(ipNet, 32) && Mapped(ip)
    ensures Contains(ipNet, Inc(ip)) <==> FromIP(ip[12..]) + 1 in Block(ipNet)
  {
    hide FromIP, Pow2, Contains, Inc, Canonical;
    var x, next := ip[12..], Inc(ip);
    assert ip == V4PREFIX + x;
    IncMapped(x);
    ContainsSixteen(ipNet, next);
    if FromIP(x) + 1 < Pow2(32) {
      assert next[..12] == V4PREFIX && next[12..] == Inc(x);
    } else {
      BlockInWidth(ipNet);
    }
  }

  lemma BlockInWidth(p: IPNet)
    requires Canonical(p)
    ensures Pow2(p.len + p.host) !in Block(p)
  {
  }
}
