/**
 * The VXLAN network identifiers that two hosts allocate for the tunnels between them.
 *
 * Each host counts per remote address in steps of two; which of the two addresses is smaller
 * decides which host takes the odd numbers.
 */
module Vni {
  import IPBytes
  import opened Powers

  type byte = IPBytes.byte

  /** `compareIps`, from byte `i` on. */
  function Compare(a: seq<byte>, b: seq<byte>, i: nat): (r: int)
    ensures -1 <= r <= 1
    decreases |a| - i
  {
    if i >= |a| || i >= |b| then 0
    else if a[i] < b[i] then -1
    else if a[i] > b[i] then 1
    else Compare(a, b, i + 1)
  }

  /** The second address ends while both are still equal: the source would index past its end. */
  predicate ComparePanics(a: seq<byte>, b: seq<byte>) {
    |b| < |a| && a[..|b|] == b
  }

  /** `compareIps`: addresses are compared over the length of the first. */
  method CompareIps(ip1: seq<byte>, ip2: seq<byte>) returns (r: int)
    requires !ComparePanics(ip1, ip2)
    ensures r == Compare(ip1, ip2, 0)
  {
    for index := 0 to |ip1|
      invariant Compare(ip1, ip2, 0) == Compare(ip1, ip2, index)
      invariant index <= |ip2| && ip1[..index] == ip2[..index]
    {
      assert ip2[..|ip2|] == ip2;
      if ip1[index] < ip2[index] {
        return -1;
      }
      if ip1[index] > ip2[index] {
        return 1;
      }
      assert ip1[..index + 1] == ip1[..index] + [ip1[index]] && ip2[..index + 1] == ip2[..index] + [ip2[index]];
    }
    return 0;
  }

  /** Both ends see the same order, from opposite sides, and a tie only between equal addresses. */
  lemma {:induction false} CompareAntisymmetric(a: seq<byte>, b: seq<byte>, i: nat)
    requires i <= |a| == |b| && a[..i] == b[..i]
    ensures Compare(a, b, i) == -Compare(b, a, i)
    ensures Compare(a, b, i) == 0 <==> a == b
    decreases |a| - i
  {
    if i == |a| {
      assert a == a[..i] && b == b[..i];
    } else if a[i] == b[i] {
      assert a[..i + 1] == a[..i] + [a[i]] && b[..i + 1] == b[..i] + [b[i]];
      CompareAntisymmetric(a, b, i + 1);
    }
  }

  /** The order is the order of the addresses as numbers. */
  lemma {:induction false} CompareIsOrder(a: seq<byte>, b: seq<byte>, i: nat)
    requires i <= |a| == |b| && a[..i] == b[..i]
    ensures Compare(a, b, i) < 0 <==> IPBytes.FromIP(a) < IPBytes.FromIP(b)
    decreases |a| - i
  {
    if i == |a| {
      assert a == a[..i] && b == b[..i];
    } else {
      assert a[..i + 1] == a[..i] + [a[i]] && b[..i + 1] == b[..i] + [b[i]];
      if a[i] == b[i] {
        CompareIsOrder(a, b, i + 1);
      } else if a[i] < b[i] {
        FirstByteDecides(a, b, i);
      } else {
        FirstByteDecides(b, a, i);
      }
    }
  }

  lemma {:induction false} FirstByteDecides(a: seq<byte>, b: seq<byte>, i: nat)
    requires i < |a| == |b| && a[..i] == b[..i] && a[i] < b[i]
    ensures IPBytes.FromIP(a) < IPBytes.FromIP(b)
    decreases |a|
  {
    var n := |a| - 1;
    if i < n {
      assert a[..n][..i] == a[..i] && b[..n][..i] == b[..i];
      FirstByteDecides(a[..n], b[..n], i);
    }
  }

  /** The value after `last` (0 for none yet) in 64-bit arithmetic. */
  function Next(last: nat, below: bool): nat {
    ((if last == 0 && below then 1 else last) + 2) % WORD
  }

  function Last(m: map<string, nat>, remote: string): nat {
    if remote in m then m[remote] else 0
  }

  class VniAllocator {
    var lastVni: map<string, nat>

    constructor ()
      ensures lastVni == map[]
    {
      lastVni := map[];
    }

    /** `Vni`, on the parsed addresses; an address that does not parse is empty. */
    method Vni(localIp: seq<byte>, remote: string, remoteIp: seq<byte>) returns (vni: nat)
      requires Last(lastVni, remote) == 0 ==> !ComparePanics(localIp, remoteIp)
      modifies this
      ensures lastVni == Allocate(old(lastVni), Call(localIp, remote, remoteIp))
      ensures vni == lastVni[remote]
    {
      var last := if remote in lastVni then lastVni[remote] else 0;
      if last == 0 {
        var c := CompareIps(localIp, remoteIp);
        if c < 0 {
          last := 1;
        }
      }
      lastVni := lastVni[remote := (last + 2) % WORD];
      vni := lastVni[remote];
    }
  }

  // ---- two hosts ----

  datatype Call = Call(localIp: seq<byte>, remote: string, remoteIp: seq<byte>)

  function Allocate(m: map<string, nat>, c: Call): map<string, nat> {
    m[c.remote := Next(Last(m, c.remote), Compare(c.localIp, c.remoteIp, 0) < 0)]
  }

  /** One call at one of the two hosts. */
  datatype Event = Event(atA: bool, call: Call)

  /** The addresses of the two hosts. */
  datatype Tunnel = Tunnel(ipA: seq<byte>, ipB: seq<byte>)

  predicate Proper(t: Tunnel) {
    |t.ipA| == |t.ipB| && t.ipA != t.ipB
  }

  /** `e` allocates for the tunnel between the two addresses, however it spells them. */
  predicate ForTunnel(t: Tunnel, e: Event) {
    if e.atA then e.call.localIp == t.ipA && e.call.remoteIp == t.ipB
    else e.call.localIp == t.ipB && e.call.remoteIp == t.ipA
  }

  /** `e` is a call at that host that spells the remote address `name`. */
  predicate Under(atA: bool, name: string, e: Event) {
    e.atA == atA && e.call.remote == name
  }

  /** The table of one host after the events. */
  function TableAt(atA: bool, es: seq<Event>): map<string, nat> {
    if es == [] then map[]
    else
      var n := |es| - 1;
      var m := TableAt(atA, es[..n]);
      if es[n].atA == atA then Allocate(m, es[n].call) else m
  }

  /** How many identifiers one host has allocated under one spelling. */
  function Allocated(atA: bool, name: string, es: seq<Event>): nat {
    if es == [] then 0
    else
      var n := |es| - 1;
      Allocated(atA, name, es[..n]) + (if Under(atA, name, es[n]) then 1 else 0)
  }

  /** How many identifiers one host has allocated for the tunnel, under any spelling. */
  function CallsAt(t: Tunnel, atA: bool, es: seq<Event>): nat {
    if es == [] then 0
    else
      var n := |es| - 1;
      CallsAt(t, atA, es[..n]) + (if es[n].atA == atA && ForTunnel(t, es[n]) then 1 else 0)
  }

  /** The identifier that event `i` returned. */
  function VniOf(es: seq<Event>, i: nat): nat
    requires i < |es|
  {
    Last(TableAt(es[i].atA, es[..i + 1]), es[i].call.remote)
  }

  /** The host with the smaller address takes the odd numbers. */
  function Odd(t: Tunnel, atA: bool): nat {
    var c := Compare(t.ipA, t.ipB, 0);
    if (atA && c < 0) || (!atA && c > 0) then 1 else 0
  }

  /** The odd side is the host whose address is the smaller number. */
  lemma SmallerIsOdd(t: Tunnel)
    requires Proper(t)
    ensures Odd(t, true) == (if IPBytes.FromIP(t.ipA) < IPBytes.FromIP(t.ipB) then 1 else 0)
    ensures Odd(t, false) == (if IPBytes.FromIP(t.ipB) < IPBytes.FromIP(t.ipA) then 1 else 0)
  {
    hide Compare;
    CompareAntisymmetric(t.ipA, t.ipB, 0);
    CompareIsOrder(t.ipA, t.ipB, 0);
    CompareIsOrder(t.ipB, t.ipA, 0);
  }

  /** The `n`-th identifier of a side, in 64 bits. */
  function Nth(n: nat, odd: nat): nat {
    (2 * n + odd) % WORD
  }

  /** The calls of a host under one spelling are all for the tunnel. */
  predicate Steady(t: Tunnel, atA: bool, name: string, es: seq<Event>) {
    forall i :: 0 <= i < |es| && Under(atA, name, es[i]) ==> ForTunnel(t, es[i])
  }

  /** The `n`-th identifier under a spelling is twice `n`, plus one on the odd side, in 64 bits. */
  lemma {:induction false} NthVni(t: Tunnel, atA: bool, name: string, es: seq<Event>)
    requires Proper(t) && Steady(t, atA, name, es)
    ensures var n := Allocated(atA, name, es);
            Last(TableAt(atA, es), name) == if n == 0 then 0 else Nth(n, Odd(t, atA))
    decreases |es|
  {
    if es != [] {
      hide Compare, Odd, Next, Nth;
      var n := |es| - 1;
      NthVni(t, atA, name, es[..n]);
      if Under(atA, name, es[n]) {
        NextOfTunnel(t, TableAt(atA, es[..n]), es[n], Allocated(atA, name, es[..n]));
      }
    }
  }

  /** One more allocation for the tunnel after `n`. */
  lemma NextOfTunnel(t: Tunnel, m: map<string, nat>, e: Event, n: nat)
    requires Proper(t) && ForTunnel(t, e)
    requires Last(m, e.call.remote) == if n == 0 then 0 else Nth(n, Odd(t, e.atA))
    ensures Last(Allocate(m, e.call), e.call.remote) == Nth(n + 1, Odd(t, e.atA))
  {
    hide Compare, Next, Nth;
    CompareAntisymmetric(t.ipA, t.ipB, 0);
    NextNth(n, Odd(t, e.atA));
  }

  /** Only the even side passes zero again, where the start is the same. */
  lemma NextNth(n: nat, odd: nat)
    requires odd < 2
    ensures Next(if n == 0 then 0 else Nth(n, odd), odd == 1) == Nth(n + 1, odd)
  {
    NthInTurn(n, odd);
    NextModulo(2 * n + odd, 2, WORD);
  }

  lemma NextModulo(x: nat, d: nat, m: nat)
    requires m > 0
    ensures (x % m + d) % m == (x + d) % m
  {
    var y := x % m + d;
    var q, r := x / m, y / m;
    assert x == m * q + x % m && y == m * r + y % m;
    assert m * (q + r) == m * q + m * r;
    DivModUnique(m, q + r, y % m);
  }

  /** After 2^63 identifiers they start again. */
  lemma NthInTurn(n: nat, odd: nat)
    requires odd < 2
    ensures Nth(n, odd) == 2 * (n % (WORD / 2)) + odd
  {
    HalfDivMod(2 * n + odd, WORD / 2);
    assert (2 * n + odd) / 2 == n;
  }

  lemma AllocatedStep(atA: bool, name: string, es: seq<Event>, i: nat)
    requires i < |es|
    ensures Allocated(atA, name, es[..i + 1]) ==
            Allocated(atA, name, es[..i]) + (if Under(atA, name, es[i]) then 1 else 0)
  {
    assert es[..i + 1][..i] == es[..i];
  }

  lemma {:induction false} AllocatedGrows(atA: bool, name: string, es: seq<Event>, i: nat, j: nat)
    requires i <= j <= |es|
    ensures Allocated(atA, name, es[..i]) <= Allocated(atA, name, es[..j])
    decreases j
  {
    if i < j {
      AllocatedGrows(atA, name, es, i, j - 1);
      AllocatedStep(atA, name, es, j - 1);
    }
  }

  /** What a call returned, from its place among the calls under its spelling. */
  lemma NthOfEvent(t: Tunnel, es: seq<Event>, i: nat)
    requires Proper(t) && i < |es| && Steady(t, es[i].atA, es[i].call.remote, es)
    ensures var n := Allocated(es[i].atA, es[i].call.remote, es[..i + 1]);
            && 0 < n <= Allocated(es[i].atA, es[i].call.remote, es)
            && VniOf(es, i) == 2 * (n % (WORD / 2)) + Odd(t, es[i].atA)
  {
    hide Allocated, Compare, Nth, TableAt;
    var atA, name := es[i].atA, es[i].call.remote;
    assert es[..|es|] == es;
    AllocatedGrows(atA, name, es, i + 1, |es|);
    AllocatedStep(atA, name, es, i);
    NthVni(t, atA, name, es[..i + 1]);
    NthInTurn(Allocated(atA, name, es[..i + 1]), Odd(t, atA));
  }

  // ---- clashes ----

  /** Each host passes one pair of addresses under a spelling that it uses for the tunnel. */
  predicate OneMeaning(t: Tunnel, es: seq<Event>) {
    forall i, j :: 0 <= i < |es| && 0 <= j < |es| && ForTunnel(t, es[i]) ==>
      Under(es[i].atA, es[i].call.remote, es[j]) ==> ForTunnel(t, es[j])
  }

  /** Each host spells the other's address in one way. */
  predicate OneSpelling(t: Tunnel, es: seq<Event>) {
    forall i, j :: 0 <= i < j < |es| && ForTunnel(t, es[i]) && ForTunnel(t, es[j]) && es[i].atA == es[j].atA ==>
      es[i].call.remote == es[j].call.remote
  }

  /** No identifier was handed out twice for the tunnel. */
  predicate NoClash(t: Tunnel, es: seq<Event>) {
    forall i, j :: 0 <= i < j < |es| && ForTunnel(t, es[i]) && ForTunnel(t, es[j]) ==> VniOf(es, i) != VniOf(es, j)
  }

  /**
   * Identifiers for the tunnel do not clash, whichever hosts allocate them and in whatever order, if
   * and only if each host spells the other's address in one way and allocates at most 2^63 of them.
   */
  lemma NoClashIff(t: Tunnel, es: seq<Event>)
    requires Proper(t) && OneMeaning(t, es)
    ensures NoClash(t, es) <==>
            OneSpelling(t, es) && CallsAt(t, true, es) <= WORD / 2 && CallsAt(t, false, es) <= WORD / 2
  {
    hide OneMeaning, OneSpelling, NoClash, CallsAt, ForTunnel;
    if !OneSpelling(t, es) {
      SpellingsClash(t, es);
    } else {
      if NoClash(t, es) {
        FewCalls(t, es, true);
        FewCalls(t, es, false);
      }
      if CallsAt(t, true, es) <= WORD / 2 && CallsAt(t, false, es) <= WORD / 2 {
        OneSpellingNoClash(t, es);
      }
    }
  }

  lemma MeansTunnel(t: Tunnel, es: seq<Event>, i: nat)
    requires OneMeaning(t, es) && i < |es| && ForTunnel(t, es[i])
    ensures Steady(t, es[i].atA, es[i].call.remote, es)
  {
    hide ForTunnel;
  }

  lemma {:induction false} SteadyCalls(t: Tunnel, atA: bool, name: string, es: seq<Event>)
    requires Steady(t, atA, name, es)
    ensures Allocated(atA, name, es) <= CallsAt(t, atA, es)
    decreases |es|
  {
    hide ForTunnel;
    if es != [] {
      SteadyCalls(t, atA, name, es[..|es| - 1]);
    }
  }

  lemma OneSpellingNoClash(t: Tunnel, es: seq<Event>)
    requires Proper(t) && OneMeaning(t, es) && OneSpelling(t, es)
    requires CallsAt(t, true, es) <= WORD / 2 && CallsAt(t, false, es) <= WORD / 2
    ensures NoClash(t, es)
  {
    hide ForTunnel, VniOf, CallsAt, OneMeaning;
    forall i, j | 0 <= i < j < |es| && ForTunnel(t, es[i]) && ForTunnel(t, es[j])
      ensures VniOf(es, i) != VniOf(es, j)
    {
      TwoCallsDiffer(t, es, i, j);
    }
  }

  lemma TwoCallsDiffer(t: Tunnel, es: seq<Event>, i: nat, j: nat)
    requires Proper(t) && OneMeaning(t, es) && i < j < |es| && ForTunnel(t, es[i]) && ForTunnel(t, es[j])
    requires es[i].atA == es[j].atA ==> es[i].call.remote == es[j].call.remote
    requires CallsAt(t, true, es) <= WORD / 2 && CallsAt(t, false, es) <= WORD / 2
    ensures VniOf(es, i) != VniOf(es, j)
  {
    hide ForTunnel, VniOf, CallsAt, OneMeaning, Allocated, Compare, Steady;
    MeansTunnel(t, es, i);
    MeansTunnel(t, es, j);
    NthOfEvent(t, es, i);
    NthOfEvent(t, es, j);
    CompareAntisymmetric(t.ipA, t.ipB, 0);
    if es[i].atA == es[j].atA {
      var atA, name := es[i].atA, es[i].call.remote;
      SteadyCalls(t, atA, name, es);
      AllocatedGrows(atA, name, es, i + 1, j);
      AllocatedStep(atA, name, es, j);
      WithinOneTurn(Allocated(atA, name, es[..i + 1]), Allocated(atA, name, es[..j + 1]), WORD / 2);
    }
  }

  /** Counts from one to `half` differ modulo `half`. */
  lemma WithinOneTurn(m: nat, n: nat, half: nat)
    requires 0 < m < n <= half
    ensures m % half != n % half
  {
    DivModUnique(half, 0, m);
    if n == half {
      DivModUnique(half, 1, 0);
    } else {
      DivModUnique(half, 0, n);
    }
  }

  /** The call that brings the count under a spelling to `k`. */
  lemma {:induction false} NthCall(atA: bool, name: string, es: seq<Event>, k: nat) returns (i: nat)
    requires 0 < k <= Allocated(atA, name, es)
    ensures i < |es| && Under(atA, name, es[i]) && Allocated(atA, name, es[..i + 1]) == k
    decreases |es|
  {
    var n := |es| - 1;
    if k <= Allocated(atA, name, es[..n]) {
      i := NthCall(atA, name, es[..n], k);
      assert es[..n][..i + 1] == es[..i + 1];
    } else {
      i := n;
      assert es[..i + 1] == es;
    }
  }

  /** Calls number `k` and `k'` under two spellings, or one, whose counts agree modulo 2^63: they clash. */
  lemma SameTurnClash(t: Tunnel, es: seq<Event>, i: nat, j: nat)
    requires Proper(t) && i < |es| && j < |es| && i != j && es[i].atA == es[j].atA
    requires Steady(t, es[i].atA, es[i].call.remote, es) && Steady(t, es[j].atA, es[j].call.remote, es)
    requires Allocated(es[i].atA, es[i].call.remote, es[..i + 1]) % (WORD / 2) ==
             Allocated(es[j].atA, es[j].call.remote, es[..j + 1]) % (WORD / 2)
    ensures !NoClash(t, es)
  {
    hide Allocated, VniOf, Odd;
    NthOfEvent(t, es, i);
    NthOfEvent(t, es, j);
    assert Under(es[i].atA, es[i].call.remote, es[i]) && Under(es[j].atA, es[j].call.remote, es[j]);
    assert VniOf(es, i) == VniOf(es, j);
  }

  lemma CallCounts(es: seq<Event>, i: nat)
    requires i < |es|
    ensures Allocated(es[i].atA, es[i].call.remote, es) > 0
  {
    hide Allocated;
    assert es[..|es|] == es;
    AllocatedStep(es[i].atA, es[i].call.remote, es, i);
    AllocatedGrows(es[i].atA, es[i].call.remote, es, i + 1, |es|);
  }

  /** Under a second spelling a host counts afresh: both first calls get the same identifier. */
  lemma SpellingsClash(t: Tunnel, es: seq<Event>)
    requires Proper(t) && OneMeaning(t, es) && !OneSpelling(t, es)
    ensures !NoClash(t, es)
  {
    hide OneMeaning, NoClash, ForTunnel, Allocated, Steady;
    var i, j :| && 0 <= i < j < |es| && ForTunnel(t, es[i]) && ForTunnel(t, es[j]) && es[i].atA == es[j].atA
                && es[i].call.remote != es[j].call.remote;
    MeansTunnel(t, es, i);
    MeansTunnel(t, es, j);
    CallCounts(es, i);
    CallCounts(es, j);
    var x := NthCall(es[i].atA, es[i].call.remote, es, 1);
    var y := NthCall(es[j].atA, es[j].call.remote, es, 1);
    SameTurnClash(t, es, x, y);
  }

  lemma {:induction false} AllUnderOne(t: Tunnel, atA: bool, name: string, es: seq<Event>)
    requires Steady(t, atA, name, es)
    requires forall i :: 0 <= i < |es| && es[i].atA == atA && ForTunnel(t, es[i]) ==> es[i].call.remote == name
    ensures CallsAt(t, atA, es) == Allocated(atA, name, es)
    decreases |es|
  {
    hide ForTunnel;
    if es != [] {
      AllUnderOne(t, atA, name, es[..|es| - 1]);
    }
  }

  lemma {:induction false} SomeCall(t: Tunnel, atA: bool, es: seq<Event>) returns (i: nat)
    requires CallsAt(t, atA, es) > 0
    ensures i < |es| && es[i].atA == atA && ForTunnel(t, es[i])
    decreases |es|
  {
    hide ForTunnel;
    var n := |es| - 1;
    if es[n].atA == atA && ForTunnel(t, es[n]) {
      i := n;
    } else {
      i := SomeCall(t, atA, es[..n]);
    }
  }

  /** Without a clash a host has allocated at most 2^63 identifiers: then they start again. */
  lemma FewCalls(t: Tunnel, es: seq<Event>, atA: bool)
    requires Proper(t) && OneMeaning(t, es) && OneSpelling(t, es) && NoClash(t, es)
    ensures CallsAt(t, atA, es) <= WORD / 2
  {
    hide OneMeaning, NoClash, ForTunnel, Allocated, Steady, CallsAt;
    if CallsAt(t, atA, es) > WORD / 2 {
      var i := SomeCall(t, atA, es);
      var name := es[i].call.remote;
      MeansTunnel(t, es, i);
      AllUnderOne(t, atA, name, es);
      var x := NthCall(atA, name, es, 1);
      var y := NthCall(atA, name, es, WORD / 2 + 1);
      SameTurnClash(t, es, x, y);
    }
  }

  /** Exactly these identifiers fit the 24-bit field of a VXLAN header; the first 2^23 - 1 of each turn. */
  lemma FitsHeader(t: Tunnel, es: seq<Event>, i: nat)
    requires Proper(t) && OneMeaning(t, es) && i < |es| && ForTunnel(t, es[i])
    ensures VniOf(es, i) < 0x100_0000 <==>
            Allocated(es[i].atA, es[i].call.remote, es[..i + 1]) % (WORD / 2) <= 0x80_0000 - 1
  {
    MeansTunnel(t, es, i);
    NthOfEvent(t, es, i);
  }

  /** Two spellings of one remote address, one call under each. */
  lemma SecondSpellingClashes(ipA: seq<byte>, ipB: seq<byte>, one: string, two: string)
    requires one != two
    ensures var es := [Event(true, Call(ipA, one, ipB)), Event(true, Call(ipA, two, ipB))];
            VniOf(es, 0) == VniOf(es, 1)
  {
    var es := [Event(true, Call(ipA, one, ipB)), Event(true, Call(ipA, two, ipB))];
    hide Compare;
    assert es[..1] == [es[0]] && es[..2] == es;
    assert TableAt(true, es[..1][..0]) == map[];
    assert TableAt(true, es) == Allocate(TableAt(true, es[..1]), es[1].call);
  }
}
