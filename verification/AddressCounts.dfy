/** `AddressCount`: the number of addresses of a list of networks, in 64-bit arithmetic. */
module AddressCounts {
  import opened Powers
  import opened IPNets
  import opened Spaces
  import opened Extraction

  /** `addressCount`: shifting a 64-bit one out of its word leaves zero. */
  function AddressCountOf(p: IPNet): nat {
    if p.host < 64 then Pow2(p.host) else 0
  }

  lemma CountIsSizeModWord(p: IPNet)
    ensures AddressCountOf(p) == Size(p) % WORD
  {
    WordIsPow2();
    if p.host < 64 {
      Pow2Monotone(p.host, 63);
      assert Pow2(64) == 2 * Pow2(63);
      DivModUnique(WORD, 0, Pow2(p.host));
    } else {
      Pow2Add(64, p.host - 64);
      DivModUnique(WORD, Pow2(p.host - 64), 0);
    }
  }

  lemma AddModWord(x: nat, y: nat)
    ensures (x % WORD + y % WORD) % WORD == (x + y) % WORD
  {
  }

  lemma {:induction false} SizeSumSnoc(ps: seq<IPNet>, i: nat)
    requires i < |ps|
    ensures SizeSum(ps[..i + 1]) == SizeSum(ps[..i]) + Size(ps[i])
  {
    assert ps[..i + 1] == ps[..i] + [ps[i]];
    SizeSumConcat(ps[..i], [ps[i]]);
    assert SizeSum([ps[i]]) == Size(ps[i]);
  }

  /** What `AddressCount` returns: a sum that wraps around. */
  function Count(prefixes: seq<IPNet>): nat {
    if prefixes == [] then 0
    else
      var n := |prefixes| - 1;
      (Count(prefixes[..n]) + AddressCountOf(prefixes[n])) % WORD
  }

  lemma {:induction false} CountIsSizeSum(prefixes: seq<IPNet>)
    ensures Count(prefixes) == SizeSum(prefixes) % WORD
    decreases |prefixes|
  {
    if prefixes != [] {
      var n := |prefixes| - 1;
      hide SizeSum, AddressCountOf;
      CountIsSizeSum(prefixes[..n]);
      CountIsSizeModWord(prefixes[n]);
      SizeSumSnoc(prefixes, n);
      assert prefixes[..n + 1] == prefixes;
      AddModWord(SizeSum(prefixes[..n]), Size(prefixes[n]));
    }
  }

  /** `AddressCount`: the number of addresses modulo 2^64. */
  method AddressCount(prefixes: seq<IPNet>) returns (c: nat)
    ensures c == Count(prefixes) && c == SizeSum(prefixes) % WORD
  {
    c := 0;
    for i := 0 to |prefixes|
      invariant c == Count(prefixes[..i])
    {
      assert prefixes[..i + 1][..i] == prefixes[..i];
      c := (c + AddressCountOf(prefixes[i])) % WORD;
    }
    assert prefixes[..|prefixes|] == prefixes;
    CountIsSizeSum(prefixes);
  }

  lemma CarvedSizes(ps: seq<IPNet>, nets: seq<IPNet>, rem: seq<IPNet>, w: nat)
    requires ListPool(ps, w) && Carved(ps, nets, rem, w)
    ensures SizeSum(nets) + SizeSum(rem) == SizeSum(ps)
  {
    SizeSumIsCount(ps, w);
    SizeSumIsCount(nets + rem, w);
    SizeSumConcat(nets, rem);
  }

  /** Cutting a pool up conserves the address count, in 64-bit arithmetic as in plain numbers. */
  lemma CarvingConservesCount(ps: seq<IPNet>, nets: seq<IPNet>, rem: seq<IPNet>, w: nat)
    requires ListPool(ps, w) && Carved(ps, nets, rem, w)
    ensures (Count(nets) + Count(rem)) % WORD == Count(ps)
    ensures SizeSum(nets) + SizeSum(rem) == SizeSum(ps)
  {
    hide SizeSum, Count, Carved, ListPool;
    CarvedSizes(ps, nets, rem, w);
    CountIsSizeSum(ps);
    CountIsSizeSum(nets);
    CountIsSizeSum(rem);
    AddModWord(SizeSum(nets), SizeSum(rem));
  }

  /** So does coalescing: equal address sets have equal counts. */
  lemma SameSpaceSameCount(a: seq<IPNet>, b: seq<IPNet>, w: nat)
    requires ListPool(a, w) && ListPool(b, w) && AddrsOf(a) == AddrsOf(b)
    ensures Count(a) == Count(b) && SizeSum(a) == SizeSum(b)
  {
    hide SizeSum, Count;
    SizeSumIsCount(a, w);
    SizeSumIsCount(b, w);
    CountIsSizeSum(a);
    CountIsSizeSum(b);
  }
}
