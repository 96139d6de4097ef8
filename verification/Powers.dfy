/** Powers of two and the few division facts that aligned blocks need. */
module Powers {

  function Pow2(n: nat): (r: nat)
    ensures r > 0
  {
    if n == 0 then 1 else 2 * Pow2(n - 1)
  }

  lemma {:induction false} Pow2Add(a: nat, b: nat)
    ensures Pow2(a + b) == Pow2(a) * Pow2(b)
  {
    if a > 0 {
      Pow2Add(a - 1, b);
    }
  }

  lemma {:induction false} Pow2Monotone(a: nat, b: nat)
    requires a <= b
    ensures Pow2(a) <= Pow2(b)
    decreases b
  {
    if a < b {
      Pow2Monotone(a, b - 1);
    }
  }

  /** A multiple of `m` is `m` times its quotient. */
  lemma MultipleOf(x: int, m: int)
    requires m > 0 && x % m == 0
    ensures x == m * (x / m)
  {
  }

  /** A non-zero multiple of `m` is at least `m` away from zero. */
  lemma MultipleAwayFromZero(m: int, k: int)
    requires m > 0
    ensures k >= 1 ==> m * k >= m
    ensures k <= -1 ==> m * k <= -m
    ensures k <= 0 ==> m * k <= 0
  {
  }

  /** Quotient and remainder are unique. */
  lemma DivModUnique(m: int, q: int, r: int)
    requires 0 <= r < m
    ensures (m * q + r) / m == q
    ensures (m * q + r) % m == r
  {
    var x := m * q + r;
    var q', r' := x / m, x % m;
    assert x == m * q' + r';
    assert m * (q - q') == r' - r;
    MultipleAwayFromZero(m, q - q');
  }

  /** The `h` lowest bits of `x` are zero. */
  predicate Aligned(x: nat, h: nat)
    decreases h
  {
    h == 0 || (x % 2 == 0 && Aligned(x / 2, h - 1))
  }

  /** Halving a number halves its quotient and its remainder. */
  lemma HalfDivMod(x: nat, m: nat)
    requires m > 0
    ensures x / (2 * m) == (x / 2) / m
    ensures x % (2 * m) == 2 * ((x / 2) % m) + x % 2
  {
    var y := x / 2;
    var q, r := y / m, y % m;
    assert y == m * q + r;
    assert x == 2 * y + x % 2;
    assert 2 * (m * q) == (2 * m) * q;
    DivModUnique(2 * m, q, 2 * r + x % 2);
  }

  lemma {:induction false} AlignedIsMultiple(x: nat, h: nat)
    ensures Aligned(x, h) <==> x % Pow2(h) == 0
    decreases h
  {
    if h > 0 {
      AlignedIsMultiple(x / 2, h - 1);
      HalfDivMod(x, Pow2(h - 1));
    }
  }

  /** Alignment is inherited by every smaller power of two. */
  lemma {:induction false} AlignedToSmaller(x: nat, small: nat, big: nat)
    requires small <= big && Aligned(x, big)
    ensures Aligned(x, small)
    decreases small
  {
    if small > 0 {
      AlignedToSmaller(x / 2, small - 1, big - 1);
    }
  }

  /** Between two aligned points that differ there is room for a whole block. */
  lemma AlignedGap(x: int, y: int, m: int)
    requires m > 0 && x % m == 0 && y % m == 0 && x < y
    ensures x + m <= y
  {
    MultipleOf(x, m);
    MultipleOf(y, m);
    var a, b := x / m, y / m;
    assert m * (b - a) == m * b - m * a;
    MultipleAwayFromZero(m, b - a);
  }

  /** `x` is a whole number of blocks of `m`. */
  predicate Multiple(x: int, m: int)
    requires m > 0
  {
    x % m == 0
  }

  lemma MultipleSum(x: int, y: int, m: int)
    requires m > 0 && Multiple(x, m) && Multiple(y, m)
    ensures Multiple(x + y, m)
  {
    AlignedSum(x, y, m);
  }

  lemma MultipleZero(m: int)
    requires m > 0
    ensures Multiple(0, m)
  {
    DivModUnique(m, 0, 0);
  }

  lemma AlignedSum(x: int, y: int, m: int)
    requires m > 0 && x % m == 0 && y % m == 0
    ensures (x + y) % m == 0 && (x - y) % m == 0
  {
    MultipleOf(x, m);
    MultipleOf(y, m);
    DivModUnique(m, x / m + y / m, 0);
    DivModUnique(m, x / m - y / m, 0);
    assert m * (x / m + y / m) == x + y;
    assert m * (x / m - y / m) == x - y;
  }

  /** One more than the largest number that 64 bits hold. */
  const WORD: nat := 0x1_0000_0000_0000_0000

  lemma Squared(n: nat, v: nat)
    requires Pow2(n) == v
    ensures Pow2(2 * n) == v * v
  {
    Pow2Add(n, n);
  }

  lemma WordIsPow2()
    ensures Pow2(64) == WORD
  {
    Squared(1, 2);
    Squared(2, 4);
    Squared(4, 16);
    Squared(8, 256);
    Squared(16, 0x1_0000);
    Squared(32, 0x1_0000_0000);
  }
}
