/** Machine words as bounded integers, and the C operators on them.
    Shifts are products and quotients with powers of two; `|` and `&` are defined on the bits,
    and the lemmas say when they are a sum, a remainder or a rounding. */
module Words {

  const TWO_31 := 0x8000_0000
  const TWO_32 := 0x1_0000_0000
  const TWO_63 := 0x8000_0000_0000_0000
  const TWO_64 := 0x1_0000_0000_0000_0000

  type u32 = x: int | 0 <= x < 0x1_0000_0000
  type u64 = x: int | 0 <= x < 0x1_0000_0000_0000_0000
  type i32 = x: int | -0x8000_0000 <= x < 0x8000_0000
  type i64 = x: int | -0x8000_0000_0000_0000 <= x < 0x8000_0000_0000_0000
  type byte = x: int | 0 <= x < 256

  /** The two's complement reading of a 64-bit word. */
  function Signed64(x: u64): i64 {
    if x < TWO_63 then x else x - TWO_64
  }

  /** The two's complement reading of a 32-bit word. */
  function Signed32(x: u32): i32 {
    if x < TWO_31 then x else x - TWO_32
  }

  function Pow2(k: nat): (p: nat)
    ensures p >= 1
  {
    if k == 0 then 1 else 2 * Pow2(k - 1)
  }

  function BitOr(a: nat, b: nat): nat {
    if a == 0 && b == 0 then 0
    else (if a % 2 == 1 || b % 2 == 1 then 1 else 0) + 2 * BitOr(a / 2, b / 2)
  }

  function BitAnd(a: nat, b: nat): nat {
    if a == 0 || b == 0 then 0
    else (if a % 2 == 1 && b % 2 == 1 then 1 else 0) + 2 * BitAnd(a / 2, b / 2)
  }

  function Shl32(x: u32, k: nat): u32 {
    (x * Pow2(k)) % 0x1_0000_0000
  }

  function Shr(x: nat, k: nat): nat {
    DivNonNegative(x, Pow2(k));
    x / Pow2(k)
  }

  lemma DivNonNegative(x: nat, p: nat)
    requires p > 0
    ensures 0 <= x / p <= x
  {
    var q := x / p;
    assert x == p * q + x % p;
    if q < 0 { MulMonotone(q, -1, p); }
    if q > 0 { MulMonotone(1, p, q); }
  }

  lemma {:induction false} Pow2Add(j: nat, k: nat)
    ensures Pow2(j + k) == Pow2(j) * Pow2(k)
  {
    if j > 0 {
      Pow2Add(j - 1, k);
      MulAssociative(2, Pow2(j - 1), Pow2(k));
    }
  }

  lemma {:induction false} Pow2Monotone(j: nat, k: nat)
    requires j <= k
    ensures Pow2(j) <= Pow2(k)
  {
    if j < k { Pow2Monotone(j, k - 1); }
  }

  lemma Pow2Of16()
    ensures Pow2(3) == 8 && Pow2(4) == 16 && Pow2(8) == 256 && Pow2(12) == 0x1000 && Pow2(16) == 0x1_0000
  {
    Pow2Add(4, 4);
    Pow2Add(8, 4);
    Pow2Add(8, 8);
  }

  lemma Pow2Of32()
    ensures Pow2(31) == 0x8000_0000 && Pow2(32) == 0x1_0000_0000
  {
    Pow2Of16();
    Pow2Add(16, 16);
    assert Pow2(32) == 2 * Pow2(31);
  }

  lemma Pow2Of64()
    ensures Pow2(64) == 0x1_0000_0000_0000_0000
  {
    Pow2Of32();
    Pow2Add(32, 32);
  }

  // ---- Products ----

  lemma MulMonotone(a: int, b: int, c: nat)
    requires a <= b
    ensures a * c <= b * c
  {
  }

  lemma MulAssociative(a: int, b: int, c: int)
    ensures (a * b) * c == a * (b * c)
  {
  }

  lemma MulDistributes(a: int, b: int, c: int)
    ensures (a + b) * c == a * c + b * c
    ensures (a - b) * c == a * c - b * c
  {
  }

  lemma QuotientBelow(n: nat, d: nat, b: nat)
    requires d > 0 && n < d * b
    ensures n / d < b
  {
    var q := n / d;
    assert n == d * q + n % d;
    if q >= b { MulMonotone(b, q, d); }
  }

  /** A number times s, split at s * t: the high part of x moves up whole and
      the low part stays below. */
  lemma SplitProduct(x: nat, s: nat, t: nat)
    requires s > 0 && t > 0 && x < s * t
    ensures x / t < s
    ensures x * s == (x / t) * (s * t) + (x % t) * s
    ensures (x % t) * s <= s * t - s
    ensures (x * s) % (s * t) == (x % t) * s
    ensures ((x % t) * s) % s == 0
  {
    var h, l := x / t, x % t;
    QuotientBelow(x, t, s);
    assert x == h * t + l;
    MulDistributes(h * t, l, s);
    MulAssociative(h, t, s);
    MulMonotone(l, t - 1, s);
    MulDistributes(t, 1, s);
    DivModUnique(x * s, s * t, h, l * s);
    DivModUnique(l * s, s, l, 0);
  }

  /** Quotient and remainder are determined by the division identity. */
  lemma DivModUnique(x: int, d: int, q: int, r: int)
    requires d > 0 && x == q * d + r && 0 <= r < d
    ensures x / d == q && x % d == r
  {
    var e := x / d - q;
    assert e * d == r - x % d by { assert x == d * (x / d) + x % d; }
    assert e >= 1 ==> e * d >= d;
    assert e <= -1 ==> e * d <= -d;
  }

  /** Dividing by an even number, lowest bit first. */
  lemma HalveFirst(x: nat, h: nat)
    requires h > 0
    ensures x / (2 * h) == (x / 2) / h
    ensures x % (2 * h) == 2 * ((x / 2) % h) + x % 2
  {
    var q, r := (x / 2) / h, (x / 2) % h;
    assert x / 2 == q * h + r;
    assert x == q * (2 * h) + (2 * r + x % 2);
    DivModUnique(x, 2 * h, q, 2 * r + x % 2);
  }

  /** Or-ing a multiple of 2^k with a smaller number adds them. */
  lemma {:induction false} OrIsSum(a: nat, b: nat, k: nat)
    requires a % Pow2(k) == 0 && b < Pow2(k)
    ensures BitOr(a, b) == a + b
    decreases k, a
  {
    if k == 0 {
      OrZero(a);
    } else {
      var h := Pow2(k - 1);
      var q := a / Pow2(k);
      assert a == 2 * (q * h);
      assert a / 2 == q * h;
      DivModUnique(q * h, h, q, 0);
      OrIsSum(a / 2, b / 2, k - 1);
    }
  }

  lemma {:induction false} OrZero(a: nat)
    ensures BitOr(a, 0) == a
  {
    if a > 0 { OrZero(a / 2); }
  }

  /** Masking with 2^k - 1 takes the remainder. */
  lemma {:induction false} AndMask(x: nat, k: nat)
    ensures BitAnd(x, Pow2(k) - 1) == x % Pow2(k)
  {
    if x == 0 {
      DivModUnique(0, Pow2(k), 0, 0);
    } else if k > 0 {
      HalveFirst(x, Pow2(k - 1));
      AndMask(x / 2, k - 1);
    }
  }

  /** Masking with the w-bit complement of 2^k - 1 rounds down to a multiple of 2^k. */
  lemma {:induction false} AndRoundsDown(x: nat, k: nat, w: nat)
    requires k <= w && x < Pow2(w)
    ensures Pow2(w) - Pow2(k) >= 0
    ensures BitAnd(x, Pow2(w) - Pow2(k)) == x - x % Pow2(k)
    decreases k, 1
  {
    Pow2Monotone(k, w);
    if k == 0 {
      AndMask(x, w);
      DivModUnique(x, Pow2(w), 0, x);
    } else {
      AndRoundsDownStep(x, k, w);
    }
  }

  lemma {:induction false} AndRoundsDownStep(x: nat, k: nat, w: nat)
    requires 0 < k <= w && x < Pow2(w)
    requires Pow2(w) - Pow2(k) >= 0
    ensures BitAnd(x, Pow2(w) - Pow2(k)) == x - x % Pow2(k)
    decreases k, 0
  {
    var h, m := Pow2(k - 1), Pow2(w - 1) - Pow2(k - 1);
    AndRoundsDown(x / 2, k - 1, w - 1);
    assert Pow2(k) == 2 * h && Pow2(w) - Pow2(k) == 2 * m;
    AndHalves(x, h, m);
  }

  lemma AndHalves(x: nat, h: nat, m: nat)
    requires h > 0 && BitAnd(x / 2, m) == x / 2 - (x / 2) % h
    ensures BitAnd(x, 2 * m) == x - x % (2 * h)
  {
    hide BitAnd;
    AndEven(x, m);
    HalveFirst(x, h);
  }

  lemma AndEven(x: nat, m: nat)
    ensures BitAnd(x, 2 * m) == 2 * BitAnd(x / 2, m)
  {
    if x > 0 && m > 0 {
      DivModUnique(2 * m, 2, m, 0);
      AndUnfolds(x, 2 * m);
    }
  }

  lemma AndUnfolds(a: nat, b: nat)
    requires a > 0 && b > 0
    ensures BitAnd(a, b) == (if a % 2 == 1 && b % 2 == 1 then 1 else 0) + 2 * BitAnd(a / 2, b / 2)
  {
  }
}
