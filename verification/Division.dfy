/** The 64-bit division runtime: 64/64 division out of 32-bit words.
    `UdivQrnnd`, `UmulPpmm` and `SubDdmmss` are the machine instructions the
    macros expand to; `UdivQrnnd` may only be issued where the hardware divide
    does not fault, that is where the high word is below the divisor. */
module Division {
  import opened Words

  datatype Option<T> = None | Some(value: T)

  /** `Fault` is the divide exception raised on purpose for a zero divisor. */
  datatype Outcome = Fault | Done(quotient: u64, remainder: Option<u64>)

  function Join(high: u32, low: u32): u64 {
    high * 0x1_0000_0000 + low
  }

  function High(x: u64): u32 { x / 0x1_0000_0000 }

  function Low(x: u64): u32 { x % 0x1_0000_0000 }

  // ---- The machine instructions ----

  function UdivQrnnd(n1: u32, n0: u32, dv: u32): (qr: (u32, u32))
    requires n1 < dv
    ensures Join(n1, n0) == qr.0 * dv + qr.1 && qr.1 < dv
  {
    var n := Join(n1, n0);
    QuotientBelow(n, dv, 0x1_0000_0000);
    (n / dv, n % dv)
  }

  function UmulPpmm(u: u32, v: u32): (w: (u32, u32))
    ensures Join(w.0, w.1) == u * v
  {
    MulMonotone(u, 0xFFFF_FFFF, v);
    (High(u * v), Low(u * v))
  }

  lemma WrapOnce(x: int)
    requires -0x1_0000_0000 <= x < 0x1_0000_0000
    ensures x % 0x1_0000_0000 == if x < 0 then x + 0x1_0000_0000 else x
  {
  }

  /** Double-word subtraction with borrow, modulo 2^64. */
  function SubDdmmss(ah: u32, al: u32, bh: u32, bl: u32): (s: (u32, u32))
    ensures var a, b := Join(ah, al), Join(bh, bl);
            Join(s.0, s.1) == if a >= b then a - b else a - b + TWO_64
  {
    var low := al - bl;
    var borrow := if low < 0 then 1 else 0;
    WrapOnce(low);
    WrapOnce(ah - bh - borrow);
    ((ah - bh - borrow) % 0x1_0000_0000, low % 0x1_0000_0000)
  }

  /** The index of the highest set bit. */
  function Bsr(x: nat): (k: nat)
    requires x > 0
    ensures Pow2(k) <= x < 2 * Pow2(k)
  {
    if x == 1 then 0 else 1 + Bsr(x / 2)
  }

  function CountLeadingZeros(x: u32): (c: nat)
    requires x > 0
    ensures c <= 31 && x * Pow2(c) < 0x1_0000_0000 <= 2 * (x * Pow2(c))
  {
    var k := Bsr(x);
    assert k <= 31 by {
      if k > 31 { Pow2Of32(); Pow2Monotone(32, k); }
    }
    LeadingZeroBounds(x, k);
    31 - k
  }

  lemma LeadingZeroBounds(x: nat, k: nat)
    requires k <= 31 && Pow2(k) <= x < 2 * Pow2(k)
    ensures x * Pow2(31 - k) < 0x1_0000_0000 <= 2 * (x * Pow2(31 - k))
  {
    var p, s := Pow2(k), Pow2(31 - k);
    assert p * s == 0x8000_0000 by { Pow2Of32(); Pow2Add(k, 31 - k); }
    MulMonotone(p, x, s);
    MulMonotone(x, 2 * p - 1, s);
    MulDistributes(2 * p, 1, s);
    MulAssociative(2, p, s);
  }

  // ---- Why one correction is enough ----

  /** The digit estimated from the normalised high words overshoots the true
      digit by at most one: the part of the product that the estimate ignored
      never exceeds the normalised divisor. When the shift is 31 this rests on
      the low word being a multiple of 2^31. */
  lemma EstimateOvershootsByOne(d1: u32, d0: u32, n2: nat, n1: u32, q: u32, k: nat)
    requires 1 <= k <= 31
    requires d1 >= 0x8000_0000 && d0 % Pow2(k) == 0
    requires n2 < Pow2(k)
    requires q * d1 <= n2 * 0x1_0000_0000 + n1
    ensures q * d0 <= Join(d1, d0)
  {
    ShiftSizes(k);
    OvershootBound(d1, d0, n2, n1, q, Pow2(k));
  }

  lemma OvershootBound(d1: u32, d0: u32, n2: nat, n1: u32, q: u32, s: nat)
    requires n2 < s
    requires s <= 0x4000_0000 || (s == 0x8000_0000 && d0 % 0x8000_0000 == 0)
    requires d1 >= 0x8000_0000
    requires q * d1 <= n2 * 0x1_0000_0000 + n1
    ensures q * d0 <= Join(d1, d0)
  {
    MulMonotone(0x8000_0000, d1, q);
    if s == 0x8000_0000 {
      MulMonotone(d0, 0x8000_0000, q);
    } else {
      MulMonotone(d0, 0x1_0000_0000, q);
    }
  }

  lemma ShiftSizes(k: nat)
    requires k <= 31
    ensures Pow2(k) <= 0x4000_0000 || (k == 31 && Pow2(k) == 0x8000_0000)
  {
    Pow2Of32();
    if k < 31 { Pow2Monotone(k, 30); }
  }

  /** The corrected digit and remainder, in terms of the normalised operands. */
  lemma CorrectedDigit(d1: u32, d0: u32, n2: nat, n1: u32, n0: u32, q: u32, r: u32, k: nat)
    requires 1 <= k <= 31
    requires d1 >= 0x8000_0000 && d0 % Pow2(k) == 0
    requires n2 < Pow2(k)
    requires n2 * 0x1_0000_0000 + n1 == q * d1 + r && r < d1
    ensures var dd, nn := Join(d1, d0), (n2 * 0x1_0000_0000 + n1) * 0x1_0000_0000 + n0;
            var rest := Join(r, n0);
            && nn == q * dd + (rest - q * d0)
            && rest < dd
            && q * d0 - dd <= 0
  {
    hide Pow2;
    EstimateOvershootsByOne(d1, d0, n2, n1, q, k);
    QuotientTimesJoin(q, d1, d0);
  }

  lemma QuotientTimesJoin(q: u32, d1: u32, d0: u32)
    ensures q * Join(d1, d0) == q * d1 * 0x1_0000_0000 + q * d0
  {
    MulDistributes(d1 * 0x1_0000_0000, d0, q);
    MulAssociative(q, d1, 0x1_0000_0000);
  }

  /** A remainder of the shifted operands, shifted back. */
  lemma Denormalise(n: nat, d: nat, s: nat, q: nat, r: nat)
    requires s > 0 && d > 0
    requires n * s == q * (d * s) + r && r < d * s
    ensures n == q * d + r / s && r / s < d
  {
    var m: int := n - q * d;
    MulAssociative(q, d, s);
    MulDistributes(n, q * d, s);
    assert r == m * s;
    if m < 0 { MulMonotone(m, -1, s); }
    if m >= d { MulMonotone(d, m, s); }
    DivModUnique(r, s, m, 0);
  }

  /** Shifting a double word left by k, word by word, loses nothing but the
      bits that move into a third word. */
  lemma ShiftedWords(x1: u32, x0: u32, k: nat)
    requires 1 <= k <= 31
    ensures var top, mid := Shr(x1, 32 - k), BitOr(Shl32(x1, k), Shr(x0, 32 - k));
            && top < Pow2(k)
            && 0 <= mid < 0x1_0000_0000
            && Shl32(x0, k) % Pow2(k) == 0
            && Join(x1, x0) * Pow2(k) == (top * 0x1_0000_0000 + mid) * 0x1_0000_0000 + Shl32(x0, k)
  {
    ShiftedWord(x1, k);
    ShiftedWord(x0, k);
    OrIsSum(Shl32(x1, k), Shr(x0, 32 - k), k);
    JoinTimes(x1, x0, Pow2(k), Shr(x1, 32 - k), Shl32(x1, k), Shr(x0, 32 - k), Shl32(x0, k));
  }

  lemma JoinTimes(x1: u32, x0: u32, s: nat, a1: nat, b1: nat, a0: nat, b0: nat)
    requires x1 * s == a1 * 0x1_0000_0000 + b1 && x0 * s == a0 * 0x1_0000_0000 + b0
    ensures Join(x1, x0) * s == (a1 * 0x1_0000_0000 + (b1 + a0)) * 0x1_0000_0000 + b0
  {
    MulDistributes(x1 * 0x1_0000_0000, x0, s);
    MulAssociative(x1, 0x1_0000_0000, s);
  }

  lemma ShiftedWord(x: u32, k: nat)
    requires 1 <= k <= 31
    ensures Shr(x, 32 - k) < Pow2(k)
    ensures Shl32(x, k) % Pow2(k) == 0
    ensures Shl32(x, k) + Pow2(k) <= 0x1_0000_0000
    ensures x * Pow2(k) == Shr(x, 32 - k) * 0x1_0000_0000 + Shl32(x, k)
  {
    assert Pow2(k) * Pow2(32 - k) == 0x1_0000_0000 by { Pow2Of32(); Pow2Add(k, 32 - k); }
    SplitProduct(x, Pow2(k), Pow2(32 - k));
  }

  /** Shifting a double word right by k, word by word, divides by 2^k. */
  lemma ShiftedBack(x1: u32, x0: u32, k: nat)
    requires 1 <= k <= 31
    ensures var low := BitOr(Shl32(x1, 32 - k), Shr(x0, k));
            && 0 <= low < 0x1_0000_0000
            && Shr(x1, k) < 0x1_0000_0000
            && Join(Shr(x1, k), low) == Join(x1, x0) / Pow2(k)
  {
    var j := 32 - k;
    ShiftedWord(x1, j);
    ShiftedWord(x0, j);
    OrIsSum(Shl32(x1, j), Shr(x0, k), j);
    assert Pow2(j) * Pow2(k) == 0x1_0000_0000 by { Pow2Of32(); Pow2Add(j, k); }
    JoinQuotient(x1, x0, Pow2(k), Pow2(j), Shr(x1, k) * 0x1_0000_0000 + Shl32(x1, j));
  }

  lemma JoinQuotient(x1: u32, x0: u32, s: nat, t: nat, w: nat)
    requires s > 0 && t * s == 0x1_0000_0000 && x1 * t == w
    ensures Join(x1, x0) / s == w + x0 / s
  {
    var q, r := x0 / s, x0 % s;
    MulAssociative(x1, t, s);
    MulDistributes(w, q, s);
    DivModUnique(Join(x1, x0), s, w + q, r);
  }

  // ---- The routine ----

  /** The normalising shift of lines 327-333 on one operand: the bits shifted out
      of the two words go to a third. */
  method Normalise(x: u64, bm: nat) returns (x2: u32, x1: u32, x0: u32)
    requires 1 <= bm <= 31
    ensures x2 < Pow2(bm) && x0 % Pow2(bm) == 0
    ensures x * Pow2(bm) == (x2 * 0x1_0000_0000 + x1) * 0x1_0000_0000 + x0
  {
    hide Pow2, Shr, Shl32, BitOr;
    ShiftedWords(High(x), Low(x), bm);
    x2 := TopBits(High(x), bm);
    x1 := BitOr(Shl32(High(x), bm), Shr(Low(x), 32 - bm));
    x0 := Shl32(Low(x), bm);
  }

  /** The bits that a shift by k moves out of a word. */
  method TopBits(x: u32, k: nat) returns (t: u32)
    requires 1 <= k <= 31
    ensures t == Shr(x, 32 - k)
  {
    hide Pow2;
    DivNonNegative(x, Pow2(32 - k));
    t := Shr(x, 32 - k);
  }

  /** With exactly its leading zeros shifted out, the divisor fits two words and
      its top bit is set. */
  lemma NormalisedDivisor(d: u64, k: nat, d2: u32, d1: u32, d0: u32)
    requires 1 <= k <= 31
    requires High(d) * Pow2(k) < 0x1_0000_0000 <= 2 * (High(d) * Pow2(k))
    requires d * Pow2(k) == (d2 * 0x1_0000_0000 + d1) * 0x1_0000_0000 + d0
    ensures d2 == 0 && d1 >= 0x8000_0000
  {
    var s, t, h := Pow2(k), Pow2(32 - k), High(d);
    assert t * s == 0x1_0000_0000 by { Pow2Of32(); Pow2Add(32 - k, k); }
    assert h < t by { if h >= t { MulMonotone(t, h, s); } }
    ProductOfHigh(d, s, t);
  }

  /** A double word whose high word is below t stays a double word when multiplied
      by s, where s * t is the word base. */
  lemma ProductOfHigh(d: u64, s: nat, t: nat)
    requires High(d) < t && t * s == 0x1_0000_0000
    ensures (High(d) * s) * 0x1_0000_0000 <= d * s < TWO_64
  {
    var h := High(d);
    assert h * 0x1_0000_0000 <= d < t * 0x1_0000_0000;
    MulMonotone(h * 0x1_0000_0000, d, s);
    MulAssociative(h, 0x1_0000_0000, s);
    MulMonotone(d, t * 0x1_0000_0000 - 1, s);
    MulDistributes(t * 0x1_0000_0000, 1, s);
    MulAssociative(t, 0x1_0000_0000, s);
    assert s > 0;
  }

  /** Normalise, estimate one digit, correct it at most once: lines 322-354. */
  method DivideNormalised(n: u64, d: u64, bm: nat) returns (q: u32, r: u64)
    requires 1 <= bm <= 31
    requires High(d) * Pow2(bm) < 0x1_0000_0000 <= 2 * (High(d) * Pow2(bm))
    ensures n == q * d + r && r < d
  {
    var d2, d1, d0 := Normalise(d, bm);
    var n2, n1, n0 := Normalise(n, bm);
    NormalisedDivisor(d, bm, d2, d1, d0);
    q, n1, n0 := DigitAndRemainder(d1, d0, n2, n1, n0, bm);
    Denormalise(n, d, Pow2(bm), q, Join(n1, n0));
    ShiftedBack(n1, n0, bm);
    r := Join(Shr(n1, bm), BitOr(Shl32(n1, 32 - bm), Shr(n0, bm)));
  }

  /** One quotient digit of three words by two normalised words: lines 335-349. */
  method DigitAndRemainder(d1: u32, d0: u32, n2: u32, n1: u32, n0: u32, ghost k: nat)
    returns (q: u32, r1: u32, r0: u32)
    requires 1 <= k <= 31
    requires d1 >= 0x8000_0000 && d0 % Pow2(k) == 0
    requires n2 < Pow2(k)
    ensures (n2 * 0x1_0000_0000 + n1) * 0x1_0000_0000 + n0 == q * Join(d1, d0) + Join(r1, r0)
    ensures Join(r1, r0) < Join(d1, d0)
  {
    hide Pow2, Join, UdivQrnnd, UmulPpmm, SubDdmmss;
    BelowTopBit(n2, k);
    var qr := UdivQrnnd(n2, n1, d1);
    q, r1 := qr.0, qr.1;
    JoinIs(n2, n1);
    CorrectedDigit(d1, d0, n2, n1, n0, q, r1, k);
    var m := UmulPpmm(q, d0);
    JoinCompare(m.0, m.1, r1, n0);
    if m.0 > r1 || (m.0 == r1 && m.1 > n0) {
      OneLess(q, Join(d1, d0), d0);
      q := q - 1;
      m := SubDdmmss(m.0, m.1, d1, d0);
    }
    var s := SubDdmmss(r1, n0, m.0, m.1);
    r1, r0 := s.0, s.1;
  }

  lemma PowerZero()
    ensures Pow2(0) == 1
  {
  }

  lemma BelowTopBit(n: u32, k: nat)
    requires k <= 31 && n < Pow2(k)
    ensures n < 0x8000_0000
  {
    Pow2Of32();
    Pow2Monotone(k, 31);
  }

  lemma JoinIs(high: u32, low: u32)
    ensures Join(high, low) == high * 0x1_0000_0000 + low
  {
  }

  lemma JoinCompare(a1: u32, a0: u32, b1: u32, b0: u32)
    ensures Join(a1, a0) > Join(b1, b0) <==> a1 > b1 || (a1 == b1 && a0 > b0)
  {
  }

  lemma OneLess(q: u32, dd: int, d0: u32)
    requires q * d0 > 0
    ensures q > 0 && (q - 1) * dd == q * dd - dd
  {
    MulDistributes(q, 1, dd);
  }

  /** A divisor of two words: lines 275-355. */
  method DivideByTwoWords(n: u64, d: u64) returns (q: u32, r: u64)
    requires High(d) != 0
    ensures n == q * d + r && r < d
  {
    hide Pow2, CountLeadingZeros, SubDdmmss;
    var n1, n0, d1, d0 := High(n), Low(n), High(d), Low(d);
    if d1 > n1 {
      return 0, n;
    }
    var bm := CountLeadingZeros(d1);
    if bm == 0 {
      PowerZero();
      if n1 > d1 || n0 >= d0 {
        var s := SubDdmmss(n1, n0, d1, d0);
        q, r := 1, Join(s.0, s.1);
      } else {
        q, r := 0, Join(n1, n0);
      }
    } else {
      q, r := DivideNormalised(n, d, bm);
    }
  }

  /** A divisor of one word: schoolbook division of two digits by one. */
  method DivideByOneWord(n: u64, d: u32) returns (q: u64, r: u32)
    requires d != 0
    ensures n == q * d + r && r < d
  {
    var n1, n0 := High(n), Low(n);
    if d > n1 {
      var qr := UdivQrnnd(n1, n0, d);
      q, r := qr.0, qr.1;
    } else {
      var hi := UdivQrnnd(0, n1, d);
      var lo := UdivQrnnd(hi.1, n0, d);
      q, r := Join(hi.0, lo.0), lo.1;
      assert q * d == (hi.0 * d) * 0x1_0000_0000 + lo.0 * d;
    }
  }

  /** `__udivmoddi4`: for every numerator and every divisor but zero, the Euclidean
      quotient, and the remainder when it is asked for; no hardware divide on the
      way can fault. */
  method UDivMod(n: u64, d: u64, wantRemainder: bool) returns (res: Outcome)
    ensures d == 0 <==> res.Fault?
    ensures d != 0 ==> res.quotient == n / d
    ensures d != 0 ==> res.remainder == if wantRemainder then Some(n % d) else None
  {
    if d == 0 {
      return Fault;
    }
    var q: u64, r: u64;
    if High(d) == 0 {
      q, r := DivideByOneWord(n, Low(d));
    } else {
      q, r := DivideByTwoWords(n, d);
    }
    DivModUnique(n, d, q, r);
    res := Done(q, if wantRemainder then Some(r) else None);
  }

  // ---- Signed division ----

  function Unsigned(x: i64): u64 { if x < 0 then x + TWO_64 else x }

  /** Negation of a two's complement word. */
  function Negate(x: u64): u64 { if x == 0 then 0 else TWO_64 - x }

  /** The quotient rounded toward zero and its remainder, as section 6.5.5 of
      ISO/IEC 9899:2011 defines them. */
  predicate Truncated(u: int, v: int, q: int, r: int) {
    && u == q * v + r
    && Abs(r) < Abs(v)
    && (r == 0 || (r < 0) == (u < 0))
  }

  function Abs(x: int): nat { if x < 0 then -x else x }

  function WithSign(x: int, negative: bool): int { if negative then -x else x }

  function TruncQuotient(u: int, v: int): int
    requires v != 0
  {
    WithSign(Abs(u) / Abs(v), (u < 0) != (v < 0))
  }

  function TruncRemainder(u: int, v: int): int
    requires v != 0
  {
    if u < 0 then -(Abs(u) % Abs(v)) else Abs(u) % Abs(v)
  }

  lemma TruncatedExists(u: int, v: int)
    requires v != 0
    ensures Truncated(u, v, TruncQuotient(u, v), TruncRemainder(u, v))
  {
    assert Abs(u) == Abs(v) * (Abs(u) / Abs(v)) + Abs(u) % Abs(v);
  }

  /** Dividing magnitudes and fixing the signs is truncating division, and the only one. */
  lemma TruncatedIff(u: int, v: int, q: int, r: int)
    requires v != 0
    ensures Truncated(u, v, q, r) <==> q == TruncQuotient(u, v) && r == TruncRemainder(u, v)
  {
    hide TruncQuotient, TruncRemainder;
    TruncatedExists(u, v);
    if Truncated(u, v, q, r) {
      var q', r' := TruncQuotient(u, v), TruncRemainder(u, v);
      MulDistributes(q, q', v);
      SmallMultipleIsZero(q - q', v, r' - r);
    }
  }

  lemma SmallMultipleIsZero(e: int, v: int, x: int)
    requires e * v == x && Abs(x) < Abs(v)
    ensures e == 0 && x == 0
  {
    var a, b := Abs(e), Abs(v);
    assert a * b == Abs(x);
    if a >= 1 { MulMonotone(1, a, b); }
  }

  /** `__divdi3`: the quotient rounded toward zero, wrapped to 64 bits. */
  method DivDi3(u: i64, v: i64) returns (w: Option<i64>)
    ensures v == 0 <==> w.None?
    ensures v != 0 ==> Unsigned(w.value) == TruncQuotient(u, v) % TWO_64
  {
    var c := false;
    var uu, vv := Unsigned(u), Unsigned(v);
    if u < 0 { c := !c; uu := Negate(uu); }
    if v < 0 { c := !c; vv := Negate(vv); }
    assert uu == Abs(u) && vv == Abs(v);
    var res := UDivMod(uu, vv, false);
    if res.Fault? {
      return None;
    }
    SignFixed(res.quotient, c);
    w := Some(Signed64(if c then Negate(res.quotient) else res.quotient));
  }

  lemma SignFixed(q: u64, negative: bool)
    ensures Unsigned(Signed64(if negative then Negate(q) else q)) == WithSign(q, negative) % TWO_64
  {
  }

  /** `__moddi3`: the remainder with the sign of the numerator. It always fits. */
  method ModDi3(u: i64, v: i64) returns (w: Option<i64>)
    ensures v == 0 <==> w.None?
    ensures v != 0 ==> w.value == TruncRemainder(u, v)
  {
    var uu, vv := Unsigned(u), Unsigned(v);
    if u < 0 { uu := Negate(uu); }
    if v < 0 { vv := Negate(vv); }
    assert uu == Abs(u) && vv == Abs(v);
    var res := UDivMod(uu, vv, true);
    if res.Fault? {
      return None;
    }
    var r := res.remainder.value;
    TruncatedExists(u, v);
    w := Some(Signed64(if u < 0 then Negate(r) else r));
  }
}
