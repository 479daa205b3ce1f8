/** The 64-bit shift helpers of the TinyCC branch, built from 32-bit shifts.
    Right shifts are floor division for every operand and count. The left shift
    sign-extends the low word on the way, and the last lemmas say exactly which
    operands survive that. */
module Shifts {
  import opened Words
  import opened Division

  /** `>>` on a signed word: the sign bit is copied in. */
  function Sar32(x: u32, k: nat): u32
    requires k <= 31
  {
    SarRange(Signed32(x), k);
    (Signed32(x) / Pow2(k)) % 0x1_0000_0000
  }

  lemma SarRange(x: i32, k: nat)
    ensures -0x8000_0000 <= x / Pow2(k) < 0x8000_0000
  {
    hide Pow2;
    var p, q := Pow2(k), x / Pow2(k);
    assert x == q * p + x % p;
    if q >= 0x8000_0000 { MulMonotone(0x8000_0000, q, p); }
    if q < -0x8000_0000 { MulMonotone(q, -0x8000_0001, p); }
  }

  lemma SarIs(x: u32, k: nat)
    requires k <= 31
    ensures Sar32(x, k) == (Signed32(x) / Pow2(k)) % 0x1_0000_0000
  {
  }

  lemma WordSplit(k: nat)
    requires k <= 32
    ensures Pow2(32 - k) * Pow2(k) == 0x1_0000_0000
  {
    Pow2Of32();
    Pow2Add(32 - k, k);
  }

  /** Shifting by 32 or more, in one go or by a word and the rest. */
  lemma ShiftByWord(x: int, b: nat)
    requires b >= 32
    ensures x / Pow2(b) == (x / 0x1_0000_0000) / Pow2(b - 32)
  {
    Pow2Of32();
    Pow2Add(32, b - 32);
    var p, w := Pow2(b - 32), 0x1_0000_0000;
    var h := x / w;
    var q, r := h / p, h % p;
    assert h == q * p + r;
    assert x == h * w + x % w;
    MulDistributes(q * p, r, w);
    MulAssociative(q, p, w);
    MulMonotone(r, p - 1, w);
    MulDistributes(p, 1, w);
    DivModUnique(x, p * w, q, r * w + x % w);
  }

  /** `__shrdi3`: the unsigned shift divides by 2^b. */
  method ShrDi3(a: u64, b: int) returns (r: u64)
    requires 0 <= b < 64
    ensures r == a / Pow2(b)
  {
    var low, high := Low(a), High(a);
    if b >= 32 {
      ShiftByWord(a, b);
      low := ShrWord(high, b - 32);
      high := 0;
    } else if b != 0 {
      ShiftedBack(high, low, b);
      low := BitOr(Shr(low, b), Shl32(high, 32 - b));
      OrCommutes(Shr(Low(a), b), Shl32(high, 32 - b));
      high := Shr(high, b);
    }
    r := Join(high, low);
  }

  method ShrWord(x: u32, k: nat) returns (r: u32)
    ensures r == x / Pow2(k)
  {
    DivNonNegative(x, Pow2(k));
    r := Shr(x, k);
  }

  lemma {:induction false} OrCommutes(a: nat, b: nat)
    ensures BitOr(a, b) == BitOr(b, a)
  {
    if a != 0 || b != 0 { OrCommutes(a / 2, b / 2); }
  }

  /** The signed quotient, in terms of the unsigned one. */
  lemma SignedShift(x: int, m: nat, p: nat)
    requires p > 0 && m % p == 0
    ensures (x - m) / p == x / p - m / p
  {
    var k := m / p;
    assert m == k * p;
    MulDistributes(x / p, k, p);
    DivModUnique(x - m, p, x / p - k, x % p);
  }

  lemma Pow2Divides(j: nat, k: nat)
    requires j <= k
    ensures Pow2(k) % Pow2(j) == 0 && Pow2(k) / Pow2(j) == Pow2(k - j)
  {
    Pow2Add(k - j, j);
    DivModUnique(Pow2(k), Pow2(j), Pow2(k - j), 0);
  }

  /** `__sardi3`: the signed shift divides by 2^b and rounds down. */
  method SarDi3(a: i64, b: int) returns (r: i64)
    requires 0 <= b < 64
    ensures r == a / Pow2(b)
  {
    var low, high := Low(Unsigned(a)), High(Unsigned(a));
    if b >= 32 {
      SarByWord(a, b);
      low, high := Sar32(high, b - 32), Sar32(high, 31);
    } else if b != 0 {
      SarBelowWord(a, b);
      low, high := BitOr(Shr(low, b), Shl32(high, 32 - b)), Sar32(high, b);
    }
    r := Signed64(Join(high, low));
  }

  /** A double word whose high word is the image of a signed number. */
  lemma SignedJoin(h: i32, l: u32)
    ensures Signed64(Join(h % 0x1_0000_0000, l)) == h * 0x1_0000_0000 + l
  {
  }

  lemma SarByWord(a: i64, b: nat)
    requires 32 <= b < 64
    ensures var high := High(Unsigned(a));
            Signed64(Join(Sar32(high, 31), Sar32(high, b - 32))) == a / Pow2(b)
  {
    hide Pow2, Sar32;
    var h := Signed32(High(Unsigned(a)));
    assert h == a / 0x1_0000_0000;
    ShiftByWord(a, b);
    SarIs(High(Unsigned(a)), b - 32);
    SarIs(High(Unsigned(a)), 31);
    SarRange(h, b - 32);
    SarSign(h, b - 32);
    SignFill(h);
    SignExtended(h / Pow2(b - 32), h / Pow2(31));
  }

  lemma SignFill(h: i32)
    ensures h / Pow2(31) == if h < 0 then -1 else 0
  {
    Pow2Of32();
    DivModUnique(h, 0x8000_0000, if h < 0 then -1 else 0, if h < 0 then h + 0x8000_0000 else h);
  }

  lemma SignExtended(x: i32, fill: int)
    requires fill == if x < 0 then -1 else 0
    ensures Signed64(Join(fill % 0x1_0000_0000, x % 0x1_0000_0000)) == x
  {
  }

  lemma SarSign(x: i32, k: nat)
    requires k <= 31
    ensures x >= 0 ==> x / Pow2(k) >= 0
    ensures x < 0 ==> x / Pow2(k) < 0
  {
    hide Pow2;
    QuotientSign(x, Pow2(k));
  }

  lemma QuotientSign(x: int, p: nat)
    requires p > 0
    ensures x >= 0 <==> x / p >= 0
  {
    var q, r := x / p, x % p;
    assert x == q * p + r;
    if q < 0 {
      MulMonotone(q, -1, p);
    } else {
      MulMonotone(0, q, p);
    }
  }

  lemma SarBelowWord(a: i64, b: nat)
    requires 1 <= b <= 31
    ensures var low, high := Low(Unsigned(a)), High(Unsigned(a));
            var l := BitOr(Shr(low, b), Shl32(high, 32 - b));
            0 <= l < 0x1_0000_0000 && Signed64(Join(Sar32(high, b), l)) == a / Pow2(b)
  {
    var u := Unsigned(a);
    var low, high := Low(u), High(u);
    ShiftedBack(high, low, b);
    OrCommutes(Shr(low, b), Shl32(high, 32 - b));
    SarRange(Signed32(high), b);
    SignedJoin(Signed32(high) / Pow2(b), BitOr(Shr(low, b), Shl32(high, 32 - b)));
    SignedQuotients(a, b);
  }

  /** Reading an operand as signed lowers its quotient by the same power of two,
      whether it is the high word or the whole double word. */
  lemma SignedQuotients(a: i64, b: nat)
    requires 1 <= b <= 31
    ensures var u := Unsigned(a);
            (u / Pow2(b)) - (a / Pow2(b))
              == (High(u) / Pow2(b) - Signed32(High(u)) / Pow2(b)) * 0x1_0000_0000
  {
    var u := Unsigned(a);
    if a < 0 {
      Pow2Of64();
      Pow2Of32();
      Pow2Divides(b, 64);
      Pow2Divides(b, 32);
      Pow2Add(32 - b, 32);
      SignedShift(u, Pow2(64), Pow2(b));
      SignedShift(High(u), Pow2(32), Pow2(b));
    }
  }

  // ---- The left shift ----

  /** The operands on which sign-extending the low word does no harm. */
  predicate ShiftsLeftCleanly(a: u64, b: nat)
    requires b < 64
  {
    || b == 0 || b >= 32
    || Low(a) < 0x8000_0000
    || High(a) % Pow2(32 - b) == Pow2(32 - b) - 1
  }

  /** `__shldi3`: a left shift modulo 2^64 if, and only if, the sign bit of the low
      word is clear or the bits it would overwrite are already ones. */
  method ShlDi3(a: u64, b: int) returns (r: u64)
    requires 0 <= b < 64
    ensures r == (a * Pow2(b)) % TWO_64 <==> ShiftsLeftCleanly(a, b)
  {
    var low, high := Low(a), High(a);
    if b >= 32 {
      ShlByWord(a, b);
      high := Shl32(low, b - 32);
      low := 0;
    } else if b != 0 {
      ShlBelowWord(a, b);
      high := BitOr(Shl32(high, b), Sar32(low, 32 - b));
      low := Shl32(low, b);
    }
    r := Join(high, low);
  }

  lemma ShlByWord(a: u64, b: nat)
    requires 32 <= b < 64
    ensures Join(Shl32(Low(a), b - 32), 0) == (a * Pow2(b)) % TWO_64
  {
    assert Pow2(b) == Pow2(b - 32) * 0x1_0000_0000 by { Pow2Of32(); Pow2Add(b - 32, 32); }
    MulAssociative(a, Pow2(b - 32), 0x1_0000_0000);
    LowTimes(a, Pow2(b - 32));
  }

  lemma LowTimes(a: u64, p: nat)
    ensures ((a * p) * 0x1_0000_0000) % TWO_64 == ((Low(a) * p) % 0x1_0000_0000) * 0x1_0000_0000
  {
    var q, s := (Low(a) * p) / 0x1_0000_0000, (Low(a) * p) % 0x1_0000_0000;
    MulDistributes(High(a) * 0x1_0000_0000, Low(a), p);
    MulAssociative(High(a), 0x1_0000_0000, p);
    DivModUnique((a * p) * 0x1_0000_0000, TWO_64, High(a) * p + q, s * 0x1_0000_0000);
  }

  /** What the branch for 0 < b < 32 computes. */
  lemma ShlBelowWord(a: u64, b: nat)
    requires 1 <= b <= 31
    ensures var h := BitOr(Shl32(High(a), b), Sar32(Low(a), 32 - b));
            && 0 <= h < 0x1_0000_0000
            && (Join(h, Shl32(Low(a), b)) == (a * Pow2(b)) % TWO_64 <==> ShiftsLeftCleanly(a, b))
  {
    ShlExact(a, b);
    ShlHighWord(High(a), Low(a), b);
    HighBitsAllOnes(High(a), b);
  }

  /** The true shift, word by word. */
  lemma ShlExact(a: u64, b: nat)
    requires 1 <= b <= 31
    ensures var h := Shl32(High(a), b) + Shr(Low(a), 32 - b);
            h < 0x1_0000_0000 && Join(h, Shl32(Low(a), b)) == (a * Pow2(b)) % TWO_64
  {
    ShiftedWords(High(a), Low(a), b);
    ShiftedWord(High(a), b);
    ShiftedWord(Low(a), b);
    var h := Shl32(High(a), b) + Shr(Low(a), 32 - b);
    OrIsSum(Shl32(High(a), b), Shr(Low(a), 32 - b), b);
    DivModUnique(a * Pow2(b), TWO_64, Shr(High(a), 32 - b), Join(h, Shl32(Low(a), b)));
  }

  /** The high word the code computes. */
  lemma ShlHighWord(high: u32, low: u32, b: nat)
    requires 1 <= b <= 31
    ensures BitOr(Shl32(high, b), Sar32(low, 32 - b))
         == Shr(low, 32 - b) + (if low < 0x8000_0000 then Shl32(high, b) else 0x1_0000_0000 - Pow2(b))
    ensures Shr(low, 32 - b) < Pow2(b)
  {
    hide Pow2, BitOr, Shl32, Shr, Sar32;
    ShiftedWord(high, b);
    ShiftedWord(low, b);
    SarWord(low, 32 - b);
    if low < 0x8000_0000 {
      OrIsSum(Shl32(high, b), Shr(low, 32 - b), b);
    } else {
      OrHighOnes(Shl32(high, b), Shr(low, 32 - b), b);
    }
  }

  /** The arithmetic shift of a word: the plain quotient, below copies of the sign bit. */
  lemma SarWord(x: u32, k: nat)
    requires 1 <= k <= 31
    ensures Pow2(32 - k) <= 0x1_0000_0000
    ensures Sar32(x, k) == Shr(x, k) + (if x < 0x8000_0000 then 0 else 0x1_0000_0000 - Pow2(32 - k))
  {
    hide Pow2;
    SarRange(Signed32(x), k);
    SarSign(Signed32(x), k);
    Pow2Of32();
    Pow2Monotone(32 - k, 32);
    if x >= 0x8000_0000 {
      Pow2Divides(k, 32);
      SignedShift(x, 0x1_0000_0000, Pow2(k));
    }
    WordOfQuotient(Signed32(x) / Pow2(k));
  }

  lemma WordOfQuotient(q: int)
    requires -0x8000_0000 <= q < 0x8000_0000
    ensures q % 0x1_0000_0000 == if q < 0 then q + 0x1_0000_0000 else q
  {
  }

  /** The bits kept by the shift are all ones exactly when the shifted word is as
      large as a multiple of 2^b below 2^32 can be. */
  lemma HighBitsAllOnes(high: u32, b: nat)
    requires 1 <= b <= 31
    ensures Shl32(high, b) == 0x1_0000_0000 - Pow2(b)
       <==> high % Pow2(32 - b) == Pow2(32 - b) - 1
  {
    hide Pow2;
    var s, t := Pow2(b), Pow2(32 - b);
    WordSplit(b);
    SplitProduct(high, s, t);
    var l := high % t;
    MulDistributes(t, 1, s);
    if l < t - 1 {
      MulMonotone(l, t - 2, s);
      MulDistributes(t, 2, s);
    }
  }

  /** Or-ing with ones above bit b wipes out whatever was there. */
  lemma OrHighOnes(x: u32, c: nat, b: nat)
    requires 1 <= b <= 31 && x % Pow2(b) == 0 && c < Pow2(b) <= 0x1_0000_0000
    ensures BitOr(x, c + (0x1_0000_0000 - Pow2(b))) == c + (0x1_0000_0000 - Pow2(b))
  {
    Pow2Of32();
    OrHighOnesAt(x, c, b, 32);
  }

  lemma {:induction false} OrAllOnes(x: nat, w: nat)
    requires x < Pow2(w)
    ensures BitOr(x, Pow2(w) - 1) == Pow2(w) - 1
  {
    if w > 0 {
      var p := Pow2(w - 1);
      assert Pow2(w) - 1 == 2 * (p - 1) + 1;
      OrAllOnes(x / 2, w - 1);
      OrOdd(x, p - 1);
    }
  }

  lemma {:induction false} OrHighOnesAt(x: nat, c: nat, b: nat, w: nat)
    requires b <= w && x < Pow2(w) && x % Pow2(b) == 0 && c < Pow2(b) <= Pow2(w)
    ensures BitOr(x, c + (Pow2(w) - Pow2(b))) == c + (Pow2(w) - Pow2(b))
  {
    if b == 0 {
      OrAllOnes(x, w);
    } else {
      EvenMultiple(x, Pow2(b - 1));
      Pow2Monotone(b - 1, w - 1);
      var y := c / 2 + (Pow2(w - 1) - Pow2(b - 1));
      OrHighOnesAt(x / 2, c / 2, b - 1, w - 1);
      assert c + (Pow2(w) - Pow2(b)) == 2 * y + c % 2;
      OrHalves(x, y, c % 2);
    }
  }

  lemma EvenMultiple(x: nat, h: nat)
    requires h > 0 && x % (2 * h) == 0
    ensures x % 2 == 0 && (x / 2) % h == 0
  {
    HalveFirst(x, h);
  }

  lemma OrHalves(x: nat, y: nat, low: nat)
    requires x % 2 == 0 && low < 2 && BitOr(x / 2, y) == y
    ensures BitOr(x, 2 * y + low) == 2 * y + low
  {
    hide BitOr;
    DivModUnique(2 * y + low, 2, y, low);
    OrEven(x, 2 * y + low);
  }

  lemma OrOdd(x: nat, y: nat)
    ensures BitOr(x, 2 * y + 1) == 2 * BitOr(x / 2, y) + 1
  {
  }

  lemma OrEven(x: nat, y: nat)
    requires x % 2 == 0
    ensures BitOr(x, y) == 2 * BitOr(x / 2, y / 2) + y % 2
  {
  }

  /** The smallest shift that goes wrong: 2^31 shifted left by one. */
  lemma LeftShiftCounterexample()
    ensures !ShiftsLeftCleanly(0x8000_0000, 1)
  {
    Pow2Of32();
  }
}
