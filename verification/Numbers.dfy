/** Integers as text: the digit conversion and padding of the printf family, and the
    strtoul family that reads them back. Strings are without their NUL. */
module Numbers {
  import opened Words

  type Text = seq<byte>

  const PR_BUFLEN := 32
  const MINUS: byte := 45
  const PLUS: byte := 43
  const SPACE: byte := 32
  const ZERO: byte := 48

  // ---- Digits ----

  function DigitChar(v: int, upper: bool): byte
    requires 0 <= v < 16
  {
    if v < 10 then 48 + v else if upper then v - 10 + 65 else v - 10 + 97
  }

  predicate Radix(r: int) { r == 8 || r == 10 || r == 16 }

  function Digits(n: nat, radix: int, upper: bool): (t: Text)
    requires Radix(radix)
    ensures |t| > 0
  {
    if n < radix then [DigitChar(n, upper)]
    else Digits(n / radix, radix, upper) + [DigitChar(n % radix, upper)]
  }

  function Power(b: nat, e: nat): nat { if e == 0 then 1 else b * Power(b, e - 1) }

  lemma PowerOne()
    ensures Power(8, 1) == 8
  {
    assert Power(8, 1) == 8 * Power(8, 0);
  }

  lemma {:induction false} DigitsCount(n: nat, radix: int, upper: bool, k: nat)
    requires Radix(radix) && k > 0 && n < Power(8, k)
    ensures |Digits(n, radix, upper)| <= k
    decreases k
  {
    if n >= radix {
      PowerOne();
      DigitsCount(n / radix, radix, upper, k - 1);
    }
  }

  lemma Power22()
    ensures Power(8, 22) == 4 * TWO_64
  {
    assert Power(8, 4) == 4096;
    PowerAdd(4, 4);
    PowerAdd(8, 8);
    PowerAdd(16, 4);
    PowerAdd(20, 2);
    assert Power(8, 2) == 64;
  }

  lemma {:induction false} PowerAdd(j: nat, k: nat)
    ensures Power(8, j + k) == Power(8, j) * Power(8, k)
  {
    if j > 0 {
      PowerAdd(j - 1, k);
      MulAssociative(8, Power(8, j - 1), Power(8, k));
    }
  }

  /** No 64-bit number has more than 22 digits in any radix used. */
  lemma AtMost22Digits(n: u64, radix: int, upper: bool)
    requires Radix(radix)
    ensures |Digits(n, radix, upper)| <= 22
  {
    Power22();
    DigitsCount(n, radix, upper, 22);
  }

  lemma DigitsSplit(n: nat, radix: int, upper: bool, done: Text)
    requires Radix(radix)
    ensures var next := [DigitChar(n % radix, upper)] + done;
            Digits(n, radix, upper) + done
            == (if n / radix == 0 then next else Digits(n / radix, radix, upper) + next)
  {
    if n >= radix {
      assert Digits(n / radix, radix, upper) + [DigitChar(n % radix, upper)] + done
          == Digits(n / radix, radix, upper) + ([DigitChar(n % radix, upper)] + done);
    }
  }

  method PutDigit(buf: array<byte>, pos: nat, c: byte)
    requires buf.Length == PR_BUFLEN && pos < PR_BUFLEN - 1
    modifies buf
    ensures buf[pos..PR_BUFLEN - 1] == [c] + old(buf[pos + 1..PR_BUFLEN - 1])
    ensures buf[PR_BUFLEN - 1] == old(buf[PR_BUFLEN - 1])
  {
    buf[pos] := c;
  }

  /** The conversion loop: digits are laid down from the end of a 32-byte buffer that
      they never run out of. */
  method Convert(num: u64, radix: int, upper: bool) returns (buf: array<byte>, pos: nat)
    requires Radix(radix)
    ensures fresh(buf) && buf.Length == PR_BUFLEN && buf[PR_BUFLEN - 1] == 0
    ensures 9 <= pos < PR_BUFLEN - 1 && buf[pos..PR_BUFLEN - 1] == Digits(num, radix, upper)
  {
    hide Digits, DigitChar;
    buf := new byte[PR_BUFLEN](_ => 0);
    pos := PR_BUFLEN - 1;
    var n: nat := num;
    AtMost22Digits(num, radix, upper);
    var more := true;
    while more
      invariant 9 <= pos <= PR_BUFLEN - 1 && buf[PR_BUFLEN - 1] == 0
      invariant more ==> Digits(n, radix, upper) + buf[pos..PR_BUFLEN - 1] == Digits(num, radix, upper)
      invariant !more ==> pos < PR_BUFLEN - 1 && buf[pos..PR_BUFLEN - 1] == Digits(num, radix, upper)
      decreases more, n
    {
      ghost var done := buf[pos..PR_BUFLEN - 1];
      DigitsSplit(n, radix, upper, done);
      pos := pos - 1;
      PutDigit(buf, pos, DigitChar(n % radix, upper));
      n := n / radix;
      more := n != 0;
    }
  }

  // ---- Fields ----

  function Repeat(c: byte, n: int): (t: Text)
    ensures |t| == (if n < 0 then 0 else n) && forall i :: 0 <= i < |t| ==> t[i] == c
  {
    seq(if n < 0 then 0 else n, _ => c)
  }

  /** A field: `body` with its sign, padded to the width on one side. */
  function Field(left: bool, zeros: bool, width: int, negative: bool, size: int, body: Text): Text {
    var sign := if negative then [MINUS] else [];
    if left then sign + body + Repeat(SPACE, width - size)
    else if zeros then sign + Repeat(ZERO, width - size) + body
    else Repeat(SPACE, width - size) + sign + body
  }

  /** The digits to print for a signed value; the negation of the least long is itself. */
  function Magnitude(v: int): u64 {
    if v < 0 then (-v) % 0x1_0000_0000_0000_0000 else v % 0x1_0000_0000_0000_0000
  }

  /** What %ld, %lu, %lx and the like print. */
  function Number(num: u64, negative: bool, radix: int, upper: bool, left: bool, zeros: bool, width: int): Text
    requires Radix(radix)
  {
    var d := Digits(num, radix, upper);
    Field(left, zeros, width, negative, |d| + (if negative then 1 else 0), d)
  }

  // ---- Reading ----

  /** The first character, NUL for the empty string. */
  function First(t: Text): byte { if t == [] then 0 else t[0] }

  /** `is_digit_base`, with -1 for no digit. */
  function DigitValue(c: byte, base: int): (v: int)
    ensures v == -1 || 0 <= v < base
  {
    var v := if 48 <= c <= 57 then c - 48
             else if 97 <= c <= 122 then c - 97 + 10
             else if 65 <= c <= 90 then c - 65 + 10
             else -1;
    if v < base then v else -1
  }

  predicate IsSpace(c: byte) { c == 32 || 9 <= c <= 13 }

  function SkipSpaces(t: Text): (u: Text)
    ensures |u| <= |t| && u == t[|t| - |u|..]
  {
    if IsSpace(First(t)) then SkipSpaces(t[1..]) else t
  }

  /** One more digit. */
  function Push(acc: nat, base: nat, v: nat): nat { acc * base + v }

  function Wrap(v: int): u64 { v % 0x1_0000_0000_0000_0000 }

  /** The number spelt by the leading digits, on top of `acc`. */
  function Horner(t: Text, base: int, acc: nat): nat
    decreases |t|
  {
    var v := DigitValue(First(t), base);
    if t != [] && v >= 0 then Horner(t[1..], base, Push(acc, base, v)) else acc
  }

  function DigitRun(t: Text, base: int): (n: nat)
    ensures n <= |t|
  {
    if t != [] && DigitValue(t[0], base) >= 0 then 1 + DigitRun(t[1..], base) else 0
  }

  predicate Signed(t: Text) { First(t) == PLUS || First(t) == MINUS }

  function AfterSign(t: Text): Text { if Signed(t) then t[1..] else t }

  predicate HexPrefix(t: Text) { |t| >= 2 && t[0] == ZERO && (t[1] == 120 || t[1] == 88) }

  function BaseOf(t: Text, base: int): int {
    if base != 0 then base else if HexPrefix(t) then 16 else if First(t) == ZERO then 8 else 10
  }

  function AfterPrefix(t: Text, base: int): (u: Text)
    ensures |u| <= |t|
  {
    if (base == 0 || base == 16) && HexPrefix(t) then t[2..] else t
  }

  /** What `strtoul` makes of a string: blanks, a sign, a prefix and digits are taken as far as
      they go, and the value is reduced to 64 bits. */
  function ParseUnsigned(t: Text, base: int): (u64, nat) {
    var u := SkipSpaces(t);
    var v := AfterSign(u);
    var w := AfterPrefix(v, base);
    var b := BaseOf(v, base);
    (Negated(Horner(w, b, 0), First(u) == MINUS), |t| - |w| + DigitRun(w, b))
  }

  function Negated(v: int, negative: bool): u64 {
    if negative then Wrap(-v) else Wrap(v)
  }

  lemma PushWraps(acc: nat, base: nat, v: nat)
    ensures Wrap(Push(Wrap(acc), base, v)) == Wrap(Push(acc, base, v))
  {
    var m := 0x1_0000_0000_0000_0000;
    var q, r := acc / m, Wrap(acc);
    WrapAddMultiple(q * base, r * base + v);
    MulDistributes(q * m, r, base);
    SwapFactors(q, m, base);
  }

  lemma SwapFactors(a: int, b: int, c: int)
    ensures a * b * c == a * c * b
  {
    MulAssociative(a, b, c);
    MulAssociative(a, c, b);
  }

  lemma WrapAddMultiple(k: nat, x: nat)
    ensures Wrap(k * 0x1_0000_0000_0000_0000 + x) == Wrap(x)
  {
  }

  /** Reducing the accumulator at every digit changes nothing but the final reduction. */
  lemma {:induction false} HornerWraps(t: Text, base: int, acc: nat)
    ensures Wrap(Horner(t, base, Wrap(acc))) == Wrap(Horner(t, base, acc))
    decreases |t|
  {
    hide Wrap, Push;
    var v := DigitValue(First(t), base);
    if t != [] && v >= 0 {
      PushWraps(acc, base, v);
      HornerWraps(t[1..], base, Push(Wrap(acc), base, v));
      HornerWraps(t[1..], base, Push(acc, base, v));
    } else {
      WrapTwice(acc);
    }
  }

  lemma WrapTwice(v: int)
    ensures Wrap(Wrap(v)) == Wrap(v)
  {
  }

  method StrToUl(t: Text, base0: int) returns (r: u64, end: nat)
    ensures (r, end) == ParseUnsigned(t, base0)
  {
    hide Horner, DigitRun, SkipSpaces, AfterPrefix, BaseOf, Wrap;
    var s := SkipBlanks(t);
    var neg := false;
    if First(s) == PLUS || First(s) == MINUS {
      neg := First(s) == MINUS;
      s := s[1..];
    }
    var base;
    s, base := TakePrefix(s, base0);
    var acc, rest := ReadDigits(s, base);
    end := |t| - |rest|;
    r := if neg then Negated(acc, true) else acc;
    WrapNegated(Horner(s, base, 0));
  }

  method SkipBlanks(t: Text) returns (s: Text)
    ensures s == SkipSpaces(t)
  {
    s := t;
    while IsSpace(First(s))
      invariant SkipSpaces(s) == SkipSpaces(t)
      decreases |s|
    {
      s := s[1..];
    }
  }

  method TakePrefix(t: Text, base0: int) returns (s: Text, base: int)
    ensures s == AfterPrefix(t, base0) && base == BaseOf(t, base0)
  {
    s, base := t, base0;
    if base == 0 {
      if HexPrefix(s) {
        base, s := 16, s[2..];
      } else if First(s) == ZERO {
        base := 8;
      } else {
        base := 10;
      }
    } else if base == 16 && HexPrefix(s) {
      s := s[2..];
    }
  }

  method ReadDigits(t: Text, base: int) returns (acc: u64, rest: Text)
    ensures acc == Wrap(Horner(t, base, 0))
    ensures rest == t[DigitRun(t, base)..]
  {
    hide Wrap, Push;
    acc, rest := 0, t;
    WrapZero();
    var v := DigitValue(First(rest), base);
    while rest != [] && v >= 0
      invariant v == DigitValue(First(rest), base)
      invariant Wrap(Horner(rest, base, acc)) == Wrap(Horner(t, base, 0)) && acc == Wrap(acc)
      invariant |t| - |rest| + DigitRun(rest, base) == DigitRun(t, base)
      invariant |rest| <= |t| && rest == t[|t| - |rest|..]
    {
      HornerWraps(rest[1..], base, Push(acc, base, v));
      WrapTwice(Push(acc, base, v));
      acc := Wrap(Push(acc, base, v));
      rest := rest[1..];
      v := DigitValue(First(rest), base);
    }
  }

  lemma WrapZero()
    ensures Wrap(0) == 0
  {
  }

  lemma WrapNegated(v: int)
    ensures Negated(Wrap(v), true) == Negated(v, true) && Negated(v, false) == Wrap(v)
  {
    var m := 0x1_0000_0000_0000_0000;
    var q, r := v / m, v % m;
    var rest := if r == 0 then 0 else m - r;
    DivModUnique(-v, m, if r == 0 then -q else -q - 1, rest);
    DivModUnique(-r, m, if r == 0 then 0 else -1, rest);
  }

  // ---- What the C standard asks ----

  /** A prefix is one only before a digit: section 7.22.1.4 of ISO/IEC 9899:2011. */
  predicate HexNumber(t: Text) { HexPrefix(t) && |t| > 2 && DigitValue(t[2], 16) >= 0 }

  /** What there is to convert; without digits nothing is, and the end is the start. */
  datatype Reading = Reading(value: int, end: nat)

  function StandardReading(t: Text, base: int): Reading {
    var u := SkipSpaces(t);
    var v := AfterSign(u);
    var hex := (base == 0 || base == 16) && HexNumber(v);
    var b := if base != 0 then base else if hex then 16 else if First(v) == ZERO then 8 else 10;
    var w := if hex then v[2..] else v;
    var n := DigitRun(w, b);
    if n == 0 then Reading(0, 0)
    else Reading(WithSign(Horner(w, b, 0), First(u) == MINUS), |t| - |w| + n)
  }

  function WithSign(m: int, negative: bool): int { if negative then -m else m }

  /** The value of `strtoul`: what does not fit becomes the greatest unsigned long. */
  function StandardUnsigned(t: Text, base: int): u64 {
    var m := StandardReading(t, base).value;
    if -TWO_64 < m < TWO_64 then Wrap(m) else TWO_64 - 1
  }

  /** The value of `strtol`: what does not fit becomes the least or the greatest long. */
  function StandardSigned(t: Text, base: int): i64 {
    var m := StandardReading(t, base).value;
    if m < -TWO_63 then -TWO_63 else if m >= TWO_63 then TWO_63 - 1 else m
  }

  /** The digits `strtoul` finds. */
  function DigitsFound(t: Text, base: int): nat {
    var v := AfterSign(SkipSpaces(t));
    DigitRun(AfterPrefix(v, base), BaseOf(v, base))
  }

  predicate LegalBase(base: int) { base == 0 || 2 <= base <= 36 }

  lemma NoDigitsNoValue(t: Text, base: int)
    ensures DigitRun(t, base) == 0 ==> Horner(t, base, 0) == 0
  {
  }

  /** A prefix that the code takes and the standard does not: a lone zero to the standard. */
  lemma LonePrefix(v: Text, b: int)
    requires HexPrefix(v) && !HexNumber(v) && (b == 8 || b == 16)
    ensures DigitRun(v[2..], 16) == 0 && DigitRun(v, b) == 1 && Horner(v, b, 0) == 0
  {
    assert DigitValue(v[0], b) == 0 && DigitValue(v[1], b) == -1;
    assert DigitRun(v[1..], b) == 0;
    assert Horner(v, b, 0) == Horner(v[1..], b, Push(0, b, 0));
  }

  /** Code and standard, side by side. */
  lemma SideBySide(t: Text, base: int)
    requires LegalBase(base)
    ensures var u := SkipSpaces(t);
            var v := AfterSign(u);
            var (value, end) := ParseUnsigned(t, base);
            var std := StandardReading(t, base);
            && value == Wrap(std.value)
            && (DigitsFound(t, base) > 0 ==> end == std.end)
            && (DigitsFound(t, base) == 0 && (base == 0 || base == 16) && HexPrefix(v) ==> end == std.end + 1 > 0)
            && (DigitsFound(t, base) == 0 && !((base == 0 || base == 16) && HexPrefix(v)) ==>
                  end == |t| - |v| && std.end == 0)
  {
    hide SkipSpaces, Horner, DigitRun, Wrap, HexPrefix, DigitValue;
    var u := SkipSpaces(t);
    var v := AfterSign(u);
    var taken := (base == 0 || base == 16) && HexPrefix(v);
    WrapZero();
    NoDigitsNoValue(AfterPrefix(v, base), BaseOf(v, base));
    if taken {
      PrefixFirst(v);
      if !HexNumber(v) {
        LonePrefix(v, if base == 0 then 8 else 16);
      } else {
        FirstDigit(v[2..], 16);
      }
    }
  }

  lemma PrefixFirst(v: Text)
    requires HexPrefix(v)
    ensures |v| >= 2 && First(v) == ZERO
  {
  }

  lemma FirstDigit(t: Text, base: int)
    requires t != [] && DigitValue(t[0], base) >= 0
    ensures DigitRun(t, base) > 0
  {
  }

  /** The end is where the standard has it if and only if there are digits, or neither blanks, sign
      nor prefix to step over. */
  lemma EndAgreesIff(t: Text, base: int)
    requires LegalBase(base)
    ensures var v := AfterSign(SkipSpaces(t));
            ParseUnsigned(t, base).1 == StandardReading(t, base).end <==>
              DigitsFound(t, base) > 0 || (|v| == |t| && !((base == 0 || base == 16) && HexPrefix(v)))
  {
    hide ParseUnsigned, StandardReading, DigitsFound, HexPrefix;
    SideBySide(t, base);
  }

  /** The value of `strtoul` is the standard's if and only if the number fits, or happens to leave
      the greatest remainder. */
  lemma UnsignedAgreesIff(t: Text, base: int)
    requires LegalBase(base)
    ensures var m := StandardReading(t, base).value;
            ParseUnsigned(t, base).0 == StandardUnsigned(t, base) <==>
              -TWO_64 < m < TWO_64 || m % TWO_64 == TWO_64 - 1
  {
    hide ParseUnsigned, StandardReading, DigitsFound, HexPrefix;
    SideBySide(t, base);
  }

  lemma SignedOfWrapped(m: int)
    ensures -TWO_63 <= m < TWO_63 ==> Signed64(Wrap(m)) == m
    ensures Signed64(Wrap(m)) == TWO_63 - 1 <==> m % TWO_64 == TWO_63 - 1
    ensures Signed64(Wrap(m)) == -TWO_63 <==> m % TWO_64 == TWO_63
  {
  }

  /** And that of `strtol` likewise. */
  lemma SignedAgreesIff(t: Text, base: int)
    requires LegalBase(base)
    ensures var m := StandardReading(t, base).value;
            Signed64(ParseUnsigned(t, base).0) == StandardSigned(t, base) <==>
              -TWO_63 <= m < TWO_63 || m % TWO_64 == (if m < 0 then TWO_63 else TWO_63 - 1)
  {
    hide ParseUnsigned, StandardReading, DigitsFound, HexPrefix, Wrap, Signed64;
    SideBySide(t, base);
    SignedOfWrapped(StandardReading(t, base).value);
  }

  // ---- Round trip ----

  predicate AllDigits(t: Text, base: int) { forall i :: 0 <= i < |t| ==> DigitValue(t[i], base) >= 0 }

  lemma {:induction false} HornerConcat(t: Text, w: Text, base: int, acc: nat)
    requires AllDigits(t, base)
    ensures Horner(t + w, base, acc) == Horner(w, base, Horner(t, base, acc))
    ensures DigitRun(t + w, base) == |t| + DigitRun(w, base)
    decreases |t|
  {
    if t == [] {
      assert t + w == w;
    } else {
      assert (t + w)[1..] == t[1..] + w;
      assert DigitValue(t[0], base) >= 0;
      HornerConcat(t[1..], w, base, Push(acc, base, DigitValue(t[0], base)));
    }
  }

  lemma {:induction false} DigitsSpell(n: nat, radix: int, upper: bool)
    requires Radix(radix)
    ensures AllDigits(Digits(n, radix, upper), radix)
    ensures Horner(Digits(n, radix, upper), radix, 0) == n
    decreases n
  {
    hide Push, DigitValue, DigitChar, Horner;
    var d := [DigitChar(n % radix, upper)];
    LastDigit(n, radix, upper);
    if n >= radix {
      DigitsSpell(n / radix, radix, upper);
      HornerConcat(Digits(n / radix, radix, upper), d, radix, 0);
    }
  }

  lemma LastDigit(n: nat, radix: int, upper: bool)
    requires Radix(radix)
    ensures var d := [DigitChar(n % radix, upper)];
            AllDigits(d, radix) && Horner(d, radix, n / radix) == n
            && (n < radix ==> Horner(d, radix, 0) == n)
  {
    var d := [DigitChar(n % radix, upper)];
    assert DigitValue(d[0], radix) == n % radix;
    assert d[1..] == [];
  }

  lemma {:induction false} ZerosSpell(k: nat, radix: int)
    requires Radix(radix)
    ensures AllDigits(Repeat(ZERO, k), radix) && Horner(Repeat(ZERO, k), radix, 0) == 0
  {
    if k > 0 {
      ZerosSpell(k - 1, radix);
      assert Repeat(ZERO, k)[1..] == Repeat(ZERO, k - 1);
    }
  }

  lemma {:induction false} SpacesSkipped(k: nat, t: Text)
    requires t != [] && !IsSpace(t[0])
    ensures SkipSpaces(Repeat(SPACE, k) + t) == t
  {
    if k == 0 {
      assert Repeat(SPACE, k) + t == t;
    } else {
      SpacesSkipped(k - 1, t);
      assert (Repeat(SPACE, k) + t)[1..] == Repeat(SPACE, k - 1) + t;
    }
  }

  lemma NoDigitsHere(t: Text, radix: int, acc: nat)
    requires t == [] || t[0] == SPACE
    ensures Horner(t, radix, acc) == acc && DigitRun(t, radix) == 0
  {
  }

  /** Digits after zeros and before spaces are read as the number they spell. */
  lemma DigitsReadBack(n: nat, radix: int, upper: bool, zeros: nat, after: nat)
    requires Radix(radix)
    ensures var t := Repeat(ZERO, zeros) + Digits(n, radix, upper) + Repeat(SPACE, after);
            Horner(t, radix, 0) == n && DigitRun(t, radix) == |t| - after
            && DigitValue(t[0], radix) >= 0 && !HexPrefix(t)
  {
    hide Digits, Horner, Repeat, Push;
    var z, d, q := Repeat(ZERO, zeros), Digits(n, radix, upper), Repeat(SPACE, after);
    DigitsSpell(n, radix, upper);
    ZerosSpell(zeros, radix);
    HornerConcat(z, d, radix, 0);
    HornerConcat(d, [], radix, 0);
    assert d + [] == d;
    HornerConcat(z + d, q, radix, 0);
    NoDigitsHere(q, radix, n);
    assert d[0] == (z + d + q)[|z|];
  }

  /** A sign and digits between spaces are read as that number or its negation. */
  lemma TextReadBack(n: nat, negative: bool, radix: int, upper: bool, before: nat, zeros: nat, after: nat)
    requires Radix(radix)
    ensures var t := Repeat(ZERO, zeros) + Digits(n, radix, upper) + Repeat(SPACE, after);
            var s := Repeat(SPACE, before) + ((if negative then [MINUS] else []) + t);
            ParseUnsigned(s, radix) == (Negated(n, negative), |s| - after)
  {
    hide Digits, Horner, DigitRun, SkipSpaces, Negated, Repeat, DigitValue, HexPrefix, AfterSign, IsSpace;
    var t := Repeat(ZERO, zeros) + Digits(n, radix, upper) + Repeat(SPACE, after);
    DigitsReadBack(n, radix, upper, zeros, after);
    var u := (if negative then [MINUS] else []) + t;
    SignThenDigits(t, negative, radix);
    SpacesSkipped(before, u);
  }

  lemma SignThenDigits(t: Text, negative: bool, radix: int)
    requires t != [] && DigitValue(t[0], radix) >= 0
    ensures var u := (if negative then [MINUS] else []) + t;
            u != [] && !IsSpace(u[0]) && AfterSign(u) == t && (First(u) == MINUS <==> negative)
  {
    var u := (if negative then [MINUS] else []) + t;
    assert u[0] == (if negative then MINUS else t[0]);
    assert negative ==> u[1..] == t;
  }

  /** Whatever flags and width it was printed with, an integer reads back as itself. */
  lemma NumberReadsBack(num: u64, negative: bool, radix: int, upper: bool, left: bool, zeros: bool, width: int)
    requires Radix(radix)
    ensures ParseUnsigned(Number(num, negative, radix, upper, left, zeros, width), radix).0 == Negated(num, negative)
  {
    hide ParseUnsigned, Digits, Negated, Repeat;
    var d := Digits(num, radix, upper);
    var sign := if negative then [MINUS] else [];
    var pad := width - |d| - |sign|;
    var k: nat := if pad < 0 then 0 else pad;
    if left {
      TextReadBack(num, negative, radix, upper, 0, 0, k);
      assert Repeat(SPACE, 0) + (sign + (Repeat(ZERO, 0) + d + Repeat(SPACE, k))) == sign + d + Repeat(SPACE, pad);
    } else if zeros {
      TextReadBack(num, negative, radix, upper, 0, k, 0);
      assert Repeat(SPACE, 0) + (sign + (Repeat(ZERO, k) + d + Repeat(SPACE, 0))) == sign + Repeat(ZERO, pad) + d;
    } else {
      TextReadBack(num, negative, radix, upper, k, 0, 0);
      assert Repeat(SPACE, k) + (sign + (Repeat(ZERO, 0) + d + Repeat(SPACE, 0))) == Repeat(SPACE, pad) + sign + d;
    }
  }

  lemma MagnitudeBack(v: i64)
    ensures Signed64(Negated(Magnitude(v), v < 0)) == v
  {
    MagnitudeIs(v);
    DivModUnique(v, TWO_64, if v < 0 then -1 else 0, if v < 0 then v + TWO_64 else v);
  }

  lemma MagnitudeIs(v: int)
    requires -TWO_63 <= v < TWO_64
    ensures Magnitude(v) == if v < 0 then -v else v
  {
    if v < 0 {
      DivModUnique(-v, TWO_64, 0, -v);
    } else {
      DivModUnique(v, TWO_64, 0, v);
    }
  }

  /** `strtol` reads back what %ld printed, the least long included, with any flags and width. */
  lemma SignedRoundTrip(v: i64, left: bool, zeros: bool, width: int)
    ensures Signed64(ParseUnsigned(Number(Magnitude(v), v < 0, 10, false, left, zeros, width), 10).0) == v
  {
    hide ParseUnsigned, Number, Magnitude, Negated, Signed64;
    NumberReadsBack(Magnitude(v), v < 0, 10, false, left, zeros, width);
    MagnitudeBack(v);
  }

  /** `strtoul` reads back what %lu, %lx, %lX and %lo printed. */
  lemma UnsignedRoundTrip(v: u64, radix: int, upper: bool, left: bool, zeros: bool, width: int)
    requires Radix(radix)
    ensures ParseUnsigned(Number(v, false, radix, upper, left, zeros, width), radix).0 == v
  {
    hide ParseUnsigned, Number;
    NumberReadsBack(v, false, radix, upper, left, zeros, width);
  }

  method StrToL(t: Text, base: int) returns (r: i64, end: nat)
    ensures r == Signed64(ParseUnsigned(t, base).0) && end == ParseUnsigned(t, base).1
  {
    var u;
    u, end := StrToUl(t, base);
    r := Signed64(u);
  }

  /** Where the code and the standard part: a prefix without digits, a sign without digits, and
      2^64, which reads as zero. */
  lemma StandardCounterexamples()
    ensures ParseUnsigned([48, 120, 103], 16) == (0, 2) && StandardReading([48, 120, 103], 16) == Reading(0, 1)
    ensures ParseUnsigned([32, 45, 113], 10) == (0, 2) && StandardReading([32, 45, 113], 10) == Reading(0, 0)
    ensures var t := Digits(TWO_64, 10, false);
            ParseUnsigned(t, 10).0 == 0 && StandardUnsigned(t, 10) == TWO_64 - 1
  {
    PrefixCounterexample();
    SignCounterexample();
    WrapCounterexample();
  }

  lemma PrefixCounterexample()
    ensures ParseUnsigned([48, 120, 103], 16) == (0, 2) && StandardReading([48, 120, 103], 16) == Reading(0, 1)
  {
    var t: Text := [48, 120, 103];
    assert t[2..] == [103] && t[1..] == [120, 103];
    assert SkipSpaces(t) == t && AfterSign(t) == t;
    LonePrefix(t, 16);
    NoDigitsNoValue([103], 16);
    SideBySide(t, 16);
  }

  lemma SignCounterexample()
    ensures ParseUnsigned([32, 45, 113], 10) == (0, 2) && StandardReading([32, 45, 113], 10) == Reading(0, 0)
  {
    hide Horner, DigitRun, SkipSpaces, ParseUnsigned, StandardReading, DigitValue;
    var t: Text := [32, 45, 113];
    var u: Text := [45, 113];
    var q: Text := [113];
    BlankThenSign();
    assert u[1..] == q && AfterSign(u) == q;
    SideBySide(t, 10);
    NothingHere(t, 10, q);
  }

  lemma BlankThenSign()
    ensures SkipSpaces([32, 45, 113]) == [45, 113] && DigitRun([113], 10) == 0
  {
    var t: Text := [32, 45, 113];
    assert t[1..] == [45, 113];
  }

  lemma NothingHere(t: Text, base: int, v: Text)
    requires v == AfterSign(SkipSpaces(t)) && base != 0 && base != 16 && DigitRun(v, base) == 0
    ensures ParseUnsigned(t, base).0 == 0 && StandardReading(t, base) == Reading(0, 0)
  {
    hide SkipSpaces;
    NoDigitsNoValue(v, base);
  }

  lemma WrapCounterexample()
    ensures var t := Digits(TWO_64, 10, false);
            ParseUnsigned(t, 10).0 == 0 && StandardUnsigned(t, 10) == TWO_64 - 1
  {
    hide Digits, Horner, DigitRun, ParseUnsigned, DigitValue;
    var t := Digits(TWO_64, 10, false);
    DigitsReadBack(TWO_64, 10, false, 0, 0);
    assert Repeat(ZERO, 0) + t + Repeat(SPACE, 0) == t;
    PlainDigits(t);
    SideBySide(t, 10);
  }

  lemma PlainDigits(t: Text)
    requires t != [] && DigitValue(t[0], 10) >= 0 && DigitRun(t, 10) == |t|
    ensures StandardReading(t, 10) == Reading(Horner(t, 10, 0), |t|)
  {
    hide Horner, DigitRun;
    assert SkipSpaces(t) == t && AfterSign(t) == t;
  }

  // ---- Reading any base ----

  /** The digits of the bases up to 36, in either case. */
  const LOWER: Text := [48, 49, 50, 51, 52, 53, 54, 55, 56, 57, 97, 98, 99, 100, 101, 102, 103, 104,
                        105, 106, 107, 108, 109, 110, 111, 112, 113, 114, 115, 116, 117, 118, 119, 120, 121, 122]
  const UPPER: Text := [48, 49, 50, 51, 52, 53, 54, 55, 56, 57, 65, 66, 67, 68, 69, 70, 71, 72,
                        73, 74, 75, 76, 77, 78, 79, 80, 81, 82, 83, 84, 85, 86, 87, 88, 89, 90]

  /** A character that stands for the digit v. */
  predicate Writes(c: byte, v: int) { 0 <= v < 36 && (c == LOWER[v] || c == UPPER[v]) }

  lemma Alphabet(v: int)
    requires 0 <= v < 36
    ensures LOWER[v] == (if v < 10 then 48 + v else 87 + v) && UPPER[v] == (if v < 10 then 48 + v else 55 + v)
  {
  }

  /** A digit of a base is worth its place in the alphabet, and nothing else is a digit of it. */
  lemma DigitValueIs(c: byte, v: int, base: int)
    requires base <= 36
    ensures Writes(c, v) && v < base ==> DigitValue(c, base) == v
    ensures DigitValue(c, base) >= 0 ==> Writes(c, DigitValue(c, base))
  {
    hide Writes;
    WritesMeans(c, v);
    WritesMeans(c, DigitValue(c, base));
  }

  lemma WritesMeans(c: byte, v: int)
    ensures Writes(c, v) <==>
              0 <= v < 36 && (c == (if v < 10 then 48 + v else 87 + v) || c == (if v < 10 then 48 + v else 55 + v))
  {
    if 0 <= v < 36 { Alphabet(v); }
  }

  /** The text writes these digits. */
  predicate WritesAll(t: Text, ds: seq<int>, base: int) {
    |t| == |ds| && forall i :: 0 <= i < |t| ==> Writes(t[i], ds[i]) && ds[i] < base
  }

  /** The number with these digits, most significant first. */
  function Value(ds: seq<int>, base: int): int {
    if ds == [] then 0 else Value(ds[..|ds| - 1], base) * base + ds[|ds| - 1]
  }

  lemma {:induction false} HornerIsValue(t: Text, ds: seq<int>, base: int)
    requires 2 <= base <= 36 && WritesAll(t, ds, base)
    ensures AllDigits(t, base) && Horner(t, base, 0) == Value(ds, base)
    decreases |t|
  {
    hide Writes, DigitValue, Horner;
    if t == [] {
      NoDigitsHere([], base, 0);
    } else {
      var n := |t| - 1;
      var front, c := t[..n], t[n];
      HornerIsValue(front, ds[..n], base);
      DigitValueIs(c, ds[n], base);
      WritesMeans(c, ds[n]);
      assert t == front + [c];
      HornerConcat(front, [c], base, 0);
      OneDigit(c, base, Horner(front, base, 0));
    }
  }

  lemma OneDigit(c: byte, base: int, acc: nat)
    requires base >= 0 && DigitValue(c, base) >= 0
    ensures Horner([c], base, acc) == acc * base + DigitValue(c, base)
  {
    assert [c][1..] == [];
  }

  /** What follows the digits does not go on with them. */
  ghost predicate StopsAt(rest: Text, base: int) {
    rest == [] || forall v :: Writes(rest[0], v) ==> v >= base
  }

  lemma StopsRun(rest: Text, base: int, acc: nat)
    requires 2 <= base <= 36 && StopsAt(rest, base)
    ensures DigitRun(rest, base) == 0 && Horner(rest, base, acc) == acc
  {
    if rest != [] {
      DigitValueIs(rest[0], DigitValue(rest[0], base), base);
    }
  }

  predicate IsBlank(c: byte) { c == 9 || c == 10 || c == 11 || c == 12 || c == 13 || c == 32 }

  lemma {:induction false} BlanksSkipped(blanks: Text, t: Text)
    requires (forall i :: 0 <= i < |blanks| ==> IsBlank(blanks[i])) && (t == [] || !IsBlank(t[0]))
    ensures SkipSpaces(blanks + t) == t
    decreases |blanks|
  {
    if blanks == [] {
      assert blanks + t == t;
    } else {
      assert (blanks + t)[1..] == blanks[1..] + t;
      BlanksSkipped(blanks[1..], t);
    }
  }

  /** The base that digits are read in: the one asked for, or by a leading 0x, 0X or 0. */
  predicate ReadIn(base: int, prefix: Text, first: int, used: int) {
    if prefix != [] then (prefix == [48, 120] || prefix == [48, 88]) && (base == 0 || base == 16) && used == 16
    else if base != 0 then used == base
    else used == (if first == 0 then 8 else 10)
  }

  /** `strtoul`, on any blanks, sign, prefix, digits in either case and rest, the digits none after a
      prefix if need be: their value in their base, negated for a minus sign, in 64 bits, and where
      the rest begins. */
  lemma ParseReads(blanks: Text, sign: Text, prefix: Text, t: Text, ds: seq<int>, rest: Text, base: int, used: int)
    requires forall i :: 0 <= i < |blanks| ==> IsBlank(blanks[i])
    requires sign == [] || sign == [43] || sign == [45]
    requires 2 <= used <= 36 && (ds != [] || prefix != []) && WritesAll(t, ds, used)
    requires ReadIn(base, prefix, if ds == [] then 0 else ds[0], used) && StopsAt(rest, used)
    requires prefix == [] && t == [48] && rest != [] && (base == 0 || base == 16) ==> rest[0] != 120 && rest[0] != 88
    ensures ParseUnsigned(blanks + (sign + (prefix + (t + rest))), base)
         == ((if sign == [45] then -Value(ds, used) else Value(ds, used)) % 0x1_0000_0000_0000_0000,
             |blanks| + |sign| + |prefix| + |t|)
  {
    hide Horner, DigitRun, Writes, Value, SkipSpaces, DigitValue, ParseUnsigned, AfterSign, AfterPrefix, BaseOf,
      StopsAt, Negated, WritesAll;
    var body := prefix + (t + rest);
    var u := sign + body;
    NumberTaken(t, ds, rest, used);
    BodyStarts(prefix, t, ds, rest, used);
    SignTaken(sign, body);
    BlanksSkipped(blanks, u);
    PrefixTaken(prefix, t, ds, rest, base, used);
    ParsedParts(blanks + u, base);
    NegatedIs(Value(ds, used), sign == [45]);
  }

  lemma ParsedParts(s: Text, base: int)
    ensures var u := SkipSpaces(s);
            var v := AfterSign(u);
            var w, b := AfterPrefix(v, base), BaseOf(v, base);
            && ParseUnsigned(s, base).0 == Negated(Horner(w, b, 0), First(u) == MINUS)
            && ParseUnsigned(s, base).1 == |s| - |w| + DigitRun(w, b)
  {
    hide SkipSpaces, AfterSign, AfterPrefix, BaseOf, Horner, DigitRun, Negated, First;
  }

  lemma NegatedIs(v: int, negative: bool)
    ensures Negated(v, negative) == (if negative then -v else v) % 0x1_0000_0000_0000_0000
  {
  }

  lemma NumberTaken(t: Text, ds: seq<int>, rest: Text, used: int)
    requires 2 <= used <= 36 && WritesAll(t, ds, used) && StopsAt(rest, used)
    ensures Horner(t + rest, used, 0) == Value(ds, used) && DigitRun(t + rest, used) == |t|
  {
    hide Horner, DigitRun, Writes, Value, DigitValue, StopsAt, AllDigits;
    HornerIsValue(t, ds, used);
    HornerConcat(t, rest, used, 0);
    StopsRun(rest, used, Horner(t, used, 0));
  }

  lemma BodyStarts(prefix: Text, t: Text, ds: seq<int>, rest: Text, used: int)
    requires prefix == [] || prefix == [48, 120] || prefix == [48, 88]
    requires 2 <= used <= 36 && (ds != [] || prefix != []) && WritesAll(t, ds, used)
    ensures var body := prefix + (t + rest);
            body != [] && body[0] != 43 && body[0] != 45 && !IsBlank(body[0])
  {
    hide Writes;
    if prefix == [] { FirstWritten(t[0], ds[0], used); }
  }

  lemma FirstWritten(c: byte, v: int, base: int)
    requires Writes(c, v) && v < base <= 36
    ensures c != 43 && c != 45 && !IsBlank(c) && (c == 48 <==> v == 0) && c != 0
    ensures base <= 16 ==> c != 120 && c != 88
  {
    Alphabet(v);
  }

  lemma SignTaken(sign: Text, body: Text)
    requires (sign == [] || sign == [43] || sign == [45]) && body != [] && body[0] != 43 && body[0] != 45
    requires !IsBlank(body[0])
    ensures var u := sign + body;
            u != [] && !IsBlank(u[0]) && AfterSign(u) == body && (First(u) == MINUS <==> sign == [45])
  {
    var u := sign + body;
    assert sign != [] ==> u[1..] == body;
    assert sign == [] ==> u == body;
  }

  lemma PrefixTaken(prefix: Text, t: Text, ds: seq<int>, rest: Text, base: int, used: int)
    requires 2 <= used <= 36 && (ds != [] || prefix != []) && WritesAll(t, ds, used)
    requires ReadIn(base, prefix, if ds == [] then 0 else ds[0], used)
    requires prefix == [] && t == [48] && rest != [] && (base == 0 || base == 16) ==> rest[0] != 120 && rest[0] != 88
    ensures AfterPrefix(prefix + (t + rest), base) == t + rest && BaseOf(prefix + (t + rest), base) == used
  {
    hide Writes;
    var body := prefix + (t + rest);
    if prefix == [] {
      FirstWritten(t[0], ds[0], used);
      assert body == t + rest;
      if |t| > 1 {
        SecondWritten(t, ds, used);
        assert body[1] == t[1];
      } else {
        assert t == [t[0]];
        assert rest != [] ==> body[1] == rest[0];
      }
    } else {
      assert body[0] == 48 && body[1] == prefix[1];
      assert body[2..] == t + rest;
    }
  }

  lemma SecondWritten(t: Text, ds: seq<int>, used: int)
    requires |t| > 1 && 2 <= used <= 36 && WritesAll(t, ds, used)
    ensures used <= 16 ==> t[1] != 120 && t[1] != 88
  {
    hide Writes;
    FirstWritten(t[1], ds[1], used);
  }
}
