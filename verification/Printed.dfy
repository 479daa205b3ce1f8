/** What the printf directives print, character for character: each directive on its own, and
    whole formats from their parts. */
module Printed {
  import opened Words
  import opened Numbers
  import opened Format

  /** The characters a format produces, up to an unfinished directive at its end. */
  function Print(fmt: Text, args: Args, colours: bool): Text { Rendered(Pieces(fmt, colours).0, args) }

  /** The arguments left over. */
  function Left(fmt: Text, args: Args, colours: bool): Args {
    var n := TakenBy(Pieces(fmt, colours).0);
    if n <= |args| then args[n..] else []
  }

  /** The format does not end in the middle of a directive. */
  predicate Finished(fmt: Text, colours: bool) { Pieces(fmt, colours).1 == [] }

  // ---- Whole formats ----

  lemma {:induction false} SpellAllConcat(ps: seq<Piece>, qs: seq<Piece>)
    ensures SpellAll(ps + qs) == SpellAll(ps) + SpellAll(qs)
    decreases |qs|
  {
    hide Spell;
    if qs == [] {
      assert ps + qs == ps;
    } else {
      var all, last := ps + qs, qs[|qs| - 1];
      assert Front(all) == ps + Front(qs);
      SpellAllConcat(ps, Front(qs));
    }
  }

  lemma {:induction false} TotalsConcat(ps: seq<Piece>, qs: seq<Piece>)
    ensures TakenBy(ps + qs) == TakenBy(ps) + TakenBy(qs)
    ensures Colours(ps + qs) == Colours(ps) + Colours(qs)
    decreases |qs|
  {
    hide Takes;
    if qs == [] {
      assert ps + qs == ps;
    } else {
      var all, last := ps + qs, qs[|qs| - 1];
      assert Front(all) == ps + Front(qs);
      TotalsConcat(ps, Front(qs));
    }
  }

  lemma {:induction false} RenderedConcat(ps: seq<Piece>, qs: seq<Piece>, args: Args)
    ensures var n := TakenBy(ps);
            Rendered(ps + qs, args) == Rendered(ps, args) + Rendered(qs, if n <= |args| then args[n..] else [])
    decreases |qs|
  {
    hide Meaning, TakenBy;
    var n := TakenBy(ps);
    var rest := if n <= |args| then args[n..] else [];
    if qs == [] {
      assert ps + qs == ps;
    } else {
      var all, last := ps + qs, qs[|qs| - 1];
      assert Front(all) == ps + Front(qs);
      RenderedConcat(ps, Front(qs), args);
      TotalsConcat(ps, Front(qs));
      assert ArgAt(args, n + TakenBy(Front(qs))) == ArgAt(rest, TakenBy(Front(qs)));
    }
  }

  lemma PiecesConcat(a: Text, b: Text, colours: bool)
    requires Finished(a, colours)
    ensures Pieces(a + b, colours) == (Pieces(a, colours).0 + Pieces(b, colours).0, Pieces(b, colours).1)
  {
    hide Pieces, SpellAll, WellFormed, ReadPiece;
    var ps, qs, tail := Pieces(a, colours).0, Pieces(b, colours).0, Pieces(b, colours).1;
    PiecesSpell(a, colours);
    PiecesSpell(b, colours);
    SpellAllConcat(ps, qs);
    assert a + b == SpellAll(ps + qs) + tail;
    PiecesUnique(ps + qs, tail, colours);
  }

  /** A format prints what its parts print, the second on the arguments the first has left. */
  lemma PrintConcat(a: Text, b: Text, args: Args, colours: bool)
    requires Finished(a, colours)
    ensures Print(a + b, args, colours) == Print(a, args, colours) + Print(b, Left(a, args, colours), colours)
    ensures Left(a + b, args, colours) == Left(b, Left(a, args, colours), colours)
    ensures Finished(a + b, colours) == Finished(b, colours)
    ensures Colours(Pieces(a + b, colours).0) == Colours(Pieces(a, colours).0) + Colours(Pieces(b, colours).0)
  {
    hide Pieces, Rendered, TakenBy, Colours;
    var ps, qs := Pieces(a, colours).0, Pieces(b, colours).0;
    PiecesConcat(a, b, colours);
    RenderedConcat(ps, qs, args);
    TotalsConcat(ps, qs);
  }

  lemma OnePiece(p: Piece, args: Args, colours: bool)
    requires WellFormed(p, colours)
    ensures Finished(Spell(p), colours) && Print(Spell(p), args, colours) == Meaning(p, ArgAt(args, 0))
    ensures Colours(Pieces(Spell(p), colours).0) == (if p.Colour? then 1 else 0)
    ensures TakenBy(Pieces(Spell(p), colours).0) == Takes(p)
  {
    hide Pieces, Meaning, Spell, WellFormed, ReadPiece, Takes;
    SingleTotals(p, args);
    SpellNone();
    NothingToRead(colours);
    assert SpellAll([p]) + [] == Spell(p);
    PiecesUnique([p], [], colours);
  }

  lemma SingleTotals(p: Piece, args: Args)
    ensures SpellAll([p]) == Spell(p) && Rendered([p], args) == Meaning(p, ArgAt(args, 0))
    ensures Colours([p]) == (if p.Colour? then 1 else 0) && TakenBy([p]) == Takes(p)
  {
    hide Meaning, Spell, Takes;
    assert Front([p]) == [];
  }

  lemma NothingToRead(colours: bool)
    ensures ReadPiece([], colours).None?
  {
  }

  /** Text without a percent sign prints itself and takes no argument. */
  lemma {:induction false} PlainPrints(t: Text, args: Args, colours: bool)
    requires forall i :: 0 <= i < |t| ==> t[i] != 37
    ensures Finished(t, colours) && Print(t, args, colours) == t && Left(t, args, colours) == args
    ensures Colours(Pieces(t, colours).0) == 0
    decreases |t|
  {
    hide Pieces, Rendered, TakenBy, Colours;
    if t == [] {
      EmptyPrints(args, colours);
    } else {
      var p, rest := Plain(t[0]), t[1..];
      OnePiece(p, args, colours);
      PlainPrints(rest, args, colours);
      PrintConcat([t[0]], rest, args, colours);
      assert [t[0]] + rest == t;
    }
  }

  lemma EmptyPrints(args: Args, colours: bool)
    ensures Finished([], colours) && Print([], args, colours) == [] && Left([], args, colours) == args
    ensures Colours(Pieces([], colours).0) == 0
  {
  }

  /** "%%" and "%-%" print a percent sign, "%--" and a colour directive nothing; none takes an
      argument, and only the colour directive is counted as a character it is not. */
  lemma SignsPrint(dash: bool, c: byte, args: Args)
    ensures var d := if dash then [45] else [];
            var percent, colour := [37] + d + [37], [37] + d + [63, c];
            && Print(percent, args, true) == [37] && Left(percent, args, true) == args
            && Colours(Pieces(percent, true).0) == 0
            && Print([37, 45, 45], args, true) == [] && Left([37, 45, 45], args, true) == args
            && Colours(Pieces([37, 45, 45], true).0) == 0
            && Print(colour, args, true) == [] && Left(colour, args, true) == args
            && Colours(Pieces(colour, true).0) == 1
            && Finished(percent, true) && Finished([37, 45, 45], true) && Finished(colour, true)
  {
    hide Pieces, TakenBy, Colours, Rendered;
    OnePiece(Percent(dash), args, true);
    OnePiece(DoubleDash, args, true);
    OnePiece(Colour(dash, c), args, true);
  }

  // ---- One directive ----

  /** The width is the decimal number its digits spell, in 32 bits. */
  lemma {:induction false} WidthIsDecimal(digits: Text)
    requires AllOf(digits, IsDigit)
    ensures WidthOf(digits) == Horner(digits, 10, 0) % 0x1_0000_0000
    decreases |digits|
  {
    if digits != [] {
      var front, c := digits[..|digits| - 1], digits[|digits| - 1];
      WidthIsDecimal(front);
      assert digits == front + [c];
      forall i | 0 <= i < |front|
        ensures DigitValue(front[i], 10) >= 0
      {
        assert front[i] == digits[i];
      }
      HornerConcat(front, [c], 10, 0);
      assert IsDigit(digits[|digits| - 1]);
      HornerOne(c, Horner(front, 10, 0));
      TenTimes(Horner(front, 10, 0), c - 48);
    }
  }

  lemma HornerOne(c: byte, acc: nat)
    requires 48 <= c <= 57
    ensures Horner([c], 10, acc) == 10 * acc + (c - 48)
  {
    assert [c][1..] == [];
  }

  lemma TenTimes(n: nat, v: nat)
    ensures (10 * (n % 0x1_0000_0000) + v) % 0x1_0000_0000 == (10 * n + v) % 0x1_0000_0000
  {
    var m := 0x1_0000_0000;
    var x := 10 * (n % m) + v;
    assert 10 * n + v == (10 * (n / m) + x / m) * m + x % m;
    DivModUnique(10 * n + v, m, 10 * (n / m) + x / m, x % m);
  }

  /** F, N, l and h may stand before the conversion; the conversions are Xxnpdiuo, c and s. */
  predicate Modifiers(mods: Text) {
    forall i :: 0 <= i < |mods| ==> mods[i] == 70 || mods[i] == 78 || mods[i] == 108 || mods[i] == 104
  }

  predicate Numeric(conv: byte) { conv in [88, 120, 110, 112, 100, 105, 117, 111] }

  predicate Width(zero: bool, digits: Text) {
    && (forall i :: 0 <= i < |digits| ==> 48 <= digits[i] <= 57)
    && (digits != [] && !zero ==> digits[0] != 48)
  }

  /** A directive: a percent sign, a dash, a zero, a width, modifiers and a letter. */
  function Directive(dash: bool, zero: bool, digits: Text, mods: Text, conv: byte): Text {
    [37] + (if dash then [45] else []) + (if zero then [48] else []) + digits + mods + [conv]
  }

  /** A directive prints its argument, and only its argument, by its own flags. */
  lemma DirectivePrints(dash: bool, zero: bool, digits: Text, mods: Text, conv: byte, args: Args, colours: bool)
    requires Width(zero, digits) && Modifiers(mods) && (Numeric(conv) || conv == 99 || conv == 115)
    ensures var fmt := Directive(dash, zero, digits, mods, conv);
            var a := if args == [] then Arg(0, []) else args[0];
            && Finished(fmt, colours) && Left(fmt, args, colours) == (if args == [] then [] else args[1..])
            && Colours(Pieces(fmt, colours).0) == 0
            && Print(fmt, args, colours)
               == Converted(dash, zero, Horner(digits, 10, 0) % 0x1_0000_0000, 108 in mods, conv, a)
  {
    hide Pieces, TakenBy, Colours, Rendered, Converted, Horner, WidthOf;
    var p := Conversion(dash, zero, digits, mods, conv);
    OnePiece(p, args, colours);
    WidthIsDecimal(digits);
  }

  // ---- Fields ----

  /** A digit of the base, in the case asked for. */
  predicate DigitOf(c: byte, base: int, upper: bool) {
    (48 <= c <= 57 && c < 48 + base) || (base == 16 && if upper then 65 <= c <= 70 else 97 <= c <= 102)
  }

  lemma {:induction false} DigitsAre(n: nat, radix: int, upper: bool)
    requires Radix(radix)
    ensures var d := Digits(n, radix, upper);
            && (forall i :: 0 <= i < |d| ==> DigitOf(d[i], radix, upper))
            && (n > 0 ==> d[0] != 48) && (n == 0 ==> d == [48])
    decreases n
  {
    if n >= radix {
      DigitsAre(n / radix, radix, upper);
    }
  }

  /** What a numeric conversion prints without a width: a minus sign just when d or i is given a
      negative number, and digits of its base without a leading zero. */
  lemma NumberIs(left: bool, zeros: bool, long: bool, conv: byte, a: Arg)
    requires Numeric(conv)
    ensures var t := Converted(left, zeros, 0, long, conv, a);
            var negative := (conv == 100 || conv == 105) &&
                            if long then a.word >= 0x8000_0000_0000_0000 else a.word % 0x1_0000_0000 >= 0x8000_0000;
            var base := match conv case 100 => 10 case 105 => 10 case 117 => 10 case 111 => 8 case _ => 16;
            && t != [] && (t[0] == 45 <==> negative)
            && var d := if negative then t[1..] else t;
               && d != [] && (d[0] == 48 ==> d == [48])
               && (forall i :: 0 <= i < |d| ==> DigitOf(d[i], base, conv == 88))
  {
    hide Digits;
    var v := ValueOf(conv, long, a);
    DigitsAre(Magnitude(v), RadixOf(conv), conv == 88);
    var sign, d := if v < 0 then [MINUS] else [], Digits(Magnitude(v), RadixOf(conv), conv == 88);
    WidthZero(left, zeros, v < 0, d);
    assert v < 0 ==> (sign + d)[1..] == d;
    assert v >= 0 ==> sign + d == d;
    if |d| > 1 { NotZero(Magnitude(v), RadixOf(conv), conv == 88); }
  }

  lemma NotZero(n: nat, radix: int, upper: bool)
    requires Radix(radix) && |Digits(n, radix, upper)| > 1
    ensures n > 0
  {
  }

  lemma WidthZero(left: bool, zeros: bool, negative: bool, d: Text)
    ensures var sign := if negative then [MINUS] else [];
            Field(left, zeros, 0, negative, |d| + (if negative then 1 else 0), d) == sign + d
  {
  }

  function Blanks(n: int): Text { seq(if n < 0 then 0 else n, _ => 32) }

  function Zeros(n: int): Text { seq(if n < 0 then 0 else n, _ => 48) }

  /** With a width the same text is filled up to it, and never cut: by blanks after it with a dash,
      by zeros between sign and digits with a zero, and by blanks before it otherwise. */
  lemma NumberFills(left: bool, zeros: bool, width: u32, long: bool, conv: byte, a: Arg)
    requires Numeric(conv)
    ensures var u := Converted(false, false, 0, long, conv, a);
            var t := Converted(left, zeros, width, long, conv, a);
            var gap := width - |u|;
            && |t| == (if width > |u| then width else |u|)
            && (left ==> t == u + Blanks(gap))
            && (!left && !zeros ==> t == Blanks(gap) + u)
            && (!left && zeros && u != [] && u[0] == 45 ==> t == [45] + Zeros(gap) + u[1..])
            && (!left && zeros && u != [] && u[0] != 45 ==> t == Zeros(gap) + u)
            && u != []
  {
    hide Digits, Field, Magnitude, ValueOf, RadixOf, Blanks, Zeros;
    var v := ValueOf(conv, long, a);
    var d := Digits(Magnitude(v), RadixOf(conv), conv == 88);
    DigitsAre(Magnitude(v), RadixOf(conv), conv == 88);
    WidthZero(false, false, v < 0, d);
    FieldFills(left, zeros, width, v < 0, d);
  }

  lemma FieldFills(left: bool, zeros: bool, width: int, negative: bool, d: Text)
    requires d != [] && d[0] != MINUS
    ensures var u := (if negative then [MINUS] else []) + d;
            var t := Field(left, zeros, width, negative, |d| + (if negative then 1 else 0), d);
            var gap := width - |u|;
            && |t| == (if width > |u| then width else |u|)
            && (left ==> t == u + Blanks(gap))
            && (!left && !zeros ==> t == Blanks(gap) + u)
            && (!left && zeros && u[0] == 45 ==> t == [45] + Zeros(gap) + u[1..])
            && (!left && zeros && u[0] != 45 ==> t == Zeros(gap) + u)
  {
    var u := (if negative then [MINUS] else []) + d;
    var gap := width - |u|;
    assert Repeat(SPACE, gap) == Blanks(gap) && Repeat(ZERO, gap) == Zeros(gap);
    assert negative ==> u[1..] == d;
  }

  /** A string or a character is filled with blanks only, whatever the zero flag says; a NUL
      character prints nothing but takes up a column. */
  lemma TextFills(left: bool, zeros: bool, width: u32, long: bool, a: Arg)
    ensures var s := Converted(left, zeros, width, long, 115, a);
            var gap := width - |a.text| % 0x1_0000_0000;
            s == if left then a.text + Blanks(gap) else Blanks(gap) + a.text
    ensures var c := Converted(left, zeros, width, long, 99, a);
            var body := if a.word % 256 == 0 then [] else [a.word % 256];
            c == if left then body + Blanks(width - 1) else Blanks(width - 1) + body
  {
    var gap := width - |a.text| % 0x1_0000_0000;
    assert Repeat(SPACE, gap) == Blanks(gap) && Repeat(SPACE, width - 1) == Blanks(width - 1);
  }

  // ---- Printing and reading back ----

  /** A long printed by any directive for longs reads back as itself in the base of its letter,
      whatever is around the directive in the format. */
  lemma PrintThenRead(before: Text, after: Text, dash: bool, zero: bool, digits: Text, conv: byte, w: u64)
    requires Width(zero, digits) && Numeric(conv)
    requires forall i :: 0 <= i < |before| ==> before[i] != 37
    requires forall i :: 0 <= i < |after| ==> after[i] != 37
    ensures var fmt := before + Directive(dash, zero, digits, [108], conv) + after;
            var base := match conv case 100 => 10 case 105 => 10 case 117 => 10 case 111 => 8 case _ => 16;
            var t := Print(fmt, [Arg(w, [])], false);
            && |before| <= |t| - |after|
            && t[..|before|] == before && t[|t| - |after|..] == after
            && ParseUnsigned(t[|before|..|t| - |after|], base).0 == w
  {
    hide Pieces, TakenBy, Colours, Rendered, Converted, Horner, ParseUnsigned, Print, Left, Finished, Directive;
    var args, d := [Arg(w, [])], Directive(dash, zero, digits, [108], conv);
    PlainPrints(before, args, false);
    DirectivePrints(dash, zero, digits, [108], conv, args, false);
    PlainPrints(after, [], false);
    PrintConcat(before, d, args, false);
    PrintConcat(before + d, after, args, false);
    ConversionReadsBack(dash, zero, Horner(digits, 10, 0) % 0x1_0000_0000, true, conv, args[0]);
    Between3(before, Print(d, args, false), after);
  }

  lemma Between3(a: Text, b: Text, c: Text)
    ensures var t := a + b + c; t[..|a|] == a && t[|t| - |c|..] == c && t[|a|..|t| - |c|] == b
  {
  }
}
