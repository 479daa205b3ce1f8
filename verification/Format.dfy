/** The printf family: the scanner of `do_sprintf` and `do_printf`, read against a grammar of
    format strings, and the three ways of printing built on it. The callback that receives
    each character is modelled by the sequence of characters it is given. */
module Format {
  import opened Words
  import opened Numbers

  /** A string as C sees it: no NUL before its end. */
  type CString = t: Text | forall i :: 0 <= i < |t| ==> t[i] != 0

  /** One variadic argument: the word in its slot and the string it would point to. */
  datatype Arg = Arg(word: u64, text: CString)

  type Args = seq<Arg>

  /** Arguments the caller did not pass read as zero. */
  function ArgAt(args: Args, i: nat): Arg { if i < |args| then args[i] else Arg(0, []) }

  const PERCENT: byte := 37
  const QUESTION: byte := 63

  predicate IsDigit(c: byte) { 48 <= c <= 57 }

  /** F, N, l and h. */
  predicate IsModifier(c: byte) { c == 70 || c == 78 || c == 108 || c == 104 }

  /** X, x, n, p, d, i, u, o. */
  predicate IsNumeric(c: byte) {
    c == 88 || c == 120 || c == 110 || c == 112 || c == 100 || c == 105 || c == 117 || c == 111
  }

  predicate IsConversion(c: byte) { IsNumeric(c) || c == 99 || c == 115 }

  function RadixOf(c: byte): (r: int)
    requires IsNumeric(c)
    ensures Radix(r)
  {
    if c == 111 then 8 else if c == 100 || c == 105 || c == 117 then 10 else 16
  }

  // ---- The grammar ----

  datatype Piece =
    | Plain(c: byte)
    | Percent(dash: bool)
    | Colour(dash: bool, c: byte)
    | DoubleDash
    | Conversion(dash: bool, zero: bool, digits: Text, mods: Text, conv: byte)

  function Dash(dash: bool): Text { if dash then [MINUS] else [] }

  function Zero(zero: bool): Text { if zero then [ZERO] else [] }

  function Spell(p: Piece): (t: Text)
    ensures |t| > 0
  {
    match p
    case Plain(c) => [c]
    case Percent(dash) => [PERCENT] + Dash(dash) + [PERCENT]
    case Colour(dash, c) => [PERCENT] + Dash(dash) + [QUESTION, c]
    case DoubleDash => [PERCENT, MINUS, MINUS]
    case Conversion(dash, zero, digits, mods, conv) =>
      [PERCENT] + Dash(dash) + Zero(zero) + digits + mods + [conv]
  }

  predicate AllOf(t: Text, p: byte -> bool) { forall i :: 0 <= i < |t| ==> p(t[i]) }

  /** What may follow a width and modifiers as the conversion character. `colours` says
      whether the scanner knows the %? directive. */
  predicate MayConvert(bare: bool, plain: bool, conv: byte, colours: bool) {
    && !IsModifier(conv)
    && (plain ==> !IsDigit(conv))
    && (bare ==> conv != PERCENT && conv != MINUS && (colours ==> conv != QUESTION))
  }

  predicate MayWidth(zero: bool, digits: Text) {
    AllOf(digits, IsDigit) && (!zero && digits != [] ==> digits[0] != ZERO)
  }

  predicate WellFormed(p: Piece, colours: bool) {
    match p
    case Plain(c) => c != PERCENT
    case Percent(_) => true
    case Colour(_, c) => colours
    case DoubleDash => true
    case Conversion(dash, zero, digits, mods, conv) =>
      && MayWidth(zero, digits)
      && AllOf(mods, IsModifier)
      && MayConvert(!zero && digits == [] && mods == [], mods == [], conv, colours)
  }

  /** The value of a field width, as a 32-bit accumulator sees it. */
  function WidthOf(digits: Text): u32 {
    if digits == [] then 0
    else NextWidth(WidthOf(digits[..|digits| - 1]), digits[|digits| - 1])
  }

  function NextWidth(width: u32, c: byte): u32 { (10 * width + (c - ZERO)) % 0x1_0000_0000 }

  // ---- What a format means ----

  /** The value of a numeric argument. */
  function ValueOf(conv: byte, long: bool, a: Arg): int {
    var signed := conv == 100 || conv == 105;
    if conv == 112 then a.word
    else if long then if signed then Signed64(a.word) else a.word
    else if signed then Signed32(a.word % 0x1_0000_0000) else a.word % 0x1_0000_0000
  }

  function CharOf(a: Arg): Text {
    if a.word % 256 == 0 then [] else [a.word % 256]
  }

  function Converted(left: bool, zeros: bool, width: u32, long: bool, conv: byte, a: Arg): Text {
    if IsNumeric(conv) then
      var v := ValueOf(conv, long, a);
      Number(Magnitude(v), v < 0, RadixOf(conv), conv == 88, left, zeros, width)
    else if conv == 99 then Field(left, false, width, false, 1, CharOf(a))
    else if conv == 115 then Field(left, false, width, false, |a.text| % 0x1_0000_0000, a.text)
    else []
  }

  function Meaning(p: Piece, a: Arg): Text {
    match p
    case Plain(c) => [c]
    case Percent(_) => [PERCENT]
    case Colour(_, _) => []
    case DoubleDash => []
    case Conversion(dash, zero, digits, mods, conv) =>
      Converted(dash, zero, WidthOf(digits), 108 in mods, conv, a)
  }

  function Takes(p: Piece): nat { if p.Conversion? && IsConversion(p.conv) then 1 else 0 }

  function Front(ps: seq<Piece>): seq<Piece>
    requires ps != []
  {
    ps[..|ps| - 1]
  }

  function SpellAll(ps: seq<Piece>): Text {
    if ps == [] then [] else SpellAll(Front(ps)) + Spell(ps[|ps| - 1])
  }

  /** The number of arguments the pieces use up. */
  function TakenBy(ps: seq<Piece>): nat {
    if ps == [] then 0 else TakenBy(Front(ps)) + Takes(ps[|ps| - 1])
  }

  function Colours(ps: seq<Piece>): nat {
    if ps == [] then 0 else Colours(Front(ps)) + (if ps[|ps| - 1].Colour? then 1 else 0)
  }

  /** The text a sequence of pieces stands for, each conversion taking the next argument. */
  function Rendered(ps: seq<Piece>, args: Args): Text {
    if ps == [] then []
    else Rendered(Front(ps), args) + Meaning(ps[|ps| - 1], ArgAt(args, TakenBy(Front(ps))))
  }

  predicate AllFormed(ps: seq<Piece>, colours: bool) {
    forall i :: 0 <= i < |ps| ==> WellFormed(ps[i], colours)
  }

  // ---- Reading a format by the grammar ----

  datatype Option<T> = None | Some(value: T)

  function Run(t: Text, p: byte -> bool): (n: nat)
    ensures n <= |t| && AllOf(t[..n], p) && (n < |t| ==> !p(t[n]))
  {
    if t != [] && p(t[0]) then
      assert t[1..][..Run(t[1..], p)] == t[1..1 + Run(t[1..], p)];
      1 + Run(t[1..], p)
    else 0
  }

  /** What a string that starts with a percent sign, a dash or not, opens with. */
  function ReadDirective(dash: bool, t: Text, colours: bool): Option<Piece> {
    if t == [] then None
    else if t[0] == QUESTION && colours then (if |t| == 1 then None else Some(Colour(dash, t[1])))
    else if t[0] == PERCENT then Some(Percent(dash))
    else if t[0] == MINUS then Some(DoubleDash)
    else
      var zero := t[0] == ZERO;
      var u := if zero then t[1..] else t;
      ReadConversion(dash, zero, u)
  }

  function ReadConversion(dash: bool, zero: bool, t: Text): Option<Piece> {
    var n := Run(t, IsDigit);
    var u := t[n..];
    var m := Run(u, IsModifier);
    if m == |u| then None else Some(Conversion(dash, zero, t[..n], u[..m], u[m]))
  }

  /** The first piece of a string; none if the string is an unfinished directive. */
  function ReadPiece(t: Text, colours: bool): Option<Piece> {
    if t == [] then None
    else if t[0] != PERCENT then Some(Plain(t[0]))
    else if |t| > 1 && t[1] == MINUS then ReadDirective(true, t[2..], colours)
    else ReadDirective(false, t[1..], colours)
  }

  predicate Opens(t: Text, p: Text) { |p| <= |t| && t[..|p|] == p }

  lemma ConversionOpens(dash: bool, zero: bool, t: Text)
    ensures var r := ReadConversion(dash, zero, t);
            r.Some? ==> t != [] && r.value.Conversion? && r.value.dash == dash && r.value.zero == zero
                        && Opens(t, r.value.digits + r.value.mods + [r.value.conv])
                        && AllOf(r.value.digits, IsDigit) && AllOf(r.value.mods, IsModifier)
                        && !IsModifier(r.value.conv) && (r.value.mods == [] ==> !IsDigit(r.value.conv))
                        && (r.value.digits + r.value.mods == [] ==> r.value.conv == t[0])
                        && (r.value.digits != [] ==> r.value.digits[0] == t[0])
  {
    var n := Run(t, IsDigit);
    var u := t[n..];
    var m := Run(u, IsModifier);
    if m < |u| {
      assert t[..n] + u[..m] + [u[m]] == t[..n + m + 1];
    }
  }

  /** A conversion after the dash and zero flags. */
  lemma FlaggedOpens(dash: bool, t: Text, colours: bool)
    requires t != [] && t[0] != PERCENT && t[0] != MINUS && (colours ==> t[0] != QUESTION)
    ensures var zero := t[0] == ZERO;
            var r := ReadConversion(dash, zero, if zero then t[1..] else t);
            r.Some? ==> WellFormed(r.value, colours) && Opens([PERCENT] + Dash(dash) + t, Spell(r.value))
  {
    hide Run, ReadConversion, AllOf, Dash, Zero, Opens, WellFormed, Spell;
    var zero := t[0] == ZERO;
    var u := if zero then t[1..] else t;
    var r := ReadConversion(dash, zero, u);
    ConversionOpens(dash, zero, u);
    if r.Some? {
      ConversionSpells(r.value, t, u);
      ConversionFormed(r.value, t, u, colours);
    }
  }

  lemma ConversionSpells(c: Piece, t: Text, u: Text)
    requires c.Conversion? && t != [] && c.zero == (t[0] == ZERO) && u == (if c.zero then t[1..] else t)
    requires Opens(u, c.digits + c.mods + [c.conv])
    ensures Opens([PERCENT] + Dash(c.dash) + t, Spell(c))
  {
    hide Opens, Dash;
    var body := c.digits + c.mods + [c.conv];
    var head := [PERCENT] + Dash(c.dash) + Zero(c.zero);
    assert Spell(c) == head + body;
    assert [PERCENT] + Dash(c.dash) + t == head + u;
    OpensAfter(head, u, body);
  }

  lemma ConversionFormed(c: Piece, t: Text, u: Text, colours: bool)
    requires t != [] && t[0] != PERCENT && t[0] != MINUS && (colours ==> t[0] != QUESTION)
    requires c.Conversion? && c.zero == (t[0] == ZERO) && u == (if c.zero then t[1..] else t) && u != []
    requires AllOf(c.digits, IsDigit) && AllOf(c.mods, IsModifier)
    requires !IsModifier(c.conv) && (c.mods == [] ==> !IsDigit(c.conv))
    requires c.digits + c.mods == [] ==> c.conv == u[0]
    requires c.digits != [] ==> c.digits[0] == u[0]
    ensures WellFormed(c, colours)
  {
    hide AllOf;
    assert c.digits == [] && c.mods == [] ==> c.digits + c.mods == [];
  }

  lemma DirectiveOpens(dash: bool, t: Text, colours: bool)
    requires dash || t == [] || t[0] != MINUS
    ensures var r := ReadDirective(dash, t, colours);
            r.Some? ==> WellFormed(r.value, colours) && Opens([PERCENT] + Dash(dash) + t, Spell(r.value))
  {
    hide ReadConversion;
    var head := [PERCENT] + Dash(dash);
    if t == [] {
    } else if t[0] == QUESTION && colours {
      if |t| > 1 {
        assert t[..2] == [QUESTION, t[1]];
        OpensAfter(head, t, [QUESTION, t[1]]);
      }
    } else if t[0] == PERCENT {
      OpensAfter(head, t, [PERCENT]);
    } else if t[0] == MINUS {
      OpensAfter(head, t, [MINUS]);
      assert head + [MINUS] == [PERCENT, MINUS, MINUS];
    } else {
      FlaggedOpens(dash, t, colours);
    }
  }

  lemma OpensAfter(head: Text, t: Text, p: Text)
    requires Opens(t, p)
    ensures Opens(head + t, head + p)
  {
    assert (head + t)[..|head| + |p|] == head + t[..|p|];
  }

  /** A piece read is a well-formed piece and the string opens with its spelling. */
  lemma ReadPieceOpens(t: Text, colours: bool)
    ensures var r := ReadPiece(t, colours);
            r.Some? ==> WellFormed(r.value, colours) && Opens(t, Spell(r.value))
  {
    hide ReadDirective, WellFormed;
    if t != [] && t[0] != PERCENT {
      PlainOpens(t, colours);
    } else if |t| > 1 && t[1] == MINUS {
      DirectiveOpens(true, t[2..], colours);
      assert [PERCENT] + Dash(true) + t[2..] == t;
    } else if t != [] {
      DirectiveOpens(false, t[1..], colours);
      assert [PERCENT] + Dash(false) + t[1..] == t;
    }
  }

  lemma PlainOpens(t: Text, colours: bool)
    requires t != [] && t[0] != PERCENT
    ensures WellFormed(Plain(t[0]), colours) && Opens(t, Spell(Plain(t[0])))
  {
  }

  lemma {:induction false} RunConcat(a: Text, b: Text, p: byte -> bool)
    requires AllOf(a, p) && (b != [] ==> !p(b[0]))
    ensures Run(a + b, p) == |a|
    decreases |a|
  {
    if a == [] {
      assert a + b == b;
    } else {
      assert (a + b)[1..] == a[1..] + b;
      RunConcat(a[1..], b, p);
    }
  }

  lemma ConversionSpelt(dash: bool, zero: bool, digits: Text, mods: Text, rest: Text)
    requires AllOf(digits, IsDigit) && AllOf(mods, IsModifier)
    requires rest != [] ==> !IsModifier(rest[0]) && (mods == [] ==> !IsDigit(rest[0]))
    ensures ReadConversion(dash, zero, digits + mods + rest)
         == if rest == [] then None else Some(Conversion(dash, zero, digits, mods, rest[0]))
  {
    hide Run;
    var t := digits + mods + rest;
    assert t == digits + (mods + rest);
    RunConcat(digits, mods + rest, IsDigit);
    RunConcat(mods, rest, IsModifier);
    assert t[..|digits|] == digits && t[|digits|..] == mods + rest;
  }

  /** The spelling of a well-formed piece is read as that piece, whatever follows. */
  lemma ReadSpelt(p: Piece, rest: Text, colours: bool)
    requires WellFormed(p, colours)
    ensures ReadPiece(Spell(p) + rest, colours) == Some(p)
  {
    hide Run, ReadConversion, ReadDirective, ReadPiece;
    match p
    case Plain(c) =>
      ReadPlain(c, rest, colours);
    case Percent(dash) =>
      ReadShort(dash, [PERCENT], rest, colours);
    case Colour(dash, c) =>
      ReadShort(dash, [QUESTION, c], rest, colours);
    case DoubleDash =>
      ReadShort(true, [MINUS], rest, colours);
      assert [PERCENT] + Dash(true) + [MINUS] == Spell(p);
    case Conversion(dash, zero, digits, mods, conv) =>
      ReadFull(p, rest, colours);
  }

  lemma ReadFull(p: Piece, rest: Text, colours: bool)
    requires p.Conversion? && WellFormed(p, colours)
    ensures ReadPiece(Spell(p) + rest, colours) == Some(p)
  {
    hide Run, ReadConversion, ReadDirective, ReadPiece, AllOf, Dash, Zero;
    var t := [p.conv] + rest;
    var u := p.digits + p.mods + t;
    assert Spell(p) + rest == [PERCENT] + Dash(p.dash) + (Zero(p.zero) + u);
    DirectiveOfConversion(p.dash, p.zero, p.digits, p.mods, t, colours);
    AfterPercent(p.dash, Zero(p.zero) + u, colours);
    ConversionSpelt(p.dash, p.zero, p.digits, p.mods, t);
  }

  lemma ReadPlain(c: byte, rest: Text, colours: bool)
    requires c != PERCENT
    ensures ReadPiece([c] + rest, colours) == Some(Plain(c))
  {
  }

  /** The directives without a conversion. */
  lemma ReadShort(dash: bool, t: Text, rest: Text, colours: bool)
    requires || t == [PERCENT] || (dash && t == [MINUS])
             || (|t| == 2 && t[0] == QUESTION && colours)
    ensures ReadPiece([PERCENT] + Dash(dash) + t + rest, colours)
         == Some(if t[0] == PERCENT then Percent(dash) else if t[0] == MINUS then DoubleDash else Colour(dash, t[1]))
  {
    hide ReadConversion, ReadPiece;
    AfterPercent(dash, t + rest, colours);
    assert [PERCENT] + Dash(dash) + t + rest == [PERCENT] + Dash(dash) + (t + rest);
  }

  lemma AfterPercent(dash: bool, t: Text, colours: bool)
    requires dash || t == [] || t[0] != MINUS
    ensures ReadPiece([PERCENT] + Dash(dash) + t, colours) == ReadDirective(dash, t, colours)
  {
    hide ReadDirective;
    var whole := [PERCENT] + Dash(dash) + t;
    assert dash ==> whole[2..] == t;
    assert !dash ==> whole[1..] == t;
  }

  lemma DirectiveOfConversion(dash: bool, zero: bool, digits: Text, mods: Text, rest: Text, colours: bool)
    requires rest != [] && MayWidth(zero, digits) && AllOf(mods, IsModifier)
    requires MayConvert(!zero && digits == [] && mods == [], mods == [], rest[0], colours)
    ensures var u := digits + mods + rest;
            ReadDirective(dash, Zero(zero) + u, colours) == ReadConversion(dash, zero, u)
            && (Zero(zero) + u)[0] != MINUS
  {
    hide ReadConversion;
    var u := digits + mods + rest;
    var t := Zero(zero) + u;
    assert zero ==> t[0] == ZERO && t[1..] == u;
    assert !zero ==> t == u;
    assert digits != [] ==> u[0] == digits[0];
    assert digits == [] && mods != [] ==> u[0] == mods[0];
    assert digits == [] && mods == [] ==> u[0] == rest[0];
  }

  /** A format as its pieces and the unfinished directive it ends in, if any. */
  function Pieces(t: Text, colours: bool): (seq<Piece>, Text)
    decreases |t|
  {
    var r := ReadPiece(t, colours);
    if r.None? then ([], t)
    else
      ReadPieceOpens(t, colours);
      var (ps, tail) := Pieces(t[|Spell(r.value)|..], colours);
      ([r.value] + ps, tail)
  }

  lemma {:induction false} SpellAllFirst(p: Piece, ps: seq<Piece>)
    ensures SpellAll([p] + ps) == Spell(p) + SpellAll(ps)
    decreases |ps|
  {
    hide Spell;
    var all := [p] + ps;
    if ps == [] {
      assert all == [p];
      assert Front(all) == [];
    } else {
      assert Front(all) == [p] + Front(ps);
      SpellAllFirst(p, Front(ps));
    }
  }

  /** Every string is the spelling of well-formed pieces and an unfinished directive. */
  lemma {:induction false} PiecesSpell(t: Text, colours: bool)
    ensures var (ps, tail) := Pieces(t, colours);
            t == SpellAll(ps) + tail && AllFormed(ps, colours) && ReadPiece(tail, colours).None?
    decreases |t|
  {
    hide ReadPiece, Spell, WellFormed, SpellAll;
    var r := ReadPiece(t, colours);
    if r.None? {
      SpellNone();
    } else {
      ReadPieceOpens(t, colours);
      var n := |Spell(r.value)|;
      PiecesSpell(t[n..], colours);
      var (ps, tail) := Pieces(t[n..], colours);
      SpellAllFirst(r.value, ps);
      SplitAt(t, n, SpellAll(ps), tail);
    }
  }

  lemma SplitAt(t: Text, n: nat, a: Text, b: Text)
    requires n <= |t| && t[n..] == a + b
    ensures t == t[..n] + a + b
  {
  }

  lemma SpellNone()
    ensures SpellAll([]) == []
  {
  }

  /** Such a reading of a string is the only one. */
  lemma {:induction false} PiecesUnique(ps: seq<Piece>, tail: Text, colours: bool)
    requires AllFormed(ps, colours) && ReadPiece(tail, colours).None?
    ensures Pieces(SpellAll(ps) + tail, colours) == (ps, tail)
    decreases |ps|
  {
    hide ReadPiece, Spell, WellFormed, SpellAll;
    if ps == [] {
      SpellNone();
      assert SpellAll(ps) + tail == tail;
    } else {
      var p, rest := ps[0], ps[1..];
      SpellAllFirst(p, rest);
      assert ps == [p] + rest;
      var t := SpellAll(rest) + tail;
      assert SpellAll(ps) + tail == Spell(p) + t;
      ReadSpelt(p, t, colours);
      assert (Spell(p) + t)[|Spell(p)|..] == t;
      PiecesUnique(rest, tail, colours);
    }
  }

  /** The tails on which the scanner steps over the terminating NUL and reads on: it has
      taken a second character in the same turn and does not look whether it was the NUL. */
  predicate Overruns(tail: Text, colours: bool) {
    || tail == [PERCENT] || tail == [PERCENT, ZERO] || tail == [PERCENT, MINUS, ZERO]
    || (colours && (tail == [PERCENT, QUESTION] || tail == [PERCENT, MINUS, QUESTION]))
  }

  // ---- The scanner ----

  /** Its variables. `over` says that it has left the string. */
  datatype Scanner = Scanner(state: nat, left: bool, zeros: bool, long: bool, width: u32,
                             pos: nat, out: Text, count: u32, taken: nat, over: bool)
  {
    function Reset(): Scanner { this.(state := 0, left := false, zeros := false, long := false, width := 0) }
  }

  /** The directive being read. */
  datatype Draft = Draft(left: bool, zeros: bool, digits: Text, mods: Text)

  const BLANK := Draft(false, false, [], [])

  function Low32(n: int): u32 { n % 0x1_0000_0000 }

  ghost predicate DraftOk(state: nat, d: Draft) {
    && state <= 3
    && (state == 0 ==> d == BLANK)
    && (state == 1 ==> !d.zeros && d.digits == [])
    && (state <= 2 ==> d.mods == [])
    && MayWidth(d.zeros, d.digits) && AllOf(d.mods, IsModifier)
  }

  /** Between turns a directive under way has a character of its current part. */
  ghost predicate Between(state: nat, d: Draft) {
    (state == 1 ==> d.left) && (state == 2 ==> d.digits != []) && (state == 3 ==> d.mods != [])
  }

  function DraftText(state: nat, d: Draft): Text {
    if state == 0 then [] else [PERCENT] + Dash(d.left) + Zero(d.zeros) + d.digits + d.mods
  }

  ghost predicate Flags(m: Scanner, d: Draft) {
    m.left == d.left && m.zeros == d.zeros && m.width == WidthOf(d.digits) && m.long == (108 in d.mods)
  }

  ghost predicate Produced(m: Scanner, args: Args, ps: seq<Piece>) {
    m.out == Rendered(ps, args) && m.taken == TakenBy(ps) && m.count == Low32(|m.out| + Colours(ps))
  }

  /** The scanner has read some pieces, produced what they mean, and holds a draft. */
  ghost predicate Agrees(m: Scanner, fmt: Text, args: Args, colours: bool, ps: seq<Piece>, d: Draft) {
    && m.pos <= |fmt| && fmt[..m.pos] == SpellAll(ps) + DraftText(m.state, d)
    && AllFormed(ps, colours) && DraftOk(m.state, d) && Flags(m, d) && Produced(m, args, ps)
  }

  /** The scanner has stopped: its pieces and a tail are the whole format. */
  ghost predicate Stopped(m: Scanner, fmt: Text, args: Args, colours: bool, ps: seq<Piece>, tail: Text) {
    && fmt == SpellAll(ps) + tail && ReadPiece(tail, colours).None? && m.over == Overruns(tail, colours)
    && AllFormed(ps, colours) && Produced(m, args, ps)
  }

  lemma Low32Next(n: int, k: u32)
    requires k == Low32(n)
    ensures (k + 1) % 0x1_0000_0000 == Low32(n + 1)
  {
  }

  /** Completing a piece. */
  lemma Completed(m: Scanner, m': Scanner, fmt: Text, args: Args, colours: bool, ps: seq<Piece>, d: Draft, p: Piece)
    requires Agrees(m, fmt, args, colours, ps, d) && WellFormed(p, colours)
    requires m.pos < m'.pos <= |fmt| && DraftText(m.state, d) + fmt[m.pos..m'.pos] == Spell(p)
    requires m'.Reset() == m' && m'.out == m.out + Meaning(p, ArgAt(args, m.taken))
    requires m'.taken == m.taken + Takes(p)
    requires m'.count == Low32(|m'.out| + Colours(ps) + (if p.Colour? then 1 else 0))
    ensures Agrees(m', fmt, args, colours, ps + [p], BLANK)
  {
    hide Meaning, Takes, Spell, WellFormed, DraftText, Low32, SpellAll, Rendered, TakenBy, Colours, WidthOf, MayWidth, AllOf;
    CompletedText(fmt, m.pos, m'.pos, ps, DraftText(m.state, d), p);
    CompletedTotals(ps, p, args);
    EmptyDraft();
  }

  lemma CompletedText(fmt: Text, i: nat, j: nat, ps: seq<Piece>, t: Text, p: Piece)
    requires i <= j <= |fmt| && fmt[..i] == SpellAll(ps) + t && t + fmt[i..j] == Spell(p)
    ensures fmt[..j] == SpellAll(ps + [p])
  {
    hide Spell;
    assert Front(ps + [p]) == ps;
    assert fmt[..j] == fmt[..i] + fmt[i..j];
  }

  lemma CompletedTotals(ps: seq<Piece>, p: Piece, args: Args)
    ensures var all := ps + [p];
            && Rendered(all, args) == Rendered(ps, args) + Meaning(p, ArgAt(args, TakenBy(ps)))
            && TakenBy(all) == TakenBy(ps) + Takes(p) && Colours(all) == Colours(ps) + (if p.Colour? then 1 else 0)
  {
    hide Meaning, Takes;
    assert Front(ps + [p]) == ps;
  }

  lemma EmptyDraft()
    ensures DraftText(0, BLANK) == [] && DraftOk(0, BLANK) && WidthOf([]) == 0
  {
  }

  /** The draft with one more character read. */
  lemma Extended(m: Scanner, m': Scanner, fmt: Text, args: Args, colours: bool, ps: seq<Piece>, d: Draft, d': Draft)
    requires Agrees(m, fmt, args, colours, ps, d) && m.pos < |fmt|
    requires m'.pos == m.pos + 1 && m'.out == m.out && m'.taken == m.taken && m'.count == m.count
    requires DraftText(m.state, d) + [fmt[m.pos]] == DraftText(m'.state, d')
    requires DraftOk(m'.state, d') && Flags(m', d')
    ensures Agrees(m', fmt, args, colours, ps, d')
  {
    hide DraftText, DraftOk, Flags, Rendered, TakenBy, Colours, SpellAll, WellFormed, Low32;
    assert fmt[..m'.pos] == fmt[..m.pos] + [fmt[m.pos]];
  }

  method Echo(m: Scanner, c: byte) returns (m': Scanner)
    ensures m' == Emitted(m, [c])
  {
    m' := m.(out := m.out + [c], count := (m.count + 1) % 0x1_0000_0000);
  }

  /** State 0: a character outside any directive. */
  method AwaitPercent(m: Scanner, fmt: Text, ghost args: Args, ghost colours: bool, ghost ps: seq<Piece>)
    returns (m': Scanner, through: bool, ghost ps': seq<Piece>)
    requires Agrees(m, fmt, args, colours, ps, BLANK) && m.state == 0 && m.pos < |fmt| && !m.over
    ensures Agrees(m', fmt, args, colours, ps', BLANK) && m'.pos == m.pos + 1 && !m'.over
    ensures m'.state == (if through then 1 else 0)
  {
    hide Rendered, TakenBy, Colours, SpellAll, ReadPiece, Overruns;
    ghost var c := fmt[m.pos];
    if fmt[m.pos] != PERCENT {
      through := false;
      m' := Echo(m, fmt[m.pos]);
      m' := m'.(pos := m.pos + 1);
      ps' := ps + [Plain(c)];
      Low32Next(|m.out| + Colours(ps), m.count);
      Completed(m, m', fmt, args, colours, ps, BLANK, Plain(c));
    } else {
      through := true;
      m' := m.(state := 1, pos := m.pos + 1);
      ps' := ps;
      Extended(m, m', fmt, args, colours, ps, BLANK, BLANK);
    }
  }

  ghost predicate Bare(d: Draft) { !d.zeros && d.digits == [] && d.mods == [] }

  /** What the flag stage has made sure of about the character it leaves for later stages. */
  ghost predicate Checked(d: Draft, c: byte, colours: bool) {
    && (Bare(d) ==> c != PERCENT && c != MINUS && (colours ==> c != QUESTION))
    && (!d.zeros && d.digits == [] && d.mods == [] ==> c != ZERO)
  }

  /** What the width stage adds for the modifier stage. */
  ghost predicate CheckedWidth(d: Draft, c: byte, colours: bool) {
    (d.mods == [] ==> !IsDigit(c)) && (Bare(d) ==> c != PERCENT && c != MINUS && (colours ==> c != QUESTION))
  }

  /** The %? directive: two characters. */
  method TakeColour(m: Scanner, fmt: Text, ghost args: Args, ghost ps: seq<Piece>, ghost d: Draft)
    returns (m': Scanner, ghost ps': seq<Piece>, ghost tail: Text)
    requires Agrees(m, fmt, args, true, ps, d) && m.state == 1 && m.pos < |fmt| && fmt[m.pos] == QUESTION && !m.over
    ensures m'.over ==> Stopped(m', fmt, args, true, ps', tail)
    ensures !m'.over ==> Agrees(m', fmt, args, true, ps', BLANK) && m'.state == 0 && m'.pos > m.pos
  {
    hide Rendered, TakenBy, Colours, SpellAll, ReadPiece;
    if m.pos + 1 == |fmt| {
      m' := m.(over := true);
      ps', tail := ps, DraftText(1, d) + [QUESTION];
      QuestionTail(d);
      assert fmt == fmt[..m.pos] + [QUESTION];
    } else {
      ghost var p := Colour(d.left, fmt[m.pos + 1]);
      m' := m.(pos := m.pos + 2, count := (m.count + 1) % 0x1_0000_0000).Reset();
      ps', tail := ps + [p], [];
      Low32Next(|m.out| + Colours(ps), m.count);
      assert fmt[m.pos..m.pos + 2] == [QUESTION, fmt[m.pos + 1]];
      Completed(m, m', fmt, args, true, ps, d, p);
    }
  }

  lemma QuestionTail(d: Draft)
    requires DraftOk(1, d)
    ensures var t := DraftText(1, d) + [QUESTION]; Overruns(t, true) && ReadPiece(t, true).None?
  {
    hide ReadPiece;
    AfterPercent(d.left, [QUESTION], true);
    assert DraftText(1, d) + [QUESTION] == [PERCENT] + Dash(d.left) + [QUESTION];
  }

  lemma ZeroTail(d: Draft, colours: bool)
    requires DraftOk(2, d) && d.zeros && d.digits == []
    ensures var t := DraftText(2, d); Overruns(t, colours) && ReadPiece(t, colours).None?
  {
    hide ReadPiece, Run;
    AfterPercent(d.left, [ZERO], colours);
    var none: Text := [];
    ConversionSpelt(d.left, true, none, none, none);
    assert none + none + none == none && [ZERO][1..] == none;
    assert DraftText(2, d) == [PERCENT] + Dash(d.left) + [ZERO];
  }

  /** State 1: dash, zero, a second percent sign, or the %? directive. */
  method AwaitFlags(m: Scanner, fmt: Text, ghost args: Args, colours: bool, ghost ps: seq<Piece>, ghost d: Draft)
    returns (m': Scanner, through: bool, ghost ps': seq<Piece>, ghost d': Draft, ghost tail: Text)
    requires Agrees(m, fmt, args, colours, ps, d) && m.state == 1 && m.pos < |fmt| && !m.over
    ensures m'.over ==> Stopped(m', fmt, args, colours, ps', tail)
    ensures !m'.over ==> Agrees(m', fmt, args, colours, ps', d') && m'.pos >= m.pos
    ensures !m'.over && through ==> m'.state == 2 && m'.pos < |fmt| && d'.digits == [] && Checked(d', fmt[m'.pos], colours)
    ensures !m'.over && !through ==> m'.pos > m.pos && Between(m'.state, d')
  {
    hide Rendered, TakenBy, Colours, SpellAll, ReadPiece, Overruns;
    through, d', tail := false, BLANK, [];
    if fmt[m.pos] == QUESTION && colours {
      m', ps', tail := TakeColour(m, fmt, args, ps, d);
    } else if fmt[m.pos] == PERCENT {
      m', ps' := TakePercent(m, fmt, args, colours, ps, d);
    } else if fmt[m.pos] == MINUS {
      m', ps', d' := TakeDash(m, fmt, args, colours, ps, d);
    } else {
      m', ps', d', tail := TakeZero(m, fmt, args, colours, ps, d);
      through := true;
    }
  }

  method TakePercent(m: Scanner, fmt: Text, ghost args: Args, ghost colours: bool, ghost ps: seq<Piece>, ghost d: Draft)
    returns (m': Scanner, ghost ps': seq<Piece>)
    requires Agrees(m, fmt, args, colours, ps, d) && m.state == 1 && m.pos < |fmt| && fmt[m.pos] == PERCENT && !m.over
    ensures Agrees(m', fmt, args, colours, ps', BLANK) && m'.state == 0 && m'.pos == m.pos + 1 && !m'.over
  {
    hide Rendered, TakenBy, Colours, SpellAll;
    m' := Echo(m, fmt[m.pos]);
    m' := m'.(pos := m.pos + 1).Reset();
    ps' := ps + [Percent(d.left)];
    Low32Next(|m.out| + Colours(ps), m.count);
    assert fmt[m.pos..m.pos + 1] == [PERCENT];
    Completed(m, m', fmt, args, colours, ps, d, Percent(d.left));
  }

  method TakeDash(m: Scanner, fmt: Text, ghost args: Args, ghost colours: bool, ghost ps: seq<Piece>, ghost d: Draft)
    returns (m': Scanner, ghost ps': seq<Piece>, ghost d': Draft)
    requires Agrees(m, fmt, args, colours, ps, d) && m.state == 1 && m.pos < |fmt| && fmt[m.pos] == MINUS && !m.over
    ensures Agrees(m', fmt, args, colours, ps', d') && Between(m'.state, d') && m'.pos == m.pos + 1 && !m'.over
  {
    hide Rendered, TakenBy, Colours, SpellAll;
    if m.left {
      m' := m.(pos := m.pos + 1).Reset();
      ps', d' := ps + [DoubleDash], BLANK;
      assert fmt[m.pos..m.pos + 1] == [MINUS];
      Completed(m, m', fmt, args, colours, ps, d, DoubleDash);
    } else {
      m' := m.(left := true, pos := m.pos + 1);
      ps', d' := ps, d.(left := true);
      Extended(m, m', fmt, args, colours, ps, d, d');
    }
  }

  method TakeZero(m: Scanner, fmt: Text, ghost args: Args, ghost colours: bool, ghost ps: seq<Piece>, ghost d: Draft)
    returns (m': Scanner, ghost ps': seq<Piece>, ghost d': Draft, ghost tail: Text)
    requires Agrees(m, fmt, args, colours, ps, d) && m.state == 1 && m.pos < |fmt| && !m.over
    requires fmt[m.pos] != PERCENT && fmt[m.pos] != MINUS && (colours ==> fmt[m.pos] != QUESTION)
    ensures m'.over ==> Stopped(m', fmt, args, colours, ps', tail)
    ensures !m'.over ==> Agrees(m', fmt, args, colours, ps', d') && m'.pos >= m.pos && m'.state == 2
                         && m'.pos < |fmt| && d'.digits == [] && Checked(d', fmt[m'.pos], colours)
  {
    hide Rendered, TakenBy, Colours, SpellAll, ReadPiece, Overruns, Run;
    ps', tail := ps, [];
    if fmt[m.pos] == ZERO {
      m' := m.(state := 2, zeros := true, pos := m.pos + 1);
      d' := d.(zeros := true);
      Extended(m, m', fmt, args, colours, ps, d, d');
      if m'.pos == |fmt| {
        m' := m'.(over := true);
        tail := DraftText(2, d');
        ZeroTail(d', colours);
        assert fmt[..m'.pos] == fmt;
      }
    } else {
      m' := m.(state := 2);
      d' := d;
    }
  }

  lemma WidthGrows(digits: Text, c: byte)
    requires AllOf(digits, IsDigit) && IsDigit(c)
    ensures WidthOf(digits + [c]) == NextWidth(WidthOf(digits), c) && AllOf(digits + [c], IsDigit)
  {
    hide NextWidth;
    assert (digits + [c])[..|digits|] == digits;
  }

  /** State 2: the field width. */
  method AwaitWidth(m: Scanner, fmt: Text, ghost args: Args, ghost colours: bool, ghost ps: seq<Piece>, ghost d: Draft)
    returns (m': Scanner, through: bool, ghost d': Draft)
    requires Agrees(m, fmt, args, colours, ps, d) && m.state == 2 && m.pos < |fmt| && !m.over
    requires Checked(d, fmt[m.pos], colours)
    ensures Agrees(m', fmt, args, colours, ps, d') && !m'.over
    ensures through ==> m'.state == 3 && m'.pos == m.pos && CheckedWidth(d', fmt[m.pos], colours)
    ensures !through ==> m'.pos == m.pos + 1 && Between(m'.state, d')
  {
    hide Rendered, TakenBy, Colours, SpellAll, WidthOf, NextWidth;
    ghost var c := fmt[m.pos];
    if 48 <= fmt[m.pos] <= 57 {
      through := false;
      m' := m.(width := NextWidth(m.width, fmt[m.pos]), pos := m.pos + 1);
      d' := d.(digits := d.digits + [c]);
      WidthGrows(d.digits, c);
      Extended(m, m', fmt, args, colours, ps, d, d');
    } else {
      through := true;
      m' := m.(state := 3);
      d' := d;
    }
  }

  /** State 3: the modifiers. */
  method AwaitModifier(m: Scanner, fmt: Text, ghost args: Args, ghost colours: bool, ghost ps: seq<Piece>, ghost d: Draft)
    returns (m': Scanner, through: bool, ghost d': Draft)
    requires Agrees(m, fmt, args, colours, ps, d) && m.state == 3 && m.pos < |fmt| && !m.over
    requires CheckedWidth(d, fmt[m.pos], colours)
    ensures Agrees(m', fmt, args, colours, ps, d') && !m'.over && m'.state == 3
    ensures through ==> m' == m && d' == d && !IsModifier(fmt[m.pos])
    ensures !through ==> m'.pos == m.pos + 1 && d'.mods != []
  {
    hide Rendered, TakenBy, Colours, SpellAll, WidthOf;
    ghost var c := fmt[m.pos];
    m', through, d' := m, true, d;
    if fmt[m.pos] == 70 || fmt[m.pos] == 78 || fmt[m.pos] == 108 || fmt[m.pos] == 104 {
      through := false;
      m' := m.(long := m.long || fmt[m.pos] == 108, pos := m.pos + 1);
      d' := d.(mods := d.mods + [c]);
      Extended(m, m', fmt, args, colours, ps, d, d');
    }
  }

  // ---- Conversions ----

  /** The scanner after passing a text to the callback. */
  function Emitted(m: Scanner, t: Text): Scanner {
    m.(out := m.out + t, count := Low32(m.count + |t|))
  }

  lemma EmittedTwice(m: Scanner, a: Text, b: Text)
    ensures Emitted(Emitted(m, a), b) == Emitted(m, a + b)
  {
    assert m.out + a + b == m.out + (a + b);
  }

  lemma EmittedNone(m: Scanner)
    ensures Emitted(m, []) == m
  {
    assert m.out + [] == m.out;
  }

  /** Padding on the left. */
  method PadLeft(m: Scanner, c: byte, width: u32, size: u32) returns (m': Scanner, given: u32)
    ensures m' == Emitted(m, Repeat(c, width - size)) && given == (if width > size then size else width)
  {
    hide Emitted, Repeat;
    m', given := m, width;
    EmittedNone(m);
    assert Repeat(c, 0) == [];
    while given > size
      invariant given <= width && (given == width || given >= size)
      invariant m' == Emitted(m, Repeat(c, width - given))
    {
      m' := Echo(m', c);
      EmittedTwice(m, Repeat(c, width - given), [c]);
      given := given - 1;
      assert Repeat(c, width - given) == Repeat(c, width - given - 1) + [c];
    }
    assert width <= size ==> Repeat(c, width - size) == [];
  }

  method EmitBody(m: Scanner, body: Text) returns (m': Scanner)
    ensures m' == Emitted(m, body)
  {
    hide Emitted;
    m' := m;
    EmittedNone(m);
    var i := 0;
    while i < |body|
      invariant i <= |body| && m' == Emitted(m, body[..i])
    {
      m' := Echo(m', body[i]);
      EmittedTwice(m, body[..i], [body[i]]);
      i := i + 1;
      assert body[..i] == body[..i - 1] + [body[i - 1]];
    }
    assert body[..i] == body;
  }

  /** One field: sign, padding, text and padding in the order the flags call for. */
  method EmitField(m: Scanner, left: bool, zeros: bool, width: u32, negative: bool, size: u32, body: Text)
    returns (m': Scanner)
    ensures m' == Emitted(m, Field(left, zeros, width, negative, size, body))
  {
    hide Emitted, Repeat, Field;
    m' := m;
    var given := width;
    EmittedNone(m);
    ghost var f: Text := [];
    if negative && zeros {
      m' := Echo(m', MINUS);
      f := [MINUS];
    }
    ghost var sign := f;
    if !left {
      m', given := PadLeft(m', if zeros then ZERO else SPACE, given, size);
      EmittedTwice(m, f, Repeat(if zeros then ZERO else SPACE, width - size));
      f := f + Repeat(if zeros then ZERO else SPACE, width - size);
    }
    ghost var padded := f;
    if negative && !zeros {
      m' := Echo(m', MINUS);
      EmittedTwice(m, f, [MINUS]);
      f := f + [MINUS];
    }
    m' := EmitBody(m', body);
    EmittedTwice(m, f, body);
    f := f + body;
    given := if given < size then 0 else given - size;
    m', given := PadLeft(m', SPACE, given, 0);
    ghost var rest := Repeat(SPACE, if left then width - size else 0);
    assert width <= size ==> Repeat(SPACE, width - size) == Repeat(SPACE, 0);
    EmittedTwice(m, f, rest);
    FieldParts(left, zeros, width, negative, size, body, sign, padded, f + rest);
  }

  lemma FieldParts(left: bool, zeros: bool, width: u32, negative: bool, size: u32, body: Text,
                   sign: Text, padded: Text, f: Text)
    requires sign == (if negative && zeros then [MINUS] else [])
    requires padded == (if left then sign else sign + Repeat(if zeros then ZERO else SPACE, width - size))
    requires f == (if negative && !zeros then padded + [MINUS] else padded) + body
                  + Repeat(SPACE, if left then width - size else 0)
    ensures f == Field(left, zeros, width, negative, size, body)
  {
    hide Repeat;
  }

  /** A numeric conversion: load, take the sign off, convert in the buffer, emit. */
  method EmitNumber(m: Scanner, conv: byte, a: Arg) returns (m': Scanner)
    requires IsNumeric(conv)
    ensures m' == Emitted(m, Converted(m.left, m.zeros, m.width, m.long, conv, a))
  {
    hide Emitted, Field, Digits, RadixOf, Magnitude, ValueOf;
    var v := ValueOf(conv, m.long, a);
    var radix := RadixOf(conv);
    var num := Magnitude(v);
    var buf, pos := Convert(num, radix, conv == 88);
    var body := buf[pos..PR_BUFLEN - 1];
    m' := EmitField(m, m.left, m.zeros, m.width, v < 0, |body| + (if v < 0 then 1 else 0), body);
  }

  /** d, i and u print decimal, o octal, and X, x, n and p hexadecimal. Read in that base the text
      is the argument's word again, all of it for a long or a pointer and otherwise its low half,
      which d and i extend by its sign. */
  lemma ConversionReadsBack(left: bool, zeros: bool, width: u32, long: bool, conv: byte, a: Arg)
    requires IsNumeric(conv)
    ensures var base := match conv case 100 => 10 case 105 => 10 case 117 => 10 case 111 => 8 case _ => 16;
            var w := ParseUnsigned(Converted(left, zeros, width, long, conv, a), base).0;
            if long || conv == 112 then w == a.word
            else w % 0x1_0000_0000 == a.word % 0x1_0000_0000 &&
                 if conv == 100 || conv == 105 then w < 0x8000_0000 || w >= 0xFFFF_FFFF_8000_0000 else w < 0x1_0000_0000
  {
    hide ParseUnsigned, Number;
    var v := ValueOf(conv, long, a);
    NumberReadsBack(Magnitude(v), v < 0, RadixOf(conv), conv == 88, left, zeros, width);
    NegatedMagnitude(v);
    Halves(a.word);
    if long && (conv == 100 || conv == 105) {
      WordOfSigned(a.word);
    } else if !long && conv != 112 {
      WordOfHalf(a.word % 0x1_0000_0000);
    }
  }

  lemma Halves(word: u64)
    ensures 0 <= word % 0x1_0000_0000 < 0x1_0000_0000
    ensures word % 0x1_0000_0000_0000_0000 == word
  {
  }

  lemma WordOfSigned(word: u64)
    ensures Signed64(word) % 0x1_0000_0000_0000_0000 == word
  {
    DivModUnique(Signed64(word), TWO_64, if word < TWO_63 then 0 else -1, word);
  }

  lemma WordOfHalf(half: u32)
    ensures half % 0x1_0000_0000_0000_0000 == half && half % 0x1_0000_0000 == half
    ensures var w := Signed32(half) % 0x1_0000_0000_0000_0000;
            w % 0x1_0000_0000 == half && (w < 0x8000_0000 || w >= 0xFFFF_FFFF_8000_0000)
  {
    if half >= 0x8000_0000 {
      DivModUnique(Signed32(half), TWO_64, -1, half + 0xFFFF_FFFF_0000_0000);
      DivModUnique(half + 0xFFFF_FFFF_0000_0000, TWO_32, 0xFFFF_FFFF, half);
    }
  }

  lemma NegatedMagnitude(v: int)
    requires -TWO_63 <= v < TWO_64
    ensures Negated(Magnitude(v), v < 0) == v % 0x1_0000_0000_0000_0000
  {
    hide Magnitude;
    MagnitudeIs(v);
  }

  /** State 4: the conversion character. */
  method Conclude(m: Scanner, fmt: Text, args: Args, ghost colours: bool, ghost ps: seq<Piece>, ghost d: Draft)
    returns (m': Scanner, ghost ps': seq<Piece>)
    requires Agrees(m, fmt, args, colours, ps, d) && m.state == 3 && m.pos < |fmt| && !m.over
    requires CheckedWidth(d, fmt[m.pos], colours) && !IsModifier(fmt[m.pos])
    ensures Agrees(m', fmt, args, colours, ps', BLANK) && m'.state == 0 && !m'.over && m'.pos == m.pos + 1
  {
    hide Rendered, TakenBy, Colours, SpellAll, WidthOf, Converted, Low32;
    var conv := fmt[m.pos];
    ghost var p := Conversion(d.left, d.zeros, d.digits, d.mods, conv);
    var a := ArgAt(args, m.taken);
    m' := Perform(m, conv, a);
    ConvertedEmitted(m, m', |m.out| + Colours(ps), Converted(m.left, m.zeros, m.width, m.long, conv, a));
    m' := m'.(taken := m.taken + (if IsConversion(conv) then 1 else 0), pos := m.pos + 1).Reset();
    ps' := ps + [p];
    assert fmt[m.pos..m.pos + 1] == [conv];
    Completed(m, m', fmt, args, colours, ps, d, p);
  }

  lemma ConvertedEmitted(m: Scanner, m': Scanner, n: nat, t: Text)
    requires m' == Emitted(m, t) && m.count == Low32(n)
    ensures m'.count == Low32(n + |t|)
  {
  }

  method Perform(m: Scanner, conv: byte, a: Arg) returns (m': Scanner)
    ensures m' == Emitted(m, Converted(m.left, m.zeros, m.width, m.long, conv, a))
  {
    hide Emitted, Field;
    if IsNumeric(conv) {
      m' := EmitNumber(m, conv, a);
    } else if conv == 99 {
      m' := EmitField(m, m.left, false, m.width, false, 1, CharOf(a));
    } else if conv == 115 {
      m' := EmitField(m, m.left, false, m.width, false, |a.text| % 0x1_0000_0000, a.text);
    } else {
      m' := m;
      EmittedNone(m);
    }
  }

  /** One turn of the scanning loop, its cases falling through from state to state. */
  method Turn(m: Scanner, fmt: Text, args: Args, colours: bool, ghost ps: seq<Piece>, ghost d: Draft)
    returns (m': Scanner, ghost ps': seq<Piece>, ghost d': Draft, ghost tail: Text)
    requires Agrees(m, fmt, args, colours, ps, d) && Between(m.state, d) && m.pos < |fmt| && !m.over
    ensures m'.over ==> Stopped(m', fmt, args, colours, ps', tail)
    ensures !m'.over ==> Agrees(m', fmt, args, colours, ps', d') && Between(m'.state, d') && m'.pos > m.pos
  {
    hide Agrees, Stopped, WidthOf, Checked, CheckedWidth;
    m', ps', d', tail := m, ps, d, [];
    var through;
    StateRange(m', fmt, args, colours, ps', d');
    if m'.state == 0 {
      m', through, ps' := AwaitPercent(m', fmt, args, colours, ps');
      d' := BLANK;
      if !through {
        return;
      }
      PercentTail(m', fmt, args, colours, ps');
      if m'.pos == |fmt| {
        m', tail := m'.(over := true), [PERCENT];
        return;
      }
    }
    if m'.state == 1 {
      m', through, ps', d', tail := AwaitFlags(m', fmt, args, colours, ps', d');
      if m'.over || !through {
        return;
      }
    }
    CheckedMidway(m'.state, d', fmt[m'.pos], colours);
    if m'.state == 2 {
      m', through, d' := AwaitWidth(m', fmt, args, colours, ps', d');
      if !through {
        return;
      }
    }
    m', through, d' := AwaitModifier(m', fmt, args, colours, ps', d');
    if through {
      m', ps' := Conclude(m', fmt, args, colours, ps', d');
      d' := BLANK;
    }
  }

  lemma StateRange(m: Scanner, fmt: Text, args: Args, colours: bool, ps: seq<Piece>, d: Draft)
    requires Agrees(m, fmt, args, colours, ps, d)
    ensures m.state <= 3 && (m.state == 0 ==> d == BLANK)
  {
  }

  /** A directive under way has passed the earlier checks. */
  lemma CheckedMidway(state: nat, d: Draft, c: byte, colours: bool)
    ensures state == 2 && d.digits != [] ==> Checked(d, c, colours)
    ensures state == 3 && d.mods != [] ==> CheckedWidth(d, c, colours)
  {
  }

  lemma PercentTail(m: Scanner, fmt: Text, args: Args, colours: bool, ps: seq<Piece>)
    requires Agrees(m, fmt, args, colours, ps, BLANK) && m.state == 1
    ensures m.pos <= |fmt|
    ensures m.pos == |fmt| ==> Stopped(m.(over := true), fmt, args, colours, ps, [PERCENT])
  {
    hide SpellAll, Rendered, TakenBy, Colours, WellFormed, WidthOf;
    assert DraftText(1, BLANK) == [PERCENT];
    assert fmt[..|fmt|] == fmt;
    assert [PERCENT][1..] == [];
  }

  /** A draft left over at the end of the format is an unfinished directive. */
  lemma DraftUnfinished(state: nat, d: Draft, colours: bool)
    requires DraftOk(state, d) && Between(state, d)
    ensures var t := DraftText(state, d); ReadPiece(t, colours).None? && !Overruns(t, colours)
  {
    hide Run, ReadConversion, ReadPiece, ReadDirective, AllOf;
    var t := DraftText(state, d);
    ShortTails(colours);
    if state > 1 {
      var none: Text := [];
      var u := d.digits + d.mods + none;
      var z := Zero(d.zeros) + u;
      assert t == [PERCENT] + Dash(d.left) + z;
      ConversionSpelt(d.left, d.zeros, d.digits, d.mods, none);
      FirstOfDraft(d);
      DirectiveUnfinished(d.left, d.zeros, u, colours);
      AfterPercent(d.left, z, colours);
    } else if state == 1 {
      assert t == [PERCENT, MINUS];
    }
  }

  lemma ShortTails(colours: bool)
    ensures ReadPiece([], colours).None? && ReadPiece([PERCENT, MINUS], colours).None?
  {
    assert [PERCENT, MINUS][2..] == [];
  }

  lemma DirectiveUnfinished(dash: bool, zero: bool, u: Text, colours: bool)
    requires u != [] && (IsDigit(u[0]) || IsModifier(u[0])) && (!zero ==> u[0] != ZERO)
    ensures var t := Zero(zero) + u;
            && ReadDirective(dash, t, colours) == ReadConversion(dash, zero, u) && t[0] != MINUS
            && !Overruns([PERCENT] + Dash(dash) + t, colours)
  {
    hide ReadConversion, Overruns, AllOf, Run, Dash;
    var t := Zero(zero) + u;
    if zero {
      assert t[0] == ZERO && t[1..] == u;
    } else {
      assert t == u;
    }
    NotOverrunning(dash, t, colours);
  }

  lemma FirstOfDraft(d: Draft)
    requires MayWidth(d.zeros, d.digits) && AllOf(d.mods, IsModifier) && (d.digits != [] || d.mods != [])
    ensures var u := d.digits + d.mods + [];
            (IsDigit(u[0]) || IsModifier(u[0])) && (!d.zeros ==> u[0] != ZERO)
  {
    var u := d.digits + d.mods + [];
    assert u[0] == (if d.digits != [] then d.digits[0] else d.mods[0]);
  }

  lemma NotOverrunning(dash: bool, t: Text, colours: bool)
    requires t != [] && t[0] != QUESTION && t[0] != MINUS && (t[0] == ZERO ==> |t| > 1)
    ensures !Overruns([PERCENT] + Dash(dash) + t, colours)
  {
    var w := [PERCENT] + Dash(dash) + t;
    assert w[if dash then 2 else 1] == t[0] && |w| == |t| + (if dash then 2 else 1);
    assert dash ==> w[1] == MINUS;
  }

  /** `do_sprintf` and, without colours, `do_printf`: for every format whatever, the characters
      passed to the callback are those its pieces stand for, the arguments are taken in order,
      and the scanner leaves the string exactly on the overrunning tails, where nothing more is
      said of it. The count it returns counts a colour directive as a character. */
  method DoSprintf(fmt: Text, args: Args, colours: bool) returns (out: Text, count: u32, over: bool)
    ensures var (ps, tail) := Pieces(fmt, colours);
            && over == Overruns(tail, colours)
            && (!over ==> out == Rendered(ps, args) && count == Low32(|out| + Colours(ps)))
  {
    hide Agrees, Stopped, Pieces, Rendered, Colours, Overruns;
    var m := Scanner(0, false, false, false, 0, 0, [], 0, 0, false);
    ghost var ps: seq<Piece>, d, tail: Text := [], BLANK, [];
    Start(m, fmt, args, colours);
    while m.pos < |fmt| && !m.over
      invariant m.over ==> Stopped(m, fmt, args, colours, ps, tail)
      invariant !m.over ==> Agrees(m, fmt, args, colours, ps, d) && Between(m.state, d)
      decreases !m.over, |fmt| - m.pos
    {
      m, ps, d, tail := Turn(m, fmt, args, colours, ps, d);
    }
    if !m.over {
      tail := DraftText(m.state, d);
      Ended(m, fmt, args, colours, ps, d);
    }
    StoppedMeans(m, fmt, args, colours, ps, tail);
    out, count, over := m.out, m.count, m.over;
  }

  lemma Start(m: Scanner, fmt: Text, args: Args, colours: bool)
    requires m == Scanner(0, false, false, false, 0, 0, [], 0, 0, false)
    ensures Agrees(m, fmt, args, colours, [], BLANK)
  {
  }

  lemma Ended(m: Scanner, fmt: Text, args: Args, colours: bool, ps: seq<Piece>, d: Draft)
    requires Agrees(m, fmt, args, colours, ps, d) && Between(m.state, d) && m.pos >= |fmt| && !m.over
    ensures Stopped(m, fmt, args, colours, ps, DraftText(m.state, d))
  {
    hide ReadPiece, Overruns, DraftText, SpellAll, Rendered, TakenBy, Colours, WellFormed, WidthOf;
    DraftUnfinished(m.state, d, colours);
    assert fmt[..m.pos] == fmt;
  }

  lemma StoppedMeans(m: Scanner, fmt: Text, args: Args, colours: bool, ps: seq<Piece>, tail: Text)
    requires Stopped(m, fmt, args, colours, ps, tail)
    ensures Pieces(fmt, colours) == (ps, tail) && m.out == Rendered(ps, args)
    ensures m.count == Low32(|m.out| + Colours(ps)) && m.over == Overruns(tail, colours)
  {
    hide ReadPiece, Overruns, SpellAll, Rendered, TakenBy, Colours, WellFormed;
    PiecesUnique(ps, tail, colours);
  }

  // ---- Into a buffer ----

  function StoredLength(out: Text, n: nat): nat
    requires n > 0
  {
    if |out| < n then |out| else n - 1
  }

  /** Where the terminator goes: the result as an unsigned 64-bit length, cut to the buffer. */
  function Terminator(ret: int, n: nat): nat
    requires n > 0 && -0x8000_0000 <= ret
  {
    var t := if ret < 0 then ret + 0x1_0000_0000_0000_0000 else ret;
    if t >= n then n - 1 else t
  }

  function Stored(was: Text, out: Text, n: nat, ret: int): (b: Text)
    requires 0 < n <= |was| && -0x8000_0000 <= ret
    ensures |b| == |was|
  {
    var k := StoredLength(out, n);
    (out[..k] + was[k..])[Terminator(ret, n) := 0]
  }

  /** `vsnprintf_help`: one character for the buffer, while there is room for it and a NUL. */
  method Store(buffer: array<byte>, p: nat, left: nat, c: byte) returns (p': nat, left': nat)
    requires left > 1 ==> p < buffer.Length
    modifies buffer
    ensures left > 1 ==> p' == p + 1 && left' == left - 1 && buffer[..] == old(buffer[..])[p := c]
    ensures left <= 1 ==> p' == p && left' == left && buffer[..] == old(buffer[..])
  {
    p', left' := p, left;
    if left > 1 {
      buffer[p] := c;
      p', left' := p + 1, left - 1;
    }
  }

  method StoreAll(buffer: array<byte>, n: nat, out: Text)
    requires 0 < n <= buffer.Length
    modifies buffer
    ensures var k := StoredLength(out, n); buffer[..] == out[..k] + old(buffer[..])[k..]
  {
    var p, left := 0, n;
    ghost var was := buffer[..];
    var i := 0;
    while i < |out|
      invariant i <= |out| && p + left == n && left > 0
      invariant p == (if i < n then i else n - 1) && buffer[..] == out[..p] + was[p..]
    {
      ghost var now := buffer[..];
      p, left := Store(buffer, p, left, out[i]);
      if i < n - 1 {
        OneMore(out, was, i);
      }
      i := i + 1;
    }
  }

  lemma OneMore(out: Text, was: Text, p: nat)
    requires p < |out| && p < |was|
    ensures (out[..p] + was[p..])[p := out[p]] == out[..p + 1] + was[p + 1..]
  {
  }

  /** `vsnprintf`, into a buffer or, for the length alone, nowhere. */
  method VsnPrintf(buffer: array?<byte>, n: nat, fmt: Text, args: Args) returns (ret: i32, over: bool)
    requires buffer != null ==> n <= buffer.Length
    modifies buffer
    ensures var (ps, tail) := Pieces(fmt, true);
            var out := Rendered(ps, args);
            && over == Overruns(tail, true)
            && (!over ==> ret == Signed32(Low32(|out| + Colours(ps))))
            && (!over && buffer != null && n > 0 ==> buffer[..] == Stored(old(buffer[..]), out, n, ret))
            && (!over && buffer != null && n == 0 ==> buffer[..] == old(buffer[..]))
  {
    hide Pieces, Rendered, Colours, Overruns, Low32;
    var out, count;
    out, count, over := DoSprintf(fmt, args, true);
    ret := Signed32(count);
    if buffer != null && n > 0 && !over {
      StoreAll(buffer, n, out);
      buffer[Terminator(ret, n)] := 0;
    }
  }

  lemma {:induction false} ColoursIff(ps: seq<Piece>)
    ensures Colours(ps) == 0 <==> forall p :: p in ps ==> !p.Colour?
  {
    if ps != [] {
      ColoursIff(Front(ps));
      assert ps == Front(ps) + [ps[|ps| - 1]];
    }
  }

  /** The value returned is the length of the text just when there is no colour directive. */
  lemma ReturnsLengthIff(ps: seq<Piece>, args: Args)
    requires |Rendered(ps, args)| + Colours(ps) < 0x8000_0000
    ensures Signed32(Low32(|Rendered(ps, args)| + Colours(ps))) == |Rendered(ps, args)|
            <==> forall p :: p in ps ==> !p.Colour?
  {
    hide Rendered, Colours, Low32, Signed32;
    ColoursIff(ps);
    SmallCount(|Rendered(ps, args)| + Colours(ps));
  }

  lemma SmallCount(n: nat)
    requires n < 0x8000_0000
    ensures Signed32(Low32(n)) == n
  {
  }

  /** Then the buffer holds as much of the text as fits, and a NUL. */
  lemma StoredIsPrefix(was: Text, out: Text, n: nat)
    requires 0 < n <= |was| && |out| < 0x8000_0000
    ensures var k := StoredLength(out, n);
            Stored(was, out, n, |out|)[..k + 1] == out[..k] + [0] && Stored(was, out, n, |out|)[k + 1..] == was[k + 1..]
  {
  }

  // ---- To the console ----

  lemma FormedWithoutColours(p: Piece)
    requires WellFormed(p, true) && !p.Colour?
    ensures WellFormed(p, false)
  {
  }

  lemma TailWithoutColours(t: Text)
    requires ReadPiece(t, true).None? && !Overruns(t, true)
    ensures ReadPiece(t, false).None? && !Overruns(t, false)
  {
    if |t| > 1 && t[0] == PERCENT {
      var dash := t[1] == MINUS;
      var u := if dash then t[2..] else t[1..];
      assert u != [] && u[0] == QUESTION && |u| == 1 ==> t == [PERCENT] + Dash(dash) + [QUESTION];
    }
  }

  /** Both scanners read a format without colour directives alike. */
  lemma ScannersAgree(fmt: Text)
    requires var (ps, tail) := Pieces(fmt, true);
             (forall p :: p in ps ==> !p.Colour?) && !Overruns(tail, true)
    ensures Pieces(fmt, false) == Pieces(fmt, true) && !Overruns(Pieces(fmt, true).1, false)
  {
    hide Pieces, ReadPiece, Overruns, SpellAll, WellFormed;
    var (ps, tail) := Pieces(fmt, true);
    PiecesSpell(fmt, true);
    TailWithoutColours(tail);
    forall i | 0 <= i < |ps|
      ensures WellFormed(ps[i], false)
    {
      FormedWithoutColours(ps[i]);
    }
    PiecesUnique(ps, tail, false);
  }

  /** A format that they do not: to the one scanner a colour, to the other nothing and a letter. */
  lemma ScannersDisagree()
    ensures Pieces([PERCENT, QUESTION, 114], true) == ([Colour(false, 114)], [])
    ensures Pieces([PERCENT, QUESTION, 114], false) == ([Conversion(false, false, [], [], QUESTION), Plain(114)], [])
  {
    hide Pieces;
    var fmt: Text := [PERCENT, QUESTION, 114];
    var none: Text := [];
    var a, b := [Colour(false, 114)], [Conversion(false, false, none, none, QUESTION), Plain(114)];
    assert Front(a) == [] && SpellAll(a) == fmt;
    assert Front(b) == [b[0]] && Front([b[0]]) == [];
    assert SpellAll([b[0]]) == [PERCENT, QUESTION] && SpellAll(b) == fmt;
    PiecesUnique(a, none, true);
    PiecesUnique(b, none, false);
    assert fmt + none == fmt;
  }

  /** `sdk_vprint`: from a stack buffer, from the heap, or character by character when the heap
      has no room. `room` is the heap's answer. The first two send the text and, for each colour
      directive, one byte of what the buffer held before; the third sends what the other scanner
      makes of the format. Without colour directives all three send the same bytes. */
  method VPrint(fmt: Text, args: Args, room: bool) returns (ret: i32, sent: Text, over: bool)
    ensures var (ps, tail) := Pieces(fmt, true);
            var out := Rendered(ps, args);
            !Overruns(tail, true) && (forall p :: p in ps ==> !p.Colour?) && |out| < 0x8000_0000
            ==> !over && sent == out && ret == |out|
    ensures var (ps, tail) := Pieces(fmt, true);
            var out := Rendered(ps, args);
            var total := |out| + Colours(ps);
            !Overruns(tail, true) && total < 0x8000_0000 && (total < 1024 || room)
            ==> !over && ret == |sent| == total && sent[..|out|] == out
    ensures var (ps, tail) := Pieces(fmt, true);
            var total := |Rendered(ps, args)| + Colours(ps);
            var (qs, end) := Pieces(fmt, false);
            !Overruns(tail, true) && 1024 <= total < 0x8000_0000 && !room
            ==> over == Overruns(end, false) && (!over ==> sent == Rendered(qs, args))
  {
    hide Pieces, Rendered, Colours, Overruns, Stored, Low32, Signed32;
    ghost var ps, tail := Pieces(fmt, true).0, Pieces(fmt, true).1;
    ghost var out := Rendered(ps, args);
    ghost var total := |out| + Colours(ps);
    ghost var small := !Overruns(tail, true) && total < 0x8000_0000;
    ghost var fine := !Overruns(tail, true) && (forall p :: p in ps ==> !p.Colour?) && |out| < 0x8000_0000;
    FinePrint(small, fine, ps, args);
    var buf := new byte[1024];
    sent := [];
    ghost var was := buf[..];
    ret, over := VsnPrintf(buf, 1024, fmt, args);
    if over || ret < 0 {
      return;
    }
    if ret < 1024 {
      sent := buf[..ret];
      Whole(small, was, buf[..], out, 1024, ret);
    } else if !room {
      if fine {
        ScannersAgree(fmt);
        SmallCount(|out|);
      }
      var count;
      sent, count, over := DoSprintf(fmt, args, false);
      ret := Signed32(count);
    } else {
      var n: nat := ret;
      var big := new byte[n + 1];
      ghost var heap := big[..];
      var _, _ := VsnPrintf(big, n + 1, fmt, args);
      sent := big[..n];
      Whole(small, heap, big[..], out, n + 1, n);
    }
  }

  lemma FinePrint(small: bool, fine: bool, ps: seq<Piece>, args: Args)
    requires small ==> |Rendered(ps, args)| + Colours(ps) < 0x8000_0000
    requires fine ==> (forall p :: p in ps ==> !p.Colour?) && |Rendered(ps, args)| < 0x8000_0000
    ensures fine ==> Colours(ps) == 0
    ensures small || fine ==>
              Signed32(Low32(|Rendered(ps, args)| + Colours(ps))) == |Rendered(ps, args)| + Colours(ps)
  {
    hide Rendered, Colours, Low32, Signed32;
    ColoursIff(ps);
    if small || fine {
      SmallCount(|Rendered(ps, args)| + Colours(ps));
    }
  }

  lemma Whole(small: bool, was: Text, now: Text, out: Text, n: nat, ret: int)
    requires 0 <= ret < n <= |was| && now == Stored(was, out, n, ret) && (small ==> |out| <= ret)
    ensures small ==> now[..ret][..|out|] == out
  {
  }
}
