/** The System V va_list walker of TinyCC: register save area first, then the overflow
    area on the stack. */
module VaList {
  import opened Words

  datatype ArgType = GenReg | FloatReg | Stack

  /** One `va_arg`: its class, size and alignment as the compiler passes them. */
  datatype Request = Request(kind: ArgType, size: nat, align: nat)

  /** The bytes a caller reads: as many as the argument is long, from the address it is given. */
  datatype Slot = Slot(address: nat, length: nat)

  const REGS_END := 48
  const FLOATS_END := 176

  /** `(x + 7) & ~7`, in 64 bits. */
  function RoundUp8(x: nat): nat { BitAnd(x + 7, 0xFFFF_FFFF_FFFF_FFF8) }

  /** `(p + align - 1) & -align`, in 64 bits. */
  function AlignUp(p: nat, align: nat): nat
    requires 0 < align <= TWO_64
  {
    BitAnd(p + align - 1, TWO_64 - align)
  }

  /** The least multiple of `a` that is not below `p`. */
  function Ceiling(p: nat, a: nat): (c: nat)
    requires a > 0
    ensures c >= p && c < p + a && c % a == 0
  {
    CeilingFits(p, a);
    p + a - 1 - (p + a - 1) % a
  }

  lemma CeilingFits(p: nat, a: nat)
    requires a > 0
    ensures (p + a - 1 - (p + a - 1) % a) % a == 0
  {
    var x := p + a - 1;
    DivModUnique(x - x % a, a, x / a, 0);
  }

  lemma CeilingUnique(p: nat, a: nat, c: nat)
    requires a > 0 && p <= c < p + a && c % a == 0
    ensures c == Ceiling(p, a)
  {
    var d := Ceiling(p, a);
    var k := c / a - d / a;
    assert c - d == k * a by {
      assert c == a * (c / a) && d == a * (d / a);
      MulDistributes(c / a, d / a, a);
    }
    if k >= 1 { MulMonotone(1, k, a); }
    if k <= -1 { MulMonotone(k, -1, a); }
  }

  lemma RoundUp8IsCeiling(x: nat)
    requires x + 7 < TWO_64
    ensures RoundUp8(x) == Ceiling(x, 8)
  {
    Pow2Of16();
    Pow2Of64();
    AndRoundsDown(x + 7, 3, 64);
  }

  lemma AlignUpIsCeiling(p: nat, k: nat)
    requires k <= 63 && p + Pow2(k) <= TWO_64
    ensures Pow2(k) <= TWO_64 && AlignUp(p, Pow2(k)) == Ceiling(p, Pow2(k))
  {
    Pow2Of64();
    Pow2Monotone(k, 64);
    AndRoundsDown(p + Pow2(k) - 1, k, 64);
  }

  // ---- The walk ----

  datatype Va = Va(gp: nat, fp: nat, overflow: nat, save: nat)

  /** What the prologue leaves: offsets within their parts of the 176-byte save area,
      and the overflow area above it. */
  ghost predicate VaOk(va: Va) {
    && va.gp <= REGS_END <= va.fp <= FLOATS_END && va.fp % 16 == 0
    && va.save + FLOATS_END <= va.overflow < TWO_63
  }

  /** Requests the compiler makes: alignment a power of two, sizes far below 2^31, and no
      floating-point class for more than 16 bytes. */
  ghost predicate Proper(r: Request) {
    && r.size <= 0x4000_0000 && (r.kind == FloatReg ==> r.size <= 16)
    && exists k: nat :: k <= 30 && r.align == Pow2(k)
  }

  /** The alignment that reaches the walk: at least 8, and still a power of two. */
  lemma RoundedAlign(r: Request) returns (k: nat)
    requires Proper(r)
    ensures 3 <= k <= 30 && RoundUp8(r.align) == Pow2(k) && Pow2(k) <= 0x4000_0000
    ensures r.align >= 8 ==> RoundUp8(r.align) == r.align
    ensures RoundUp8(r.size) == Ceiling(r.size, 8) <= 0x4000_0000 && (r.kind == FloatReg ==> r.size <= 16)
  {
    var j: nat :| j <= 30 && r.align == Pow2(j);
    assert Pow2(30) == 0x4000_0000 by { Pow2Of32(); assert Pow2(31) == 2 * Pow2(30); }
    Pow2Monotone(j, 30);
    RoundUp8IsCeiling(r.align);
    RoundUp8IsCeiling(r.size);
    CeilingBelow(r.size, 8, 0x4000_0000);
    if j < 3 {
      k := 3;
      SmallAlign(j);
    } else {
      k := j;
      AlignedIsCeiling(j);
    }
    Pow2Monotone(k, 30);
  }

  lemma CeilingBelow(p: nat, a: nat, c: nat)
    requires a > 0 && p <= c && c % a == 0
    ensures Ceiling(p, a) <= c
  {
    if Ceiling(p, a) > c { CeilingUnique(p, a, c); }
  }

  lemma SmallAlign(j: nat)
    requires j < 3
    ensures Ceiling(Pow2(j), 8) == 8 == Pow2(3)
  {
    hide Ceiling;
    assert Pow2(0) == 1 && Pow2(1) == 2 && Pow2(2) == 4 && Pow2(3) == 8;
    CeilingUnique(Pow2(j), 8, 8);
  }

  lemma AlignedIsCeiling(j: nat)
    requires j >= 3
    ensures Ceiling(Pow2(j), 8) == Pow2(j)
  {
    hide Ceiling;
    var q := Pow2(j - 3);
    assert Pow2(j) == q * 8 by { Pow2Add(j - 3, 3); }
    MultipleIsCeiling(q, 8);
  }

  lemma MultipleIsCeiling(q: nat, a: nat)
    requires a > 0
    ensures Ceiling(q * a, a) == q * a
  {
    hide Ceiling;
    DivModUnique(q * a, a, q, 0);
    CeilingUnique(q * a, a, q * a);
  }

  /** No register is left for the argument. */
  predicate Spills(va: Va, r: Request) {
    match r.kind
    case GenReg => va.gp + RoundUp8(r.size) > REGS_END
    case FloatReg => va.fp >= FLOATS_END
    case Stack => true
  }

  /** What the overflow area sets aside for an argument: 8 bytes for a floating-point one,
      however long it is. */
  function Room(r: Request): nat { if r.kind == FloatReg then 8 else RoundUp8(r.size) }

  /** `__va_arg` */
  ghost function Arg(va: Va, r: Request): (Va, Slot)
    requires Proper(r)
  {
    ProperAlign(r);
    if !Spills(va, r) then
      if r.kind == GenReg then (va.(gp := va.gp + RoundUp8(r.size)), Slot(va.save + va.gp, r.size))
      else (va.(fp := va.fp + 16), Slot(va.save + va.fp, r.size))
    else
      var end := AlignUp(va.overflow + Room(r), RoundUp8(r.align));
      (va.(overflow := end), Slot(if Room(r) <= end then end - Room(r) else 0, r.size))
  }

  lemma ProperAlign(r: Request)
    requires Proper(r)
    ensures 0 < RoundUp8(r.align) <= TWO_64
  {
    var _ := RoundedAlign(r);
  }

  /** A spilled argument, in terms of the next multiple of its alignment. */
  lemma SpilledArg(va: Va, r: Request)
    requires VaOk(va) && Proper(r) && va.overflow < 0x4000_0000_0000_0000 && Spills(va, r)
    ensures RoundUp8(r.align) > 0 && RoundUp8(r.align) % 8 == 0 && RoundUp8(r.align) <= 0x4000_0000
    ensures r.size <= RoundUp8(r.size) <= 0x4000_0000
    ensures var end := Ceiling(va.overflow + Room(r), RoundUp8(r.align));
            Arg(va, r) == (va.(overflow := end), Slot(end - Room(r), r.size))
  {
    hide RoundUp8, AlignUp, Ceiling, Pow2, Proper, Spills;
    var k := RoundedAlign(r);
    MultipleOf8(k);
    AlignUpIsCeiling(va.overflow + Room(r), k);
  }

  lemma MultipleOf8(k: nat)
    requires k >= 3
    ensures Pow2(k) % 8 == 0
  {
    Pow2Add(3, k - 3);
    Pow2Of16();
    DivModUnique(Pow2(k), 8, Pow2(k - 3), 0);
  }

  /** Bytes that no later argument can be given. */
  predicate Used(va: Va, s: Slot) {
    || s.length == 0
    || (va.save <= s.address && s.address + s.length <= va.save + va.gp)
    || (va.save + REGS_END <= s.address && s.address + s.length <= va.save + va.fp)
    || (va.save + FLOATS_END <= s.address && s.address + s.length <= va.overflow)
  }

  predicate Disjoint(s: Slot, t: Slot) {
    s.length == 0 || t.length == 0 || s.address + s.length <= t.address || t.address + t.length <= s.address
  }

  lemma FloatRoom(fp: nat)
    requires fp % 16 == 0
    ensures (fp + 16) % 16 == 0 && (fp < FLOATS_END ==> fp + 16 <= FLOATS_END)
  {
  }

  /** The bytes read are among those set aside. */
  predicate Snug(fp: nat, r: Request) { r.kind == FloatReg && fp >= FLOATS_END ==> r.size <= 8 }

  /** Each argument keeps the offsets in range and is read from bytes not used so far; what is
      used stays used, and the argument's bytes are used up if they fit what was set aside. */
  lemma ArgIsFresh(va: Va, r: Request, s: Slot)
    requires VaOk(va) && Proper(r) && va.overflow < 0x4000_0000_0000_0000
    ensures var (va', t) := Arg(va, r);
            && VaOk(va') && va.overflow <= va'.overflow <= va.overflow + 0x8000_0000
            && va'.fp == (if r.kind == FloatReg && va.fp < FLOATS_END then va.fp + 16 else va.fp)
            && (Snug(va.fp, r) ==> Used(va', t))
            && (Used(va, s) ==> Used(va', s) && Disjoint(s, t))
  {
    hide RoundUp8, AlignUp, Ceiling, Pow2, Proper;
    var k := RoundedAlign(r);
    FloatRoom(va.fp);
    if Spills(va, r) { SpilledArg(va, r); }
  }

  /** The two arguments are read from different bytes, the second asked for right after the first. */
  ghost predicate Clear(va: Va, r: Request, next: Request)
    requires Proper(r) && Proper(next)
  {
    var (va', s) := Arg(va, r);
    Disjoint(s, Arg(va', next).1)
  }

  /** A floating-point argument of more than 8 bytes in the overflow area is read into the
      argument behind it. */
  lemma SpilledPairOverlaps(va: Va, r: Request)
    requires VaOk(va) && Proper(r) && va.overflow < 0x2000_0000_0000_0000 && !Snug(va.fp, r)
    ensures Proper(Request(Stack, 8, 8))
    ensures var (va', s) := Arg(va, r);
            var t := Arg(va', Request(Stack, 8, 8)).1;
            s.address < t.address == s.address + 8 < s.address + s.length && t.length == 8
  {
    hide RoundUp8, AlignUp, Ceiling;
    var word := Request(Stack, 8, 8);
    WordIsProper();
    SpilledArg(va, r);
    ArgIsFresh(va, r, Slot(0, 0));
    var va' := Arg(va, r).0;
    SpilledArg(va', word);
    MultipleDivides(va'.overflow, RoundUp8(r.align));
    CeilingUnique(va'.overflow + 8, 8, va'.overflow + 8);
  }

  lemma WordIsProper()
    ensures Proper(Request(Stack, 8, 8)) && RoundUp8(8) == 8
  {
    Pow2Of16();
    assert Pow2(3) == 8;
    RoundUp8IsCeiling(8);
    CeilingUnique(8, 8, 8);
  }

  lemma MultipleDivides(x: nat, a: nat)
    requires a > 0 && a % 8 == 0 && x % a == 0
    ensures x % 8 == 0 && (x + 8) % 8 == 0
  {
    MulAssociative(x / a, a / 8, 8);
    DivModUnique(x, 8, x / a * (a / 8), 0);
    DivModUnique(x + 8, 8, x / a * (a / 8) + 1, 0);
  }

  /** No argument that could come next shares a byte with this one, if and only if this one
      fits what was set aside for it. */
  lemma ClearIff(va: Va, r: Request)
    requires VaOk(va) && Proper(r) && va.overflow < 0x2000_0000_0000_0000
    ensures Snug(va.fp, r) <==> forall next :: Proper(next) ==> Clear(va, r, next)
  {
    hide RoundUp8, AlignUp, Ceiling, Proper, VaOk, Used, Arg;
    ArgIsFresh(va, r, Slot(0, 0));
    var (va', s) := Arg(va, r);
    if Snug(va.fp, r) {
      forall next | Proper(next)
        ensures Clear(va, r, next)
      {
        ArgIsFresh(va', next, s);
      }
    } else {
      SpilledPairOverlaps(va, r);
      assert !Clear(va, r, Request(Stack, 8, 8));
    }
  }

  /** In the overflow area the code aligns the end of the argument, the ABI its start:
      the two agree exactly when the size is a multiple of the alignment. */
  lemma EndAlignedIff(p: nat, s: nat, a: nat)
    requires a > 0
    ensures Ceiling(p + s, a) - s == Ceiling(p, a) <==> s % a == 0
  {
    var c := Ceiling(p, a);
    if s % a == 0 {
      SumAligned(c, s, a);
      CeilingUnique(p + s, a, c + s);
    } else if Ceiling(p + s, a) - s == c {
      DifferenceAligned(c + s, c, a);
    }
  }

  lemma SumAligned(c: int, s: int, a: nat)
    requires a > 0 && c % a == 0 && s % a == 0
    ensures (c + s) % a == 0
  {
    MulDistributes(c / a, s / a, a);
    DivModUnique(c + s, a, c / a + s / a, 0);
  }

  lemma DifferenceAligned(x: int, c: int, a: nat)
    requires a > 0 && x % a == 0 && c % a == 0
    ensures (x - c) % a == 0
  {
    MulDistributes(x / a, c / a, a);
    DivModUnique(x - c, a, x / a - c / a, 0);
  }

  /** A spilled argument starts where section 3.5.7 of the System V AMD64 ABI puts it, if and
      only if what is set aside for it is a multiple of its alignment. */
  lemma OverflowSlotIff(va: Va, r: Request)
    requires VaOk(va) && Proper(r) && va.overflow < 0x4000_0000_0000_0000 && Spills(va, r)
    ensures RoundUp8(r.align) > 0
    ensures Arg(va, r).1.address == Ceiling(va.overflow, RoundUp8(r.align)) <==> Room(r) % RoundUp8(r.align) == 0
  {
    hide RoundUp8, AlignUp, Ceiling, Pow2, Proper, Arg, Spills;
    SpilledArg(va, r);
    EndAlignedIff(va.overflow, Room(r), RoundUp8(r.align));
  }

  /** One that is not: a structure of two doubles aligned to 16 bytes, with the floating-point
      registers used up, is looked for 8 bytes too far. */
  lemma AlignedPairMisplaced(va: Va)
    requires VaOk(va) && va.overflow < 0x4000_0000_0000_0000 && va.fp == FLOATS_END && va.overflow % 16 == 0
    ensures var r := Request(FloatReg, 16, 16);
            Proper(r) && Arg(va, r).1.address == va.overflow + 8 && Ceiling(va.overflow, 16) == va.overflow
  {
    hide RoundUp8, AlignUp, Ceiling, Pow2;
    var r := Request(FloatReg, 16, 16);
    Pow2Of16();
    assert r.align == Pow2(4);
    RoundUp8IsCeiling(16);
    CeilingUnique(16, 8, 16);
    SpilledArg(va, r);
    CeilingUnique(va.overflow, 16, va.overflow);
    CeilingUnique(va.overflow + 8, 16, va.overflow + 16);
  }

  // ---- Whole runs ----

  ghost predicate AllProper(rs: seq<Request>) { forall i :: 0 <= i < |rs| ==> Proper(rs[i]) }

  /** Every argument fits what is set aside for it: once the floating-point registers are
      counted off, no floating-point argument is longer than 8 bytes. */
  predicate AllSnug(fp: nat, rs: seq<Request>)
    decreases |rs|
  {
    rs == [] ||
    (Snug(fp, rs[0]) && AllSnug(if rs[0].kind == FloatReg && fp < FLOATS_END then fp + 16 else fp, rs[1..]))
  }

  /** Whatever is asked for right after any of the arguments shares no byte with it. */
  ghost predicate AlwaysClear(va: Va, rs: seq<Request>)
    requires AllProper(rs)
    decreases |rs|
  {
    rs == [] ||
    ((forall next :: Proper(next) ==> Clear(va, rs[0], next)) && AlwaysClear(Arg(va, rs[0]).0, rs[1..]))
  }

  ghost function Walk(va: Va, rs: seq<Request>): (slots: seq<Slot>)
    requires AllProper(rs)
    ensures |slots| == |rs|
    decreases |rs|
  {
    if rs == [] then []
    else
      var (va', s) := Arg(va, rs[0]);
      [s] + Walk(va', rs[1..])
  }

  lemma {:induction false} WalkAvoids(va: Va, rs: seq<Request>, s: Slot)
    requires VaOk(va) && AllProper(rs) && va.overflow + |rs| * 0x8000_0000 < 0x2000_0000_0000_0000
    requires Used(va, s)
    ensures forall i :: 0 <= i < |rs| ==> Disjoint(s, Walk(va, rs)[i])
    decreases |rs|
  {
    hide Arg, RoundUp8, VaOk, Used, Disjoint, Proper;
    if rs != [] {
      ArgIsFresh(va, rs[0], s);
      var va' := Arg(va, rs[0]).0;
      WalkAvoids(va', rs[1..], s);
    }
  }

  /** Over any sequence of arguments that fit, no two are read from the same bytes. */
  lemma {:induction false} WalkIsDisjoint(va: Va, rs: seq<Request>, i: nat, j: nat)
    requires VaOk(va) && AllProper(rs) && va.overflow + |rs| * 0x8000_0000 < 0x2000_0000_0000_0000
    requires AllSnug(va.fp, rs) && i < j < |rs|
    ensures Disjoint(Walk(va, rs)[i], Walk(va, rs)[j])
    decreases |rs|
  {
    hide Arg, RoundUp8, VaOk, Used, Disjoint, Proper;
    ArgIsFresh(va, rs[0], Slot(0, 0));
    var (va', s) := Arg(va, rs[0]);
    if i == 0 {
      WalkAvoids(va', rs[1..], s);
    } else {
      WalkIsDisjoint(va', rs[1..], i - 1, j - 1);
    }
  }

  /** And exactly for those is every argument clear of whatever may follow it. */
  lemma {:induction false} AlwaysClearIff(va: Va, rs: seq<Request>)
    requires VaOk(va) && AllProper(rs) && va.overflow + |rs| * 0x8000_0000 < 0x2000_0000_0000_0000
    ensures AllSnug(va.fp, rs) <==> AlwaysClear(va, rs)
    decreases |rs|
  {
    hide Arg, RoundUp8, VaOk, Used, Disjoint, Proper, Clear, Snug;
    if rs != [] {
      ClearIff(va, rs[0]);
      ArgIsFresh(va, rs[0], Slot(0, 0));
      AlwaysClearIff(Arg(va, rs[0]).0, rs[1..]);
    }
  }

  // ---- Scalar arguments ----

  /** An argument of one word or one double. */
  ghost predicate Scalar(r: Request) {
    (r.kind == GenReg || r.kind == FloatReg) && 0 < r.size <= 8 && r.align in {1, 2, 4, 8}
  }

  ghost predicate AllScalar(rs: seq<Request>) { forall i :: 0 <= i < |rs| ==> Scalar(rs[i]) }

  lemma ScalarIsProper(r: Request)
    requires Scalar(r)
    ensures Proper(r) && RoundUp8(r.size) == 8 && RoundUp8(r.align) == 8
  {
    hide Ceiling, RoundUp8;
    assert Pow2(0) == 1 && Pow2(1) == 2 && Pow2(2) == 4 && Pow2(3) == 8;
    RoundUp8IsCeiling(r.size);
    RoundUp8IsCeiling(r.align);
    CeilingUnique(r.size, 8, 8);
    CeilingUnique(r.align, 8, 8);
  }

  lemma ScalarsAreProper(rs: seq<Request>)
    requires AllScalar(rs)
    ensures AllProper(rs)
  {
    forall i | 0 <= i < |rs|
      ensures Proper(rs[i])
    {
      ScalarIsProper(rs[i]);
    }
  }

  function Count(rs: seq<Request>, kind: ArgType): nat {
    if rs == [] then 0 else (if rs[0].kind == kind then 1 else 0) + Count(rs[1..], kind)
  }

  function WordsLeft(va: Va): int { (48 - va.gp) / 8 }

  function DoublesLeft(va: Va): int { (176 - va.fp) / 16 }

  lemma RegistersLeft(va: Va)
    requires Aligned(va)
    ensures va.gp == 48 - 8 * WordsLeft(va) && WordsLeft(va) >= 0
    ensures va.fp == 176 - 16 * DoublesLeft(va) && DoublesLeft(va) >= 0
  {
    var g, f := 48 - va.gp, 176 - va.fp;
    DivModUnique(g, 8, 6 - va.gp / 8, 0);
    DivModUnique(f, 16, 11 - va.fp / 16, 0);
  }

  /** Where section 3.5.7 of the System V AMD64 ABI puts a scalar that comes after g words and
      f doubles: six words and eight doubles are in the save area, less those taken by named
      parameters, and the rest lie one after the other in the overflow area. */
  function AbiAddress(va: Va, kind: ArgType, g: nat, f: nat): nat {
    var words, doubles := WordsLeft(va), DoublesLeft(va);
    if kind == GenReg && g < words then va.save + va.gp + 8 * g
    else if kind == FloatReg && f < doubles then va.save + va.fp + 16 * f
    else va.overflow + 8 * ((if g > words then g - words else 0) + (if f > doubles then f - doubles else 0))
  }

  ghost predicate Aligned(va: Va) { VaOk(va) && va.gp % 8 == 0 && va.overflow % 8 == 0 }

  lemma ScalarArg(va: Va, r: Request)
    requires Aligned(va) && Scalar(r) && va.overflow < 0x4000_0000_0000_0000
    ensures Proper(r)
    ensures var (va', s) := Arg(va, r);
            && s == Slot(AbiAddress(va, r.kind, 0, 0), r.size) && Aligned(va') && va'.save == va.save
            && va'.gp == (if r.kind == GenReg && va.gp < 48 then va.gp + 8 else va.gp)
            && va'.fp == (if r.kind == FloatReg && va.fp < 176 then va.fp + 16 else va.fp)
            && va'.overflow == (if Spills(va, r) then va.overflow + 8 else va.overflow)
            && (Spills(va, r) <==> if r.kind == GenReg then va.gp == 48 else va.fp == 176)
  {
    hide RoundUp8, AlignUp, Ceiling, Proper, WordsLeft, DoublesLeft;
    ScalarIsProper(r);
    RegistersLeft(va);
    FloatRoom(va.fp);
    NextWord(va.gp);
    if Spills(va, r) {
      SpilledArg(va, r);
      NextWord(va.overflow);
    }
  }

  lemma NextWord(x: nat)
    requires x % 8 == 0
    ensures (x + 8) % 8 == 0 && Ceiling(x + 8, 8) == x + 8 && (x <= 48 ==> x == 48 || x + 8 <= 48)
  {
    hide Ceiling;
    DivModUnique(x + 8, 8, x / 8 + 1, 0);
    CeilingUnique(x + 8, 8, x + 8);
  }

  /** The place of the arguments behind the first is that seen from behind the first. */
  lemma AbiShifts(va: Va, va': Va, r: Request, kind: ArgType, g: nat, f: nat)
    requires Aligned(va) && Aligned(va') && (r.kind == GenReg || r.kind == FloatReg) && va'.save == va.save
    requires va'.gp == (if r.kind == GenReg && va.gp < 48 then va.gp + 8 else va.gp)
    requires va'.fp == (if r.kind == FloatReg && va.fp < 176 then va.fp + 16 else va.fp)
    requires var spills := if r.kind == GenReg then va.gp == 48 else va.fp == 176;
             va'.overflow == if spills then va.overflow + 8 else va.overflow
    ensures AbiAddress(va', kind, g, f)
         == (if r.kind == GenReg then AbiAddress(va, kind, g + 1, f) else AbiAddress(va, kind, g, f + 1))
  {
    hide Aligned, WordsLeft, DoublesLeft;
    RegistersLeft(va);
    RegistersLeft(va');
  }

  /** Over any list of words and doubles, in any order, every one is read where the ABI puts it. */
  lemma {:induction false} ScalarsFollowAbi(va: Va, rs: seq<Request>, i: nat)
    requires Aligned(va) && AllScalar(rs) && va.overflow + 8 * |rs| < 0x4000_0000_0000_0000 && i < |rs|
    ensures AllProper(rs)
    ensures Walk(va, rs)[i]
         == Slot(AbiAddress(va, rs[i].kind, Count(rs[..i], GenReg), Count(rs[..i], FloatReg)), rs[i].size)
    decreases |rs|
  {
    hide Arg, RoundUp8, VaOk, Proper, AbiAddress, Aligned, Spills;
    ScalarsAreProper(rs);
    ScalarArg(va, rs[0]);
    if i > 0 {
      var va', rest := Arg(va, rs[0]).0, rs[1..];
      var g, f := Count(rest[..i - 1], GenReg), Count(rest[..i - 1], FloatReg);
      assert rs[..i][1..] == rest[..i - 1];
      ScalarsFollowAbi(va', rest, i - 1);
      AbiShifts(va, va', rs[0], rs[i].kind, g, f);
    }
  }

  // ---- The code ----

  class Walker {
    var gpOffset: u32
    var fpOffset: u32
    var overflowArgArea: nat
    var regSaveArea: nat

    function State(): Va
      reads this
    {
      Va(gpOffset, fpOffset, overflowArgArea, regSaveArea)
    }

    /** `__va_start`, given the three words the prologue left below the frame pointer. */
    constructor (fp: nat, gp: u32, fpOff: u32, overflowOffset: u32)
      requires 192 <= fp < 0x4000_0000_0000_0000
      ensures State() == Va(gp, fpOff, fp + overflowOffset, fp - 192)
      ensures gp <= REGS_END <= fpOff <= FLOATS_END && fpOff % 16 == 0 ==> VaOk(State())
    {
      gpOffset, fpOffset := gp, fpOff;
      overflowArgArea := fp + overflowOffset;
      regSaveArea := fp - 176 - 16;
    }

    /** `__va_arg` */
    method Next(kind: ArgType, size: nat, align: nat) returns (p: nat)
      requires VaOk(State()) && Proper(Request(kind, size, align)) && overflowArgArea < 0x4000_0000_0000_0000
      modifies this
      ensures var (va', s) := Arg(old(State()), Request(kind, size, align)); State() == va' && p == s.address
      ensures VaOk(State())
    {
      hide RoundUp8, AlignUp, Proper, VaOk, Used, Disjoint;
      ghost var r := Request(kind, size, align);
      ArgIsFresh(State(), r, Slot(0, 0));
      ProperAlign(r);
      InRange(State());
      var n := RoundUp8(size);
      var a := RoundUp8(align);
      if kind == GenReg && gpOffset + n <= 48 {
        gpOffset := gpOffset + n;
        return regSaveArea + gpOffset - n;
      }
      if kind == FloatReg {
        if fpOffset < 128 + 48 {
          fpOffset := fpOffset + 16;
          return regSaveArea + fpOffset - 16;
        }
        n := 8;
      }
      overflowArgArea := overflowArgArea + n;
      overflowArgArea := AlignUp(overflowArgArea, a);
      p := if n <= overflowArgArea then overflowArgArea - n else 0;
    }
  }

  lemma InRange(va: Va)
    requires VaOk(va)
    ensures va.gp <= REGS_END && va.fp <= FLOATS_END
  {
  }
}
