/** Program arguments: packed into one line by the caller, cut up again by `strtok` when
    the program starts. Strings are without their terminating NUL unless said otherwise. */
module Argv {
  import opened Words

  const SPACE: byte := 32
  const CMD_MAX := 4096
  const ARG_MAX := 99

  type Text = seq<byte>

  // ---- Words ----

  /** What can travel as an argument: not empty, no space, no NUL. */
  predicate IsWord(t: Text) { t != [] && SPACE !in t && 0 !in t }

  predicate AllWords(ts: seq<Text>) { forall i :: 0 <= i < |ts| ==> IsWord(ts[i]) }

  /** Words with single spaces between them. */
  function Join(ts: seq<Text>): Text {
    if ts == [] then [] else if |ts| == 1 then ts[0] else ts[0] + [SPACE] + Join(ts[1..])
  }

  function Spaces(t: Text): (n: nat)
    ensures n <= |t| && (forall i :: 0 <= i < n ==> t[i] == SPACE) && (n < |t| ==> t[n] != SPACE)
  {
    if t == [] || t[0] != SPACE then 0 else 1 + Spaces(t[1..])
  }

  function Letters(t: Text): (n: nat)
    ensures n <= |t| && (forall i :: 0 <= i < n ==> t[i] != SPACE) && (n < |t| ==> t[n] == SPACE)
  {
    if t == [] || t[0] == SPACE then 0 else 1 + Letters(t[1..])
  }

  /** The words of a line. */
  function Tokens(t: Text): seq<Text>
    decreases |t|
  {
    var u := t[Spaces(t)..];
    if u == [] then []
    else
      var n := Letters(u);
      [u[..n]] + (if n == |u| then [] else Tokens(u[n + 1..]))
  }

  lemma {:induction false} LettersOf(w: Text, rest: Text)
    requires SPACE !in w
    ensures Letters(w + [SPACE] + rest) == |w| && Letters(w) == |w|
  {
    if w != [] {
      assert (w + [SPACE] + rest)[1..] == w[1..] + [SPACE] + rest;
      LettersOf(w[1..], rest);
    }
  }

  lemma TokensCons(w: Text, rest: Text)
    requires IsWord(w)
    ensures Tokens(w + [SPACE] + rest) == [w] + Tokens(rest)
    ensures Tokens(w) == [w]
  {
    var t := w + [SPACE] + rest;
    LettersOf(w, rest);
    assert t[0] != SPACE && t[0..] == t && w[0..] == w;
    assert t[..|w|] == w && t[|w| + 1..] == rest && w[..|w|] == w;
  }

  /** Cutting up what was joined gives the words back. */
  lemma {:induction false} TokensOfJoin(ts: seq<Text>)
    requires AllWords(ts)
    ensures Tokens(Join(ts)) == ts
  {
    if |ts| == 1 {
      TokensCons(ts[0], []);
    } else if |ts| > 1 {
      TokensOfJoin(ts[1..]);
      TokensCons(ts[0], Join(ts[1..]));
    }
  }

  lemma NoNulInSlice(t: Text, i: nat, j: nat)
    requires 0 !in t && i <= j <= |t|
    ensures 0 !in t[i..j]
  {
  }

  /** Whatever the line, its tokens are words, and take up no more room than it. */
  lemma {:induction false} TokensAreWords(t: Text)
    requires 0 !in t
    ensures AllWords(Tokens(t)) && |Join(Tokens(t))| <= |t|
    decreases |t|
  {
    hide Join, Tokens, Spaces, Letters;
    JoinNone();
    TokensStep(t);
    TokensStep([]);
    if Spaces(t) < |t| {
      var u := t[Spaces(t)..];
      var n := Letters(u);
      NoNulInSlice(t, Spaces(t), |t|);
      FirstWord(u);
      if n < |u| {
        NoNulInSlice(u, n + 1, |u|);
        TokensAreWords(u[n + 1..]);
      }
      JoinCons(u[..n], Tokens(if n == |u| then [] else u[n + 1..]));
    }
  }

  lemma JoinNone()
    ensures Join([]) == []
  {
  }

  lemma FirstWord(u: Text)
    requires u != [] && u[0] != SPACE && 0 !in u
    ensures IsWord(u[..Letters(u)])
  {
    NoNulInSlice(u, 0, Letters(u));
  }

  lemma JoinCons(w: Text, ts: seq<Text>)
    ensures |Join([w] + ts)| == |w| + (if ts == [] then 0 else 1 + |Join(ts)|)
  {
    assert ([w] + ts)[1..] == ts;
  }

  lemma {:induction false} JoinPrefix(ts: seq<Text>, n: nat)
    requires n <= |ts|
    ensures |Join(ts[..n])| <= |Join(ts)|
  {
    if n > 0 {
      var rest := ts[1..];
      JoinPrefix(rest, n - 1);
      JoinCons(ts[0], rest);
      JoinCons(ts[0], rest[..n - 1]);
      assert ts == [ts[0]] + rest && ts[..n] == [ts[0]] + rest[..n - 1];
    }
  }

  // ---- Packing ----

  /** The packed line, and whether a NUL was left behind it. */
  datatype Line = Line(text: Text, terminated: bool)

  /** `posix_join_argv` from an argument on, with `acc` already packed and terminated. A
      space is written before the next argument is measured, over the NUL that was there. */
  function Pack(max: nat, argv: seq<Text>, acc: Text): Line
    decreases |argv|
  {
    if argv == [] then Line(acc, true)
    else
      var spaced := if acc != [] && |acc| + 1 < max then acc + [SPACE] else acc;
      var l := if |spaced| + |argv[0]| >= max then max - |spaced| - 1 else |argv[0]|;
      if l <= 0 then Line(spaced, |spaced| == |acc|)
      else
        var next := spaced + argv[0][..l];
        if |next| >= max - 1 then Line(next, true) else Pack(max, argv[1..], next)
  }

  /** Words that fit are packed whole. */
  lemma {:induction false} PackWords(max: nat, argv: seq<Text>, acc: Text)
    requires AllWords(argv) && (acc != [] ==> |acc| + 1 < max)
    requires var line := if acc == [] || argv == [] then acc + Join(argv) else acc + [SPACE] + Join(argv);
             |line| + 1 <= max
    ensures Pack(max, argv, acc)
         == Line(if acc == [] || argv == [] then acc + Join(argv) else acc + [SPACE] + Join(argv), true)
    decreases |argv|
  {
    if argv == [] {
      assert acc + Join(argv) == acc;
    } else {
      var spaced := if acc != [] then acc + [SPACE] else acc;
      JoinCons(argv[0], argv[1..]);
      assert argv == [argv[0]] + argv[1..];
      var next := spaced + argv[0];
      assert argv[0][..|argv[0]|] == argv[0];
      if |argv| == 1 {
        assert Join(argv) == argv[0] && Join([]) == [] && next + [] == next;
        if |next| < max - 1 { PackWords(max, [], next); }
      } else {
        assert next + [SPACE] + Join(argv[1..]) == spaced + Join(argv);
        PackWords(max, argv[1..], next);
      }
    }
  }

  /** The line once the arguments are joined to what it holds. */
  function Whole(acc: Text, argv: seq<Text>): Text {
    if acc == [] || argv == [] then acc + Join(argv) else acc + [SPACE] + Join(argv)
  }

  /** Whatever the arguments, as long as none is empty, the line is their join cut to the buffer. */
  lemma {:induction false} PackIsCut(max: nat, argv: seq<Text>, acc: Text)
    requires |acc| + 1 < max && NoneEmpty(argv)
    ensures var line := Whole(acc, argv);
            Pack(max, argv, acc).text == if |line| < max then line else line[..max - 1]
    decreases |argv|
  {
    hide Join, Pack;
    if argv == [] {
      NothingJoined();
      PackNone(max, acc);
      assert acc + Join([]) == acc;
    } else {
      var spaced, rest := if acc != [] then acc + [SPACE] else acc, argv[1..];
      if |spaced| + |argv[0]| + 1 < max {
        PackGoesOn(max, argv, acc);
        PackIsCut(max, rest, spaced + argv[0]);
        WholeStep(acc, argv);
      } else {
        CutHere(acc, argv, max);
      }
    }
  }

  lemma PackNone(max: nat, acc: Text)
    ensures Pack(max, [], acc).text == acc
  {
  }

  lemma PackGoesOn(max: nat, argv: seq<Text>, acc: Text)
    requires argv != [] && argv[0] != []
    requires var spaced := if acc != [] then acc + [SPACE] else acc; |spaced| + |argv[0]| + 1 < max
    ensures Pack(max, argv, acc) == Pack(max, argv[1..], (if acc != [] then acc + [SPACE] else acc) + argv[0])
  {
    assert argv[0][..|argv[0]|] == argv[0];
  }

  lemma NothingJoined()
    ensures Join([]) == []
  {
  }

  lemma FirstJoined(argv: seq<Text>)
    requires argv != []
    ensures Join(argv) == argv[0] + (if |argv| == 1 then [] else [SPACE] + Join(argv[1..]))
  {
  }

  lemma WholeStep(acc: Text, argv: seq<Text>)
    requires argv != [] && argv[0] != []
    ensures Whole((if acc != [] then acc + [SPACE] else acc) + argv[0], argv[1..]) == Whole(acc, argv)
  {
    hide Join;
    FirstJoined(argv);
    NothingJoined();
    var rest := argv[1..];
    if acc != [] && rest != [] {
      assert acc + [SPACE] + argv[0] + [SPACE] + Join(rest) == acc + [SPACE] + (argv[0] + ([SPACE] + Join(rest)));
    }
  }

  /** The argument that reaches the end of the buffer. */
  lemma CutHere(acc: Text, argv: seq<Text>, max: nat)
    requires argv != [] && argv[0] != [] && |acc| + 1 < max
    requires var spaced := if acc != [] then acc + [SPACE] else acc; |spaced| + |argv[0]| + 1 >= max
    ensures var line := Whole(acc, argv);
            Pack(max, argv, acc).text == if |line| < max then line else line[..max - 1]
  {
    hide Join;
    FirstJoined(argv);
    var spaced, a := if acc != [] then acc + [SPACE] else acc, argv[0];
    var l := max - |spaced| - 1;
    assert (spaced + a)[..max - 1] == spaced + a[..l];
    var line := Whole(acc, argv);
    assert spaced + a <= line;
    assert line[..max - 1] == (spaced + a)[..max - 1];
  }

  /** The length of a line of n characters once words are joined to it. */
  function JoinedLength(n: nat, ts: seq<Text>): nat
    decreases |ts|
  {
    if ts == [] then n else JoinedLength((if n > 0 then n + 1 else 0) + |ts[0]|, ts[1..])
  }

  predicate NoneEmpty(ts: seq<Text>) { forall i :: 0 <= i < |ts| ==> ts[i] != [] }

  lemma {:induction false} JoinedLengthGrows(n: nat, ts: seq<Text>)
    ensures JoinedLength(n, ts) >= n
    decreases |ts|
  {
    if ts != [] { JoinedLengthGrows((if n > 0 then n + 1 else 0) + |ts[0]|, ts[1..]); }
  }

  lemma {:induction false} JoinedLengthIs(n: nat, ts: seq<Text>)
    requires NoneEmpty(ts)
    ensures JoinedLength(n, ts) == n + |Join(ts)| + (if n > 0 && ts != [] then 1 else 0)
    decreases |ts|
  {
    if ts != [] { JoinedLengthIs((if n > 0 then n + 1 else 0) + |ts[0]|, ts[1..]); }
  }

  /** Packing from a line of n characters comes to an end at argument i, a space just laid over
      the NUL: the argument is empty, or the space took the last place but one. */
  predicate StopsAt(max: nat, n: nat, argv: seq<Text>, i: nat) {
    && i < |argv| && NoneEmpty(argv[..i])
    && var m := JoinedLength(n, argv[..i]); 0 < m <= max - 2 && (argv[i] == [] || m == max - 2)
  }

  lemma StopsLater(max: nat, n: nat, argv: seq<Text>, i: nat)
    requires argv != [] && argv[0] != [] && i < |argv| - 1
    ensures StopsAt(max, n, argv, i + 1)
       <==> StopsAt(max, (if n > 0 then n + 1 else 0) + |argv[0]|, argv[1..], i)
  {
    var rest := argv[1..];
    assert argv[..i + 1][1..] == rest[..i];
    assert argv[..i + 1] == [argv[0]] + rest[..i];
  }

  lemma {:induction false} UnterminatedFrom(max: nat, argv: seq<Text>, acc: Text)
    requires |acc| + 1 < max
    ensures !Pack(max, argv, acc).terminated <==> exists i: nat :: StopsAt(max, |acc|, argv, i)
    decreases |argv|
  {
    hide NoneEmpty;
    if argv == [] { return; }
    EmptyPrefix(argv);
    var n1 := (if acc != [] then |acc| + 1 else 0) + |argv[0]|;
    if argv[0] == [] || |acc| == max - 2 {
      assert StopsAt(max, |acc|, argv, 0) <==> acc != [];
      forall i: nat | i > 0
        ensures argv[0] == [] ==> !StopsAt(max, |acc|, argv, i)
      {
        EmptyFirst(argv, i);
      }
    }
    if argv[0] != [] && !(acc != [] && |acc| == max - 2) {
      assert !StopsAt(max, |acc|, argv, 0);
      forall i: nat
        ensures StopsAt(max, |acc|, argv, i + 1) <==> StopsAt(max, n1, argv[1..], i)
      {
        if i < |argv| - 1 { StopsLater(max, |acc|, argv, i); }
      }
      forall i: nat
        ensures n1 > max - 2 ==> !StopsAt(max, n1, argv[1..], i)
      {
        if i <= |argv[1..]| { JoinedLengthGrows(n1, argv[1..][..i]); }
      }
      if n1 < max - 1 {
        var spaced := if acc != [] then acc + [SPACE] else acc;
        assert argv[0][..|argv[0]|] == argv[0];
        UnterminatedFrom(max, argv[1..], spaced + argv[0]);
      }
      Shifted(max, |acc|, argv, n1);
    }
  }

  lemma Shifted(max: nat, n: nat, argv: seq<Text>, n1: nat)
    requires argv != [] && !StopsAt(max, n, argv, 0)
    requires forall i: nat :: StopsAt(max, n, argv, i + 1) <==> StopsAt(max, n1, argv[1..], i)
    ensures (exists i: nat :: StopsAt(max, n, argv, i)) <==> exists i: nat :: StopsAt(max, n1, argv[1..], i)
  {
    hide StopsAt;
    if i: nat :| StopsAt(max, n, argv, i) {
      assert StopsAt(max, n, argv, (i - 1) + 1);
      assert StopsAt(max, n1, argv[1..], i - 1);
    }
    if i: nat :| StopsAt(max, n1, argv[1..], i) {
      assert StopsAt(max, n, argv, i + 1);
    }
  }

  lemma EmptyPrefix(argv: seq<Text>)
    ensures argv[..0] == [] && NoneEmpty(argv[..0]) && forall n: nat :: JoinedLength(n, argv[..0]) == n
  {
  }

  lemma EmptyFirst(argv: seq<Text>, i: nat)
    requires argv != [] && i > 0
    ensures argv[0] == [] && i < |argv| ==> !NoneEmpty(argv[..i])
  {
    assert i < |argv| ==> argv[..i][0] == argv[0];
  }

  /** The line is left without a NUL if and only if some argument after the first, with none empty
      before it, is itself empty or comes when the line has one place left for text. */
  lemma UnterminatedIff(max: nat, argv: seq<Text>)
    requires max > 1
    ensures !Pack(max, argv, []).terminated <==> exists i: nat :: LosesNul(max, argv, i)
  {
    hide Pack;
    UnterminatedFrom(max, argv, []);
    forall i: nat
      ensures StopsAt(max, 0, argv, i) <==> LosesNul(max, argv, i)
    {
      if i < |argv| && NoneEmpty(argv[..i]) {
        JoinedLengthIs(0, argv[..i]);
        JoinedNonEmpty(argv[..i]);
      }
    }
  }

  predicate LosesNul(max: nat, argv: seq<Text>, i: nat) {
    && 1 <= i < |argv| && NoneEmpty(argv[..i])
    && var m := |Join(argv[..i])|; m <= max - 2 && (argv[i] == [] || m == max - 2)
  }

  lemma JoinedNonEmpty(ts: seq<Text>)
    requires NoneEmpty(ts)
    ensures Join(ts) != [] <==> ts != []
  {
  }

  /** For one, a word and an empty argument. */
  lemma EmptyArgumentLosesNul()
    ensures LosesNul(CMD_MAX, [[97], []], 1)
  {
    var argv: seq<Text> := [[97], []];
    assert argv[..1] == [[97]];
  }

  lemma {:induction false} PackFits(max: nat, argv: seq<Text>, acc: Text)
    requires max > 1 && |acc| + 1 < max && 0 !in acc && forall i :: 0 <= i < |argv| ==> 0 !in argv[i]
    ensures |Pack(max, argv, acc).text| + 1 <= max && 0 !in Pack(max, argv, acc).text
    decreases |argv|
  {
    if argv != [] {
      var spaced := if acc != [] then acc + [SPACE] else acc;
      var l := if |spaced| + |argv[0]| >= max then max - |spaced| - 1 else |argv[0]|;
      if l > 0 && |spaced| + l < max - 1 {
        PackFits(max, argv[1..], spaced + argv[0][..l]);
      }
    }
  }

  // ---- The whole way ----

  /** What the new program gets for a line: at most 99 tokens, or one null pointer. */
  function Received(line: Text): seq<Text> {
    var ts := Tokens(line);
    if |ts| <= ARG_MAX then ts else ts[..ARG_MAX]
  }

  /** `posix_spawn` or `execv`, then `_start`, with a kernel that passes the line on. An
      empty line is replaced by the path. */
  predicate Survives(path: Text, argv: seq<Text>) {
    var line := Pack(CMD_MAX, argv, []);
    line.terminated && Received(if line.text == [] then path else line.text) == argv && argv != []
  }

  /** An argument vector arrives unchanged if, and only if, it has 1 to 99 arguments, none
      empty or with a space, that fit the 4096-byte line with its NUL. */
  lemma SurvivesIff(path: Text, argv: seq<Text>)
    requires 0 !in path && |path| < 4096 && forall i :: 0 <= i < |argv| ==> 0 !in argv[i]
    ensures Survives(path, argv) <==>
              && 1 <= |argv| <= 99 && |Join(argv)| < 4096
              && forall i :: 0 <= i < |argv| ==> argv[i] != [] && 32 !in argv[i]
  {
    hide Pack, Tokens, Join;
    if 1 <= |argv| <= ARG_MAX && AllWords(argv) && |Join(argv)| < CMD_MAX {
      WordsSurvive(path, argv);
    }
    if Survives(path, argv) {
      SurvivorsAreWords(path, argv);
    }
  }

  lemma WordsSurvive(path: Text, argv: seq<Text>)
    requires 1 <= |argv| <= ARG_MAX && AllWords(argv) && |Join(argv)| < CMD_MAX
    ensures Survives(path, argv)
  {
    hide Pack, Tokens;
    assert [] + Join(argv) == Join(argv);
    PackWords(CMD_MAX, argv, []);
    TokensOfJoin(argv);
    assert Join(argv) != [];
  }

  lemma SurvivorsAreWords(path: Text, argv: seq<Text>)
    requires 0 !in path && |path| < CMD_MAX && forall i :: 0 <= i < |argv| ==> 0 !in argv[i]
    requires Survives(path, argv)
    ensures 1 <= |argv| <= ARG_MAX && AllWords(argv) && |Join(argv)| < CMD_MAX
  {
    hide Pack, Tokens, Join;
    var line := Pack(CMD_MAX, argv, []);
    PackFits(CMD_MAX, argv, []);
    var t := if line.text == [] then path else line.text;
    TokensAreWords(t);
    JoinPrefix(Tokens(t), |argv|);
    assert argv == Tokens(t)[..|argv|];
  }

  // ---- The code ----

  /** `posix_join_argv` into a buffer of `max` bytes. */
  method JoinArgv(dst: array<byte>, max: nat, argv: seq<Text>) returns (n: nat)
    requires 1 < max <= dst.Length
    modifies dst
    ensures n == |Pack(max, argv, []).text| < max && dst[..n] == Pack(max, argv, []).text
    ensures Pack(max, argv, []).terminated ==> dst[n] == 0
  {
    hide Pack;
    n := 0;
    dst[0] := 0;
    ghost var acc: Text := [];
    assert argv[0..] == argv;
    for i := 0 to |argv|
      invariant n == |acc| && n + 1 < max && dst[..n] == acc && dst[n] == 0
      invariant Pack(max, argv, []) == Pack(max, argv[i..], acc)
    {
      PackStep(max, argv[i..], acc);
      assert argv[i..][1..] == argv[i + 1..];
      var stop;
      n, stop := PackOne(dst, n, max, argv[i], acc);
      if stop {
        return;
      }
      acc := dst[..n];
    }
    PackStep(max, [], acc);
  }

  /** One turn of the loop in `posix_join_argv`: lines 605-616. */
  method PackOne(dst: array<byte>, start: nat, max: nat, arg: Text, ghost acc: Text) returns (n: nat, stop: bool)
    requires start == |acc| && start + 1 < max <= dst.Length && dst[..start] == acc && dst[start] == 0
    modifies dst
    ensures var l := Room(max, arg, acc);
            && n == |Spaced(acc)| + l < max && dst[..n] == Spaced(acc) + arg[..l]
            && (l > 0 || acc == [] ==> dst[n] == 0)
            && (stop <==> l == 0 || n >= max - 1)
  {
    n := start;
    var l := |arg|;
    if n > 0 && n + 1 < max {
      dst[n] := SPACE;
      n := n + 1;
    }
    assert dst[..n] == Spaced(acc);
    if n + l >= max {
      l := max - n - 1;
    }
    if l <= 0 {
      assert arg[..0] == [];
      return n, true;
    }
    CopyIn(dst, n, arg[..l]);
    n := n + l;
    dst[n] := 0;
    stop := n >= max - 1;
  }

  /** How much of the next argument is packed. */
  ghost function Room(max: nat, arg: Text, acc: Text): (l: nat)
    requires |acc| + 1 < max
    ensures l <= |arg|
  {
    if |Spaced(acc)| + |arg| >= max then max - |Spaced(acc)| - 1 else |arg|
  }

  ghost function Spaced(acc: Text): Text { if acc != [] then acc + [SPACE] else acc }

  /** One argument's worth of packing. */
  lemma PackStep(max: nat, argv: seq<Text>, acc: Text)
    requires |acc| + 1 < max
    ensures argv == [] ==> Pack(max, argv, acc) == Line(acc, true)
    ensures argv != [] ==>
              var l := Room(max, argv[0], acc);
              Pack(max, argv, acc) ==
                if l == 0 then Line(Spaced(acc), acc == [])
                else if |Spaced(acc)| + l >= max - 1 then Line(Spaced(acc) + argv[0][..l], true)
                else Pack(max, argv[1..], Spaced(acc) + argv[0][..l])
  {
  }

  /** `memcpy` into the buffer. */
  method CopyIn(dst: array<byte>, at: nat, src: Text)
    requires at + |src| < dst.Length
    modifies dst
    ensures dst[..at + |src|] == old(dst[..at]) + src
  {
    for k := 0 to |src|
      invariant dst[..at + k] == old(dst[..at]) + src[..k]
    {
      dst[at + k] := src[k];
      assert dst[..at + k + 1] == dst[..at + k] + [src[k]];
      assert src[..k + 1] == src[..k] + [src[k]];
    }
    assert src[..|src|] == src;
  }

  /** The string that starts at position i of a buffer with a NUL further on. */
  function CString(s: seq<byte>, i: nat): (t: Text)
    requires i < |s| && 0 in s[i..]
    ensures 0 !in t && i + |t| < |s| && s[i..i + |t|] == t && s[i + |t|] == 0
    decreases |s| - i
  {
    if s[i] == 0 then [] else
      assert s[i..] == [s[i]] + s[i + 1..];
      [s[i]] + CString(s, i + 1)
  }

  lemma {:induction false} CStringIs(s: seq<byte>, i: nat, t: Text)
    requires 0 !in t && i + |t| < |s| && s[i..i + |t|] == t && s[i + |t|] == 0
    ensures 0 in s[i..] && CString(s, i) == t
    decreases |t|
  {
    assert s[i..][|t|] == 0;
    if t != [] {
      assert s[i] == t[0];
      assert s[i + 1..i + |t|] == t[1..];
      CStringIs(s, i + 1, t[1..]);
    }
  }

  /** `strtok` with its static cursor; -1 is the null pointer. */
  class Tokenizer {
    const buf: array<byte>
    var last: int

    constructor (buf: array<byte>)
      ensures this.buf == buf && last == -1
    {
      this.buf := buf;
      last := -1;
    }

    /** The cursor is null or points at a terminated string. */
    ghost predicate At(pos: int)
      reads buf
    {
      pos == -1 || (0 <= pos < buf.Length && 0 in buf[pos..])
    }

    /** The scan for the first character that is not a delimiter: lines 88-93. */
    method SkipSpaces(pos: nat, ghost text: Text) returns (s: nat)
      requires pos + |text| < buf.Length && buf[pos..pos + |text|] == text && buf[pos + |text|] == 0
      ensures s == pos + Spaces(text)
    {
      s := pos;
      while buf[s] == SPACE
        invariant pos <= s <= pos + |text| && s - pos <= Spaces(text)
        decreases pos + |text| - s
      {
        assert s - pos < |text| ==> buf[s] == text[s - pos];
        s := s + 1;
      }
      assert s - pos < |text| ==> buf[s] == text[s - pos];
    }

    /** The scan for the end of the word: lines 105-118. */
    method WordEnd(tok: nat, ghost text: Text) returns (s: nat)
      requires tok + |text| < buf.Length && buf[tok..tok + |text|] == text && buf[tok + |text|] == 0 && 0 !in text
      ensures s == tok + Letters(text)
    {
      s := tok;
      while buf[s] != SPACE && buf[s] != 0
        invariant tok <= s <= tok + |text| && s - tok <= Letters(text)
        decreases tok + |text| - s
      {
        assert s - tok < |text| ==> buf[s] == text[s - tok];
        s := s + 1;
      }
      assert s - tok < |text| ==> buf[s] == text[s - tok];
    }

    /** `strtok(s, " ")`: the first word of the string at the cursor, terminated in place,
        and the cursor moved to the rest; null when no word is left. */
    method Next(start: int) returns (tok: int)
      requires start >= -1 && last >= -1
      requires At(if start >= 0 then start else last)
      modifies this`last, buf
      ensures last >= -1
      ensures var pos := if start >= 0 then start else old(last);
              if pos == -1 then tok == -1 && last == -1 && buf[..] == old(buf[..])
              else Cut(old(buf[..]), buf[..], pos, tok, last)
    {
      var pos := if start >= 0 then start else last;
      if pos < 0 {
        last := -1;
        return -1;
      }
      tok := TakeWord(pos);
    }

    method TakeWord(pos: nat) returns (tok: int)
      requires pos < buf.Length && 0 in buf[pos..]
      modifies this`last, buf
      ensures last >= -1
      ensures Cut(old(buf[..]), buf[..], pos, tok, last)
    {
      hide Spaces, Letters, CString;
      ghost var before := buf[..];
      assert buf[pos..] == before[pos..];
      ghost var text := CString(before, pos);
      assert buf[pos..pos + |text|] == before[pos..pos + |text|];
      var s := SkipSpaces(pos, text);
      ghost var word := text[Spaces(text)..];
      assert |word| > 0 ==> buf[s] == word[0];
      if buf[s] == 0 {
        last := -1;
        return -1;
      }
      tok := s;
      assert buf[s..s + |word|] == word;
      NoNulInSlice(text, Spaces(text), |text|);
      s := WordEnd(s, word);
      assert s < tok + |word| ==> buf[s] == word[s - tok];
      if buf[s] == 0 {
        last := -1;
      } else {
        buf[s] := 0;
        last := s + 1;
        assert buf[..] == before[s := 0];
      }
    }
  }

  /** The first word of the string at `pos` was cut off: a NUL written behind it unless one
      was there, `tok` at the word and `last` at the rest; both null if there is no word. */
  ghost predicate Cut(s: seq<byte>, s': seq<byte>, pos: nat, tok: int, last: int)
    requires pos < |s| && 0 in s[pos..]
  {
    pos + |CString(s, pos)| < |s| && CutText(s, s', pos, CString(s, pos), tok, last)
  }

  /** The same, given the text at the position. */
  ghost predicate CutText(s: seq<byte>, s': seq<byte>, pos: nat, text: Text, tok: int, last: int)
    requires pos + |text| < |s|
  {
    var skip := Spaces(text);
    if skip == |text| then s' == s && tok == -1 && last == -1
    else
      var stop := skip + Letters(text[skip..]);
      && tok == pos + skip
      && if stop == |text| then s' == s && last == -1
         else s' == s[pos + stop := 0] && last == pos + stop + 1
  }

  /** Position i holds the string `t`. */
  ghost predicate Reads(s: seq<byte>, i: int, t: Text) {
    0 <= i && i + |t| < |s| && s[i..i + |t|] == t && s[i + |t|] == 0 && 0 !in t
  }

  /** What is left of the line once the cursor is at `last`. */
  ghost predicate Rest(s: seq<byte>, last: int, t: Text) {
    if last == -1 then t == [] else Reads(s, last, t)
  }

  lemma CStringReads(s: seq<byte>, i: nat)
    requires i < |s| && 0 in s[i..]
    ensures Reads(s, i, CString(s, i))
  {
  }

  lemma ReadsCString(s: seq<byte>, i: int, t: Text)
    requires Reads(s, i, t)
    ensures i < |s| && 0 in s[i..] && CString(s, i) == t
  {
    CStringIs(s, i, t);
  }

  lemma SliceReads(s: seq<byte>, pos: nat, text: Text, a: nat, b: nat)
    requires Reads(s, pos, text) && a <= b <= |text|
    ensures s[pos + a..pos + b] == text[a..b]
  {
    var lhs, rhs := s[pos + a..pos + b], text[a..b];
    forall k | 0 <= k < b - a
      ensures lhs[k] == rhs[k]
    {
      assert rhs[k] == s[pos..pos + |text|][a + k];
    }
  }

  /** Cutting a word off yields the first token and leaves the others. */
  lemma CutYields(s: seq<byte>, s': seq<byte>, pos: nat, text: Text, tok: int, last: int) returns (w: Text, rest: Text)
    requires Reads(s, pos, text) && pos < |s| && 0 in s[pos..] && Cut(s, s', pos, tok, last)
    ensures |s'| == |s| && last >= -1 && tok >= -1
    ensures tok == -1 ==> Tokens(text) == [] && s' == s && last == -1
    ensures tok >= 0 ==>
              && pos <= tok && Reads(s', tok, w) && Rest(s', last, rest) && Tokens(text) == [w] + Tokens(rest)
              && (last >= 0 ==> tok + |w| < last)
    ensures forall i :: 0 <= i < pos ==> s'[i] == s[i]
  {
    hide Spaces, Letters, CString, Tokens, Reads, CutText;
    ReadsCString(s, pos, text);
    ReadsFits(s, pos, text);
    w, rest := TextYields(s, s', pos, text, tok, last);
  }

  lemma TextYields(s: seq<byte>, s': seq<byte>, pos: nat, text: Text, tok: int, last: int)
    returns (w: Text, rest: Text)
    requires Reads(s, pos, text) && pos + |text| < |s| && CutText(s, s', pos, text, tok, last)
    ensures |s'| == |s| && last >= -1 && tok >= -1
    ensures tok == -1 ==> Tokens(text) == [] && s' == s && last == -1
    ensures tok >= 0 ==>
              && pos <= tok && Reads(s', tok, w) && Rest(s', last, rest) && Tokens(text) == [w] + Tokens(rest)
              && (last >= 0 ==> tok + |w| < last)
    ensures forall i :: 0 <= i < pos ==> s'[i] == s[i]
  {
    hide Spaces, Letters, CString, Tokens, Reads;
    w, rest := [], [];
    var skip := Spaces(text);
    TokensAt(text);
    if skip < |text| {
      var stop := skip + Letters(text[skip..]);
      w := text[skip..stop];
      PartReads(s, s', pos, text, skip, stop);
      if stop < |text| {
        rest := text[stop + 1..];
        TailReads(s, s', pos, text, stop + 1);
      }
    }
  }

  lemma TokensAt(t: Text)
    ensures Spaces(t) == |t| ==> Tokens(t) == []
    ensures Spaces(t) < |t| ==>
              var stop := Spaces(t) + Letters(t[Spaces(t)..]);
              && stop <= |t|
              && Tokens(t) == [t[Spaces(t)..stop]] + Tokens(if stop == |t| then [] else t[stop + 1..])
  {
    hide Spaces, Letters, Tokens;
    TokensStep(t);
    var skip := Spaces(t);
    if skip < |t| {
      var u := t[skip..];
      var n := Letters(u);
      assert u[..n] == t[skip..skip + n];
      assert n < |u| ==> u[n + 1..] == t[skip + n + 1..];
    }
  }

  lemma ReadsFits(s: seq<byte>, i: int, t: Text)
    requires Reads(s, i, t)
    ensures 0 <= i && i + |t| < |s|
  {
  }

  /** A stretch of the text, with a NUL now behind it. */
  lemma PartReads(s: seq<byte>, s': seq<byte>, pos: nat, text: Text, a: nat, b: nat)
    requires Reads(s, pos, text) && a <= b <= |text|
    requires s' == if b == |text| then s else s[pos + b := 0]
    ensures Reads(s', pos + a, text[a..b])
  {
    NoNulInSlice(text, a, b);
    SliceReads(s, pos, text, a, b);
    assert s'[pos + a..pos + b] == s[pos + a..pos + b];
  }

  /** What follows a position of the text is untouched by a NUL before it. */
  lemma TailReads(s: seq<byte>, s': seq<byte>, pos: nat, text: Text, a: nat)
    requires Reads(s, pos, text) && 0 < a <= |text| && s' == s[pos + a - 1 := 0]
    ensures Reads(s', pos + a, text[a..])
  {
    NoNulInSlice(text, a, |text|);
    SliceReads(s, pos, text, a, |text|);
    assert text[a..] == text[a..|text|];
    assert s'[pos + a..pos + |text|] == s[pos + a..pos + |text|];
  }

  lemma TokensStep(t: Text)
    ensures Spaces(t) == |t| ==> Tokens(t) == []
    ensures Spaces(t) < |t| ==>
              var u := t[Spaces(t)..];
              var n := Letters(u);
              Tokens(t) == [u[..n]] + Tokens(if n == |u| then [] else u[n + 1..])
  {
    assert Tokens([]) == [];
  }

  /** Words found so far, each terminated before position `stop`. */
  ghost predicate Found(s: seq<byte>, p: seq<int>, words: seq<Text>, stop: int) {
    && |p| == |words|
    && forall i :: 0 <= i < |p| ==> Reads(s, p[i], words[i]) && p[i] + |words[i]| < stop
  }

  lemma FoundKept(s: seq<byte>, s': seq<byte>, p: seq<int>, words: seq<Text>, stop: int)
    requires Found(s, p, words, stop) && |s'| == |s|
    requires forall i :: 0 <= i < |s| && i < stop ==> s'[i] == s[i]
    ensures Found(s', p, words, stop)
  {
    forall i | 0 <= i < |p|
      ensures Reads(s', p[i], words[i])
    {
      assert Reads(s, p[i], words[i]);
      assert s'[p[i]..p[i] + |words[i]|] == s[p[i]..p[i] + |words[i]|];
    }
  }

  /** `_start` up to the call of `main`: argument pointers into the line, which is cut up
      in place. An empty line gives one null pointer. */
  method Start(params: array<byte>) returns (argc: nat, p: seq<int>, ghost words: seq<Text>)
    requires params.Length > 0 && 0 in params[..]
    modifies params
    ensures argc == |p|
    ensures 0 in old(params[..])[0..]
    ensures var line := CString(old(params[..]), 0);
            if Tokens(line) == [] then p == [-1]
            else words == Received(line) && Found(params[..], p, words, params.Length)
  {
    hide Found, Reads, Tokens, Cut, CString;
    ghost var s0 := params[..];
    assert s0[0..] == s0 && params[0..] == s0;
    var tk := new Tokenizer(params);
    ghost var line := CString(s0, 0);
    CStringReads(s0, 0);
    var s := tk.Next(0);
    ghost var w, rest := CutYields(s0, params[..], 0, line, s, tk.last);
    argc, p, words := 1, [s], [w];
    if s == -1 {
      s := tk.Next(-1);
      return;
    }
    ghost var all := Tokens(line);
    FoundMore(params[..], [], [], s, w, if tk.last >= 0 then tk.last else params.Length);
    assert [] + [s] == p && [] + [w] == words;
    s, w, rest := Advance(tk, p, words, rest);
    while s != -1 && argc < ARG_MAX
      invariant tk.buf == params && 1 <= argc == |p| <= ARG_MAX
      invariant tk.last >= -1 && s >= -1
      invariant Found(params[..], p, words, if s >= 0 then s else params.Length)
      invariant s >= 0 ==> Reads(params[..], s, w) && Rest(params[..], tk.last, rest)
      invariant s >= 0 && tk.last >= 0 ==> s + |w| < tk.last
      invariant all == words + (if s >= 0 then [w] + Tokens(rest) else [])
      decreases ARG_MAX - argc
    {
      FoundMore(params[..], p, words, s, w, if tk.last >= 0 then tk.last else params.Length);
      ConsMoves(words, w, Tokens(rest));
      p := p + [s];
      words := words + [w];
      argc := argc + 1;
      s, w, rest := Advance(tk, p, words, rest);
    }
    if s >= 0 { ReadsCString(params[..], s, w); }
    FoundWidens(params[..], p, words, if s >= 0 then s else params.Length);
    assert all[..|words|] == words;
  }

  lemma ConsMoves(a: seq<Text>, w: Text, b: seq<Text>)
    ensures a + ([w] + b) == a + [w] + b
  {
  }

  lemma FoundMore(s: seq<byte>, p: seq<int>, words: seq<Text>, t: int, w: Text, stop: int)
    requires (p == [] && words == []) || Found(s, p, words, t)
    requires Reads(s, t, w) && (t + |w| < stop || stop == |s|)
    ensures Found(s, p + [t], words + [w], stop)
  {
  }

  lemma FoundWidens(s: seq<byte>, p: seq<int>, words: seq<Text>, stop: int)
    requires Found(s, p, words, stop) && stop <= |s|
    ensures Found(s, p, words, |s|)
  {
  }

  /** One more `strtok(0, " ")`, with the words so far left as they are. */
  method Advance(tk: Tokenizer, p: seq<int>, ghost words: seq<Text>, ghost rest: Text)
    returns (s: int, ghost w: Text, ghost rest': Text)
    requires p != [] && tk.last >= -1 && Rest(tk.buf[..], tk.last, rest)
    requires Found(tk.buf[..], p, words, if tk.last >= 0 then tk.last else tk.buf.Length)
    modifies tk`last, tk.buf
    ensures s >= -1 && tk.last >= -1
    ensures Found(tk.buf[..], p, words, if s >= 0 then s else tk.buf.Length)
    ensures s >= 0 ==> Reads(tk.buf[..], s, w) && Rest(tk.buf[..], tk.last, rest')
    ensures s >= 0 && tk.last >= 0 ==> s + |w| < tk.last
    ensures Tokens(rest) == if s >= 0 then [w] + Tokens(rest') else []
  {
    hide Reads, Found, Cut, CString, Tokens;
    ghost var before, pos := tk.buf[..], tk.last;
    w, rest' := [], [];
    if pos >= 0 {
      ReadsCString(before, pos, rest);
      assert tk.buf[pos..] == before[pos..];
    }
    s := tk.Next(-1);
    if pos >= 0 {
      w, rest' := CutYields(before, tk.buf[..], pos, rest, s, tk.last);
      FoundKept(before, tk.buf[..], p, words, pos);
      FoundUpTo(tk.buf[..], p, words, pos, if s >= 0 then s else tk.buf.Length);
    } else {
      TokensStep([]);
    }
  }

  lemma FoundUpTo(s: seq<byte>, p: seq<int>, words: seq<Text>, stop: int, stop': int)
    requires Found(s, p, words, stop) && stop <= stop'
    ensures Found(s, p, words, stop')
  {
  }

  /** From `posix_spawn` in one program to `main` in the next, over one line buffer: an
      argument vector that fits arrives as it was sent. */
  method Spawn(argv: seq<Text>) returns (buf: array<byte>, argc: nat, p: seq<int>)
    requires 1 <= |argv| <= ARG_MAX && AllWords(argv) && |Join(argv)| < CMD_MAX
    ensures argc == |argv| && Found(buf[..], p, argv, buf.Length)
  {
    hide Pack, Tokens, Join, Found, CString;
    buf := new byte[CMD_MAX](_ => 255);
    PackWords(CMD_MAX, argv, []);
    assert [] + Join(argv) == Join(argv);
    TokensOfJoin(argv);
    var n := JoinArgv(buf, CMD_MAX, argv);
    JoinHasNoNul(argv);
    assert Reads(buf[..], 0, Join(argv)) by { assert buf[..][0..n] == buf[..n]; }
    ReadsCString(buf[..], 0, Join(argv));
    assert buf[..][0..] == buf[..];
    ghost var words;
    argc, p, words := Start(buf);
    FoundSize(buf[..], p, words, buf.Length);
  }

  lemma {:induction false} JoinHasNoNul(argv: seq<Text>)
    requires AllWords(argv)
    ensures 0 !in Join(argv)
  {
    if |argv| > 1 { JoinHasNoNul(argv[1..]); }
  }

  lemma FoundSize(s: seq<byte>, p: seq<int>, words: seq<Text>, stop: int)
    requires Found(s, p, words, stop)
    ensures |p| == |words|
  {
  }
}
