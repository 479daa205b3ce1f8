/** Little-endian fields of a byte string. */
module Bytes {
  import opened Words

  type Data = seq<byte>

  function Le2(s: Data, i: nat): (v: int)
    requires i + 2 <= |s|
    ensures 0 <= v < 0x1_0000
  {
    var high: int := s[i + 1];
    s[i] + 0x100 * high
  }

  function Le4(s: Data, i: nat): (v: int)
    requires i + 4 <= |s|
    ensures 0 <= v < 0x1_0000_0000
  {
    Le2(s, i) + 0x1_0000 * Le2(s, i + 2)
  }

  function Le8(s: Data, i: nat): (v: int)
    requires i + 8 <= |s|
    ensures 0 <= v < 0x1_0000_0000_0000_0000
  {
    Le4(s, i) + 0x1_0000_0000 * Le4(s, i + 4)
  }

  /** `src` laid over `s` from a position on. */
  function Laid(s: Data, at: nat, src: Data): (t: Data)
    requires at + |src| <= |s|
    ensures |t| == |s|
    ensures forall a {:trigger t[a]} :: 0 <= a < |s| ==> t[a] == if at <= a < at + |src| then src[a - at] else s[a]
  {
    s[..at] + src + s[at + |src|..]
  }

  function Zeros(n: nat): (s: Data)
    ensures |s| == n && forall i :: 0 <= i < n ==> s[i] == 0
  {
    seq(n, _ => 0)
  }

  // ---- Writing fields ----

  function Put2(n: nat): (s: Data)
    requires n < 0x1_0000
    ensures |s| == 2
  {
    [n % 0x100, n / 0x100]
  }

  function Put4(n: u32): (s: Data)
    ensures |s| == 4
  {
    [n % 0x100, n / 0x100 % 0x100, n / 0x1_0000 % 0x100, n / 0x100_0000]
  }

  function Put8(n: u64): (s: Data)
    ensures |s| == 8
  {
    Put4(n % 0x1_0000_0000) + Put4(n / 0x1_0000_0000)
  }

  lemma FourBytes(n: u32)
    ensures n == n % 0x100 + 0x100 * (n / 0x100 % 0x100) + 0x1_0000 * (n / 0x1_0000 % 0x100 + 0x100 * (n / 0x100_0000))
  {
    var q := n / 0x100;
    DivModUnique(n, 0x1_0000, q / 0x100, q % 0x100 * 0x100 + n % 0x100);
    DivModUnique(n, 0x100_0000, n / 0x1_0000 / 0x100, n / 0x1_0000 % 0x100 * 0x1_0000 + n % 0x1_0000);
  }

  /** A field reads back as the number put there. */
  lemma LeAt(mem: Data, off: nat, n: u32)
    requires off + 4 <= |mem| && mem[off..off + 4] == Put4(n)
    ensures Le4(mem, off) == n
  {
    var q := mem[off..off + 4];
    assert mem[off] == q[0] && mem[off + 1] == q[1] && mem[off + 2] == q[2] && mem[off + 3] == q[3];
    FourBytes(n);
  }

  lemma Le2At(mem: Data, off: nat, n: nat)
    requires n < 0x1_0000 && off + 2 <= |mem| && mem[off..off + 2] == Put2(n)
    ensures Le2(mem, off) == n
  {
    var q := mem[off..off + 2];
    assert mem[off] == q[0] && mem[off + 1] == q[1];
  }

  lemma Le8At(mem: Data, off: nat, n: u64)
    requires off + 8 <= |mem| && mem[off..off + 8] == Put8(n)
    ensures Le8(mem, off) == n
  {
    hide Le4, Put4;
    var q := mem[off..off + 8];
    assert mem[off..off + 4] == q[..4] == Put4(n % 0x1_0000_0000);
    assert mem[off + 4..off + 8] == q[4..] == Put4(n / 0x1_0000_0000);
    LeAt(mem, off, n % 0x1_0000_0000);
    LeAt(mem, off + 4, n / 0x1_0000_0000);
  }

  lemma Middle(a: Data, b: Data, c: Data)
    ensures (a + b + c)[|a|..|a| + |b|] == b
  {
  }

  lemma SubSlice(s: Data, a: nat, b: nat, i: nat, j: nat)
    requires i <= j <= b - a && b <= |s|
    ensures s[a..b][i..j] == s[a + i..a + j]
  {
    var t, u := s[a..b][i..j], s[a + i..a + j];
    assert forall k :: 0 <= k < j - i ==> t[k] == s[a + i + k];
    assert forall k :: 0 <= k < j - i ==> u[k] == s[a + i + k];
  }
}
