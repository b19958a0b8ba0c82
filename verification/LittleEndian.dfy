/** Fixed-width little-endian integers, as the WAL and the SSTable files store them. */
module LittleEndian {
  import opened Base

  function Pow256(n: nat): (p: nat)
    ensures p > 0
  {
    if n == 0 then 1 else 0x100 * Pow256(n - 1)
  }

  function Put(x: nat, n: nat): (s: Bytes)
    ensures |s| == n
  {
    if n == 0 then [] else [x % 0x100] + Put(x / 0x100, n - 1)
  }

  function Get(s: Bytes): nat {
    if s == [] then 0 else s[0] + 0x100 * Get(s[1..])
  }

  /** The i-th byte has the weight 256^i. */
  lemma {:induction false} PutByte(x: nat, n: nat, i: nat)
    requires i < n
    ensures Put(x, n)[i] == (x / Pow256(i)) % 0x100
  {
    if i > 0 {
      PutByte(x / 0x100, n - 1, i - 1);
      DivTwice(x, Pow256(i - 1));
    } else {
      assert x / 1 == x;
    }
  }

  lemma DivTwice(x: nat, p: nat)
    requires p > 0
    ensures 0x100 * p > 0 && (x / 0x100) / p == x / (0x100 * p)
  {
    var part := x / 0x100;
    var q, r := part / p, part % p;
    assert part == q * p + r;
    Times256(q, p);
    QuotientOf(x, 0x100 * p, q, 0x100 * r + x % 0x100);
  }

  lemma Times256(q: nat, p: nat)
    ensures q * (0x100 * p) == 0x100 * (q * p)
  {}

  lemma QuotientOf(y: nat, p: nat, q: nat, a: nat)
    requires y == q * p + a && a < p
    ensures y / p == q
  {
    var d := y / p;
    assert y == d * p + y % p;
    TimesOrder(d, q, p);
    TimesOrder(q, d, p);
  }

  lemma TimesOrder(a: nat, b: nat, p: nat)
    ensures a < b ==> a * p + p <= b * p
  {
    if a < b {
      var d: nat := b - a - 1;
      assert b == a + 1 + d;
      Distribute(a + 1, d, p);
      Distribute(a, 1, p);
    }
  }

  lemma Distribute(a: nat, b: nat, p: nat)
    ensures (a + b) * p == a * p + b * p && b * p >= 0
  {}

  lemma {:induction false} GetPut(x: nat, n: nat)
    requires x < Pow256(n)
    ensures Get(Put(x, n)) == x
  {
    if n > 0 {
      GetPut(x / 0x100, n - 1);
    }
  }

  lemma {:induction false} GetBound(s: Bytes)
    ensures Get(s) < Pow256(|s|)
  {
    if s != [] {
      GetBound(s[1..]);
    }
  }

  lemma Widths()
    ensures Pow256(1) == 0x100 && Pow256(4) == 0x1_0000_0000 && Pow256(8) == 0x1_0000_0000_0000_0000
  {
    assert Pow256(2) == 0x1_0000 && Pow256(3) == 0x100_0000;
    assert Pow256(5) == 0x100_0000_0000 && Pow256(6) == 0x1_0000_0000_0000 && Pow256(7) == 0x100_0000_0000_0000;
  }

  /** uint32(n) of an int: Go keeps the low 32 bits. */
  function Low32(n: nat): (u: uint32)
    ensures n < 0x1_0000_0000 ==> u == n
  {
    n % 0x1_0000_0000
  }

  /** uint64(n) of a length or an offset. */
  function Low64(n: nat): (u: uint64)
    ensures n < TWO_64 ==> u == n
  {
    n % 0x1_0000_0000_0000_0000
  }

  function Put32(x: uint32): (s: Bytes)
    ensures |s| == 4 && Get32(s) == x
  {
    Widths();
    GetPut(x, 4);
    Put(x, 4)
  }

  function Put64(x: uint64): (s: Bytes)
    ensures |s| == 8 && Get64(s) == x
  {
    Widths();
    GetPut(x, 8);
    Put(x, 8)
  }

  function Get32(s: Bytes): uint32
    requires |s| == 4
  {
    Widths();
    GetBound(s);
    Get(s)
  }

  function Get64(s: Bytes): uint64
    requires |s| == 8
  {
    Widths();
    GetBound(s);
    Get(s)
  }

  /** uint64(t) of a signed integer: two's complement. */
  function Unsigned(t: int64): (u: uint64)
    ensures (u - t) % TWO_64 == 0
  {
    if t < 0 then t + 0x1_0000_0000_0000_0000 else t
  }

  function Signed(u: uint64): (t: int64)
    ensures Unsigned(t) == u
  {
    if u < 0x8000_0000_0000_0000 then u else u - 0x1_0000_0000_0000_0000
  }

  lemma SignedUnsigned(t: int64)
    ensures Signed(Unsigned(t)) == t
  {}

  /** PutUint32 and PutUint64 into dst[at..at+n]. */
  method Store(dst: array<byte>, at: nat, x: nat, n: nat)
    requires at + n <= dst.Length
    modifies dst
    ensures dst[..at + n] == old(dst[..at]) + Put(x, n) && dst[at + n..] == old(dst[at + n..])
  {
    var i, rest := 0, x;
    while i < n
      invariant 0 <= i <= n && 0 <= rest
      invariant dst[at + n..] == old(dst[at + n..])
      invariant dst[..at + i] + Put(rest, n - i) == old(dst[..at]) + Put(x, n)
    {
      ghost var before, low, high := dst[..at + i], [rest % 0x100], Put(rest / 0x100, n - i - 1);
      dst[at + i] := rest % 0x100;
      assert dst[..at + i + 1] == before + low;
      assert before + low + high == before + (low + high);
      rest, i := rest / 0x100, i + 1;
    }
    assert dst[..at + n] + [] == dst[..at + n];
  }

  /** copy(dst[at:], src). */
  method Copy(dst: array<byte>, at: nat, src: Bytes)
    requires at + |src| <= dst.Length
    modifies dst
    ensures dst[..at + |src|] == old(dst[..at]) + src && dst[at + |src|..] == old(dst[at + |src|..])
  {
    var i := 0;
    while i < |src|
      invariant 0 <= i <= |src|
      invariant dst[..at] == old(dst[..at]) && dst[at + i..] == old(dst[at + i..])
      invariant dst[at..at + i] == src[..i]
    {
      dst[at + i] := src[i];
      i := i + 1;
    }
    assert dst[..at + |src|] == dst[..at] + dst[at..at + |src|];
  }
}
