/** Bytes and big-endian integers. */
module Bytes {

  type byte = b: int | 0 <= b < 256

  const MAX16 := 0x1_0000
  const MAX32 := 0x1_0000_0000

  type Word = n: int | 0 <= n < 0x1_0000
  type Long = n: int | 0 <= n < 0x1_0000_0000

  /** 32-bit wrap-around. */
  function Wrap32(n: int): Long {
    n % MAX32
  }

  /** Conversion to a signed integer of 32 bits. */
  function Signed32(n: int): int {
    var w: int := n % MAX32;
    if w < MAX32 / 2 then w else w - MAX32
  }

  /** The number of values of a size_t, of 64 bits (wide) or 32 bits. */
  function Sizes(wide: bool): (r: int)
    ensures r >= MAX32
  {
    if wide then 0x1_0000_0000_0000_0000 else MAX32
  }

  /** Wrap-around of a size_t. */
  function AsSize(n: int, wide: bool): nat {
    n % Sizes(wide)
  }

  lemma SizeWraps(n: int, wide: bool)
    requires -Sizes(wide) <= n < 2 * Sizes(wide)
    ensures AsSize(n, wide) == if n < 0 then n + Sizes(wide) else if n < Sizes(wide) then n else n - Sizes(wide)
  {
  }

  predicate Is16(n: int) { 0 <= n < MAX16 }

  predicate Is32(n: int) { 0 <= n < MAX32 }

  function Put16(n: int): (r: seq<byte>)
    requires Is16(n)
    ensures |r| == 2
  {
    [n / 0x100, n % 0x100]
  }

  function Put24(n: int): (r: seq<byte>)
    requires 0 <= n < 0x100_0000
    ensures |r| == 3
  {
    [n / 0x1_0000, n / 0x100 % 0x100, n % 0x100]
  }

  function Put32(n: int): (r: seq<byte>)
    requires Is32(n)
    ensures |r| == 4
  {
    [n / 0x100_0000, n / 0x1_0000 % 0x100, n / 0x100 % 0x100, n % 0x100]
  }

  function Get16(s: seq<byte>, at: nat): (n: int)
    requires at + 2 <= |s|
    ensures Is16(n)
  {
    var a: int, b: int := s[at], s[at + 1];
    a * 0x100 + b
  }

  function Get24(s: seq<byte>, at: nat): (n: int)
    requires at + 3 <= |s|
    ensures 0 <= n < 0x100_0000
  {
    var a: int, b: int, c: int := s[at], s[at + 1], s[at + 2];
    a * 0x1_0000 + b * 0x100 + c
  }

  function Get32(s: seq<byte>, at: nat): (n: int)
    requires at + 4 <= |s|
    ensures Is32(n)
  {
    var a: int, b: int, c: int, d: int := s[at], s[at + 1], s[at + 2], s[at + 3];
    a * 0x100_0000 + b * 0x1_0000 + c * 0x100 + d
  }

  function Zeros(n: nat): (r: seq<byte>)
    ensures |r| == n && forall i :: 0 <= i < n ==> r[i] == 0
  {
    seq(n, _ => 0)
  }

  /** What stands at a place can be read from there. */
  lemma Read16(s: seq<byte>, at: nat, n: int)
    requires Is16(n) && at + 2 <= |s| && s[at..at + 2] == Put16(n)
    ensures Get16(s, at) == n
  {
    assert s[at] == s[at..at + 2][0] && s[at + 1] == s[at..at + 2][1];
  }

  lemma Read24(s: seq<byte>, at: nat, n: int)
    requires 0 <= n < 0x100_0000 && at + 3 <= |s| && s[at..at + 3] == Put24(n)
    ensures Get24(s, at) == n
  {
    var t := s[at..at + 3];
    assert s[at] == t[0] && s[at + 1] == t[1] && s[at + 2] == t[2];
  }

  lemma Read32(s: seq<byte>, at: nat, n: int)
    requires Is32(n) && at + 4 <= |s| && s[at..at + 4] == Put32(n)
    ensures Get32(s, at) == n
  {
    hide Put32;
    var t := s[at..at + 4];
    assert s[at] == t[0] && s[at + 1] == t[1] && s[at + 2] == t[2] && s[at + 3] == t[3];
    PutDigits(n);
  }

  lemma PutDigits(n: int)
    requires Is32(n)
    ensures var d := Put32(n);
      d[0] as int * 0x100_0000 + d[1] as int * 0x1_0000 + d[2] as int * 0x100 + d[3] as int == n
  {
    var a, b := n / 0x100, n / 0x1_0000;
    assert n == a * 0x100 + n % 0x100 && a == b * 0x100 + a % 0x100 && b == b / 0x100 * 0x100 + b % 0x100;
    assert b / 0x100 == n / 0x100_0000 && a / 0x100 == b;
  }

  // ---- overwriting ------------------------------------------------------------------------------

  function PutAt(data: seq<byte>, at: nat, b: seq<byte>): (r: seq<byte>)
    requires at + |b| <= |data|
    ensures |r| == |data|
  {
    data[..at] + b + data[at + |b|..]
  }

  lemma PutAtKeeps(data: seq<byte>, at: nat, b: seq<byte>, from: nat, to: nat)
    requires at + |b| <= |data| && from <= to <= |data| && (to <= at || at + |b| <= from)
    ensures PutAt(data, at, b)[from..to] == data[from..to]
  {
  }

  lemma PutAtPlaces(data: seq<byte>, at: nat, b: seq<byte>)
    requires at + |b| <= |data|
    ensures PutAt(data, at, b)[at..at + |b|] == b
  {
  }

  lemma SameWord(a: seq<byte>, b: seq<byte>, at: nat)
    requires at + 4 <= |a| == |b| && a[at..at + 4] == b[at..at + 4]
    ensures Get32(a, at) == Get32(b, at)
  {
    var x, y := a[at..at + 4], b[at..at + 4];
    assert a[at] == x[0] == y[0] == b[at] && a[at + 1] == x[1] == y[1] == b[at + 1];
    assert a[at + 2] == x[2] == y[2] == b[at + 2] && a[at + 3] == x[3] == y[3] == b[at + 3];
  }

  /** pack_into(">I", out, at, n). */
  method PackInto(out: array<byte>, at: nat, n: int)
    requires at + 4 <= out.Length && Is32(n)
    modifies out
    ensures out[..] == PutAt(old(out[..]), at, Put32(n))
  {
    var b := Put32(n);
    out[at], out[at + 1], out[at + 2], out[at + 3] := b[0], b[1], b[2], b[3];
  }

  lemma SliceOfPrefix(s: seq<byte>, end: nat, from: nat, to: nat)
    requires from <= to <= end <= |s|
    ensures s[..end][from..to] == s[from..to]
  {
  }

  lemma SliceOfSlice(s: seq<byte>, at: nat, n: nat, from: nat, to: nat)
    requires at + n <= |s| && from <= to <= n
    ensures s[at..at + n][from..to] == s[at + from..at + to]
  {
    var t := s[at..at + n];
    assert forall i :: 0 <= i < to - from ==> t[from..to][i] == t[from + i] == s[at + from + i];
  }

  /** The two halves of a slice. */
  lemma Halves(s: seq<byte>, at: nat, a: seq<byte>, b: seq<byte>)
    requires at + |a| + |b| <= |s| && s[at..at + |a| + |b|] == a + b
    ensures s[at..at + |a|] == a && s[at + |a|..at + |a| + |b|] == b
  {
    SliceOfSlice(s, at, |a| + |b|, 0, |a|);
    SliceOfSlice(s, at, |a| + |b|, |a|, |a| + |b|);
    assert (a + b)[0..|a|] == a && (a + b)[|a|..|a| + |b|] == b;
  }

  lemma SliceOfSuffix(s: seq<byte>, start: nat, from: nat, to: nat)
    requires start <= from <= to <= |s|
    ensures s[start..][from - start..to - start] == s[from..to]
  {
  }

  /** memcpy. */
  method CopyBytes(dst: array<byte>, dstAt: nat, src: array<byte>, srcAt: nat, n: nat)
    requires dstAt + n <= dst.Length && srcAt + n <= src.Length && dst != src
    modifies dst
    ensures dst[..] == PutAt(old(dst[..]), dstAt, src[srcAt..srcAt + n])
  {
    forall i | 0 <= i < n {
      dst[dstAt + i] := src[srcAt + i];
    }
  }

  /** Overwriting inside a prefix. */
  lemma PutAtPrefix(data: seq<byte>, at: nat, b: seq<byte>, end: nat)
    requires at + |b| <= end <= |data|
    ensures PutAt(data, at, b)[..end] == PutAt(data[..end], at, b)
  {
  }
}
