/** Bytes, Python slices, and fixed-width integers on the wire. */
module Bytes {
  import opened Arith

  type byte = b: int | 0 <= b < 256

  /** `data[from:to]` for non-negative bounds: clamped to the data. */
  function Slice<T>(data: seq<T>, from: nat, to: nat): seq<T> {
    var start := Min(from, |data|);
    data[start..Max(start, Min(to, |data|))]
  }

  /** A slice of a suffix is a slice. */
  lemma SliceOfSuffix<T>(data: seq<T>, k: nat, from: nat, to: nat)
    requires k <= |data|
    ensures Slice(data[k..], from, to) == Slice(data, k + from, k + to)
  {
  }

  /** A suffix that is a concatenation starts with its first part and goes on with its second. */
  lemma SuffixParts<T>(data: seq<T>, offset: nat, first: seq<T>, second: seq<T>)
    requires offset <= |data| && data[offset..] == first + second
    ensures offset + |first| <= |data|
    ensures data[offset..offset + |first|] == first && data[offset + |first|..] == second
  {
    assert data[offset..offset + |first|] == data[offset..][..|first|];
    assert data[offset + |first|..] == data[offset..][|first|..];
  }

  /** A slice that is a concatenation, likewise. */
  lemma SliceParts<T>(data: seq<T>, from: nat, to: nat, first: seq<T>, second: seq<T>)
    requires from <= to <= |data| && data[from..to] == first + second
    ensures data[from..from + |first|] == first && data[from + |first|..to] == second
  {
    assert data[from..from + |first|] == data[from..to][..|first|];
    assert data[from + |first|..to] == data[from..to][|first|..];
  }

  /** Little-endian 16-bit field. */
  function Le16(n: int): (bytes: seq<byte>)
    requires 0 <= n < 0x10000
    ensures |bytes| == 2 && FromLe16(bytes[0], bytes[1]) == n && bytes[0] as int + 0x100 * bytes[1] as int == n
  {
    [n % 256, n / 256]
  }

  function FromLe16(lo: byte, hi: byte): (n: int)
    ensures 0 <= n < 0x10000
  {
    lo + 256 * hi
  }

  /** Little-endian 16-bit field in two's complement. */
  function SignedLe16(n: int): (bytes: seq<byte>)
    requires -0x8000 <= n < 0x8000
    ensures |bytes| == 2 && FromSignedLe16(bytes[0], bytes[1]) == n && bytes[0] as int + 0x100 * bytes[1] as int == n % 0x10000
  {
    assert n % 0x10000 == if n < 0 then n + 0x10000 else n;
    Le16(if n < 0 then n + 0x10000 else n)
  }

  function FromSignedLe16(lo: byte, hi: byte): int {
    var n := FromLe16(lo, hi);
    if n >= 0x8000 then n - 0x10000 else n
  }

  /** Big-endian 16-bit field. */
  function Be16(n: int): (bytes: seq<byte>)
    requires 0 <= n < 0x10000
    ensures |bytes| == 2 && FromBe16(bytes[0], bytes[1]) == n && 0x100 * bytes[0] as int + bytes[1] as int == n
  {
    [n / 256, n % 256]
  }

  function FromBe16(hi: byte, lo: byte): (n: int)
    ensures 0 <= n < 0x10000
  {
    256 * hi + lo
  }

  /** Big-endian 32-bit field. */
  function Be32(n: int): (bytes: seq<byte>)
    requires 0 <= n < 0x1_0000_0000
    ensures |bytes| == 4 && FromBe32(bytes) == n
    ensures 0x100_0000 * bytes[0] as int + 0x1_0000 * bytes[1] as int + 0x100 * bytes[2] as int + bytes[3] as int == n
  {
    Be16(n / 0x1_0000) + Be16(n % 0x1_0000)
  }

  function FromBe32(bytes: seq<byte>): (n: int)
    requires |bytes| == 4
    ensures 0 <= n < 0x1_0000_0000
  {
    FromBe16(bytes[0], bytes[1]) * 0x1_0000 + FromBe16(bytes[2], bytes[3])
  }
}
