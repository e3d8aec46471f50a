/** Hexadecimal text: the printer of the Python side and the readers of the C side. */
module Hex {
  import opened Bytes
  import opened Wrappers

  /** The value of a hex digit in either letter case. */
  function DigitValue(c: char): (v: Option<int>)
    ensures v.Some? ==> 0 <= v.value < 16
  {
    if '0' <= c <= '9' then Some(c as int - '0' as int)
    else if 'a' <= c <= 'f' then Some(c as int - 'a' as int + 10)
    else if 'A' <= c <= 'F' then Some(c as int - 'A' as int + 10)
    else None
  }

  predicate IsHex(text: string) {
    forall i :: 0 <= i < |text| ==> DigitValue(text[i]).Some?
  }

  /** A hex digit, in upper case if asked. */
  function Digit(v: int, upper: bool): (c: char)
    requires 0 <= v < 16
    ensures DigitValue(c) == Some(v)
  {
    if v < 10 then '0' + v as char
    else if upper then 'A' + (v - 10) as char
    else 'a' + (v - 10) as char
  }

  /** The sixteen digits in order, and no other character, are hex digits. */
  lemma DigitsInOrder(v: int, c: char)
    requires 0 <= v < 16
    ensures Digit(v, false) == "0123456789abcdef"[v] && Digit(v, true) == "0123456789ABCDEF"[v]
    ensures DigitValue(c) == Some(v) <==> c == "0123456789abcdef"[v] || c == "0123456789ABCDEF"[v]
  {
  }

  /** `bytes.hex()`: two digits a byte; `upper` chooses the letter case of every digit. */
  function Print(data: seq<byte>, upper: nat -> bool): (text: string)
    ensures |text| == 2 * |data|
    ensures forall i :: 0 <= i < |text| ==>
      text[i] == Digit(if i % 2 == 0 then data[i / 2] / 16 else data[i / 2] % 16, upper(i))
  {
    seq(2 * |data|, i requires 0 <= i < 2 * |data| =>
      Digit(if i % 2 == 0 then data[i / 2] / 16 else data[i / 2] % 16, upper(i)))
  }

  /** The byte written by the digits 2k and 2k + 1. */
  function PairValue(text: string, k: nat): byte
    requires 2 * k + 1 < |text| && IsHex(text)
  {
    16 * DigitValue(text[2 * k]).value + DigitValue(text[2 * k + 1]).value
  }

  /** The bytes of a hex text; a last odd digit is dropped. */
  function Decode(text: string): (data: seq<byte>)
    requires IsHex(text)
    ensures |data| == |text| / 2
  {
    seq(|text| / 2, k requires 0 <= k < |text| / 2 => PairValue(text, k))
  }

  /** Decoding inverts printing, whatever the letter case of each digit. */
  lemma DecodePrinted(data: seq<byte>, upper: nat -> bool)
    ensures IsHex(Print(data, upper)) && Decode(Print(data, upper)) == data
  {
    var text := Print(data, upper);
    forall k | 0 <= k < |data|
      ensures PairValue(text, k) == data[k]
    {
      assert (2 * k) % 2 == 0 && (2 * k) / 2 == k && (2 * k + 1) % 2 == 1 && (2 * k + 1) / 2 == k;
    }
  }

  /** Decode into a buffer.  On failure the pairs before the first bad digit have already been
      written.  The accumulator is a byte: it wraps at 256. */
  method Unhex(dst: array<byte>, src: string) returns (ret: int)
    modifies dst
    ensures ret >= 0 <==> IsHex(src) && |src| <= 2 * dst.Length
    ensures ret >= 0 ==> ret == |src| / 2 && dst[..ret] == Decode(src)
    ensures ret < 0 ==> ret == -1
    ensures forall k :: 0 <= k < dst.Length && 2 * k + 1 >= |src| ==> dst[k] == old(dst[k])
  {
    hide DigitValue;
    var acc: byte := 0;
    var i := 0;
    while i < |src| && i / 2 < dst.Length
      invariant 0 <= i <= |src| && i <= 2 * dst.Length
      invariant IsHex(src[..i])
      invariant acc == if i % 2 == 0 then 0 else DigitValue(src[i - 1]).value
      invariant forall k :: 0 <= k < i / 2 ==> dst[k] == 16 * DigitValue(src[2 * k]).value + DigitValue(src[2 * k + 1]).value
      invariant forall k :: i / 2 <= k < dst.Length ==> dst[k] == old(dst[k])
    {
      var digit := DigitValue(src[i]);
      if digit.None? {
        return -1;
      }
      acc := (acc * 16 % 256 + digit.value) % 256;
      if i % 2 != 0 {
        dst[i / 2] := acc;
        acc := 0;
      }
      assert src[..i + 1] == src[..i] + [src[i]];
      i := i + 1;
    }
    if i != |src| {
      return -1;
    }
    assert src[..i] == src;
    return |src| / 2;
  }

  const MAX_SEED_SIZE := 64

  /** The seed of the device: the one in the environment when it is hex text that fits, the default
      one otherwise, even if a bad text has spoiled part of the buffer. */
  method InitSeed(seed: array<byte>, environment: Option<string>, defaultSeed: seq<byte>) returns (size: int)
    requires seed.Length == MAX_SEED_SIZE && |defaultSeed| == MAX_SEED_SIZE
    modifies seed
    ensures 0 <= size <= MAX_SEED_SIZE
    ensures seed[..size] ==
      if environment.Some? && IsHex(environment.value) && |environment.value| <= 2 * MAX_SEED_SIZE
      then Decode(environment.value) else defaultSeed
  {
    var valid := false;
    if environment.Some? {
      size := Unhex(seed, environment.value);
      valid := size >= 0;
    }
    if !valid {
      for i := 0 to MAX_SEED_SIZE
        invariant forall k :: 0 <= k < i ==> seed[k] == defaultSeed[k]
      {
        seed[i] := defaultSeed[i];
      }
      size := MAX_SEED_SIZE;
    }
  }

  /** A seed of up to 64 bytes, printed in any letter case, is the seed of the device. */
  method SeedRoundTrip(buffer: array<byte>, seed: seq<byte>, upper: nat -> bool, defaultSeed: seq<byte>)
      returns (size: int)
    requires buffer.Length == 64 && |defaultSeed| == 64 && |seed| <= 64
    modifies buffer
    ensures 0 <= size <= 64 && buffer[..size] == seed
  {
    DecodePrinted(seed, upper);
    size := InitSeed(buffer, Some(Print(seed, upper)), defaultSeed);
  }
}
