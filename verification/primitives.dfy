/**
 * Go's fixed-width integers, byte strings and runtime panics, stated over
 * Dafny's unbounded integers. Every wrap-around of the Go code is written out
 * with the conversions below.
 */
module Primitives {

  type byte = x: int | 0 <= x < 0x100
  type uint16 = x: int | 0 <= x < 0x1_0000
  type uint32 = x: int | 0 <= x < 0x1_0000_0000
  type int8 = x: int | -0x80 <= x < 0x80
  type int16 = x: int | -0x8000 <= x < 0x8000
  type int32 = x: int | -0x8000_0000 <= x < 0x8000_0000

  /** A SHA-256 digest, a `[32]byte`. */
  type Hash = s: seq<byte> | |s| == 32 witness seq(32, i => 0)


  /** The Go runtime panics the modelled code can raise. */
  datatype Panic =
    | IndexOutOfRange       // s[i] with i >= len(s)
    | SliceBoundsOutOfRange // s[a:b] with a > b or b > cap(s)
    | ArrayConversion       // [N]T(s) with len(s) < N
    | NegativeMakeLength    // make([]T, n) with n < 0
    | NilDereference        // a field access through a nil pointer
    | BufferTooSmall        // big.Int.FillBytes into a short buffer

  /** Two's-complement reinterpretation of an unsigned value as a signed one. */
  function ToInt8(u: byte): (r: int8)
    ensures r % 0x100 == u
  {
    if u < 0x80 then u else u - 0x100
  }

  function ToInt16(u: uint16): (r: int16)
    ensures r % 0x1_0000 == u
  {
    if u < 0x8000 then u else u - 0x1_0000
  }

  function ToInt32(u: uint32): (r: int32)
    ensures r % 0x1_0000_0000 == u
  {
    if u < 0x8000_0000 then u else u - 0x1_0000_0000
  }

  /** 256 to the power k: the number of values a k-byte string can hold. */
  function Pow256(k: nat): (r: nat)
    ensures r > 0
  {
    if k == 0 then 1 else 256 * Pow256(k - 1)
  }

  /** The value of a byte string read big-endian (`big.Int.SetBytes`, or a sum of shifted bytes). */
  function BeValue(s: seq<byte>): nat
  {
    if |s| == 0 then 0 else BeValue(s[..|s| - 1]) * 256 + s[|s| - 1]
  }

  /** The k-byte big-endian representation of n, zero-padded on the left (`big.Int.FillBytes`). */
  function BeBytes(n: nat, k: nat): (r: seq<byte>)
    requires n < Pow256(k)
    ensures |r| == k
  {
    if k == 0 then []
    else
      assert n / 256 < Pow256(k - 1);
      BeBytes(n / 256, k - 1) + [n % 256]
  }

  lemma {:induction false} BeValueBound(s: seq<byte>)
    ensures BeValue(s) < Pow256(|s|)
  {
    if |s| > 0 {
      BeValueBound(s[..|s| - 1]);
      assert BeValue(s) <= (Pow256(|s| - 1) - 1) * 256 + 255;
    }
  }

  /** Reading back a big-endian representation gives the number written. */
  lemma {:induction false} BeValueOfBeBytes(n: nat, k: nat)
    requires n < Pow256(k)
    ensures BeValue(BeBytes(n, k)) == n
  {
    if k > 0 {
      var r := BeBytes(n, k);
      assert r[..|r| - 1] == BeBytes(n / 256, k - 1);
      BeValueOfBeBytes(n / 256, k - 1);
    }
  }

  /** Writing back the value of a byte string gives the same string. */
  lemma {:induction false} BeBytesOfBeValue(s: seq<byte>)
    ensures BeValue(s) < Pow256(|s|)
    ensures BeBytes(BeValue(s), |s|) == s
  {
    BeValueBound(s);
    if |s| > 0 {
      var init := s[..|s| - 1];
      BeBytesOfBeValue(init);
      var v := BeValue(s);
      assert v / 256 == BeValue(init) && v % 256 == s[|s| - 1];
      assert s == init + [s[|s| - 1]];
    }
  }

  /** Big-endian representation is injective on same-width strings. */
  lemma BeValueInjective(a: seq<byte>, b: seq<byte>)
    requires |a| == |b| && BeValue(a) == BeValue(b)
    ensures a == b
  {
    BeBytesOfBeValue(a);
    BeBytesOfBeValue(b);
  }

  /** The n NUL bytes. */
  function Nuls(n: nat): (r: seq<byte>)
    ensures |r| == n && forall i :: 0 <= i < n ==> r[i] == 0
  {
    seq(n, i => 0)
  }

  /** The zero value of a `[32]byte`. */
  const ZeroHash: Hash := Nuls(32)

  /**
   * Go's `string(b)` for a single byte b: the conversion treats b as the
   * code point U+00b and yields its UTF-8 encoding, two bytes from 0x80 on.
   */
  function RuneBytes(b: byte): (r: seq<byte>)
    ensures |r| == (if b < 0x80 then 1 else 2)
  {
    if b < 0x80 then [b] else [0xC0 + b / 64, 0x80 + b % 64]
  }

  /** `s += string(b)` for every byte b of the input, in order. */
  function RuneExpand(s: seq<byte>): seq<byte>
  {
    if |s| == 0 then [] else RuneExpand(s[..|s| - 1]) + RuneBytes(s[|s| - 1])
  }

  predicate IsAscii(s: seq<byte>)
  {
    forall i :: 0 <= i < |s| ==> s[i] < 0x80
  }

  /** Byte-by-byte string building never shortens, and lengthens on any byte from 0x80 on. */
  lemma {:induction false} RuneExpandLength(s: seq<byte>)
    ensures |RuneExpand(s)| >= |s|
    ensures !IsAscii(s) ==> |RuneExpand(s)| > |s|
  {
    if |s| > 0 {
      var init := s[..|s| - 1];
      RuneExpandLength(init);
      if !IsAscii(s) && IsAscii(init) {
        assert s[|s| - 1] >= 0x80;
      }
    }
  }

  /** Byte-by-byte string building keeps the bytes exactly when all are ASCII. */
  lemma {:induction false} RuneExpandIdentityIffAscii(s: seq<byte>)
    ensures RuneExpand(s) == s <==> IsAscii(s)
  {
    RuneExpandLength(s);
    if |s| > 0 && IsAscii(s) {
      var init := s[..|s| - 1];
      assert IsAscii(init);
      RuneExpandIdentityIffAscii(init);
      assert s == init + [s[|s| - 1]];
    }
  }
}
