/**
  Bytes, Java's fixed-width integers, and the big-endian conversions that
  `java.nio.ByteBuffer` performs in its default byte order.
 */
module Bytes {

  /** An octet, as the unsigned value Java's `byte` holds in a buffer. */
  newtype byte = x: int | 0 <= x < 256

  /** Java `int`: 32-bit two's complement. */
  type int32 = x: int | -0x8000_0000 <= x < 0x8000_0000

  /** Java `long`: 64-bit two's complement. */
  type int64 = x: int | -0x8000_0000_0000_0000 <= x < 0x8000_0000_0000_0000

  const TWO_32: nat := 0x1_0000_0000
  const TWO_64: nat := 0x1_0000_0000_0000_0000

  function Min(a: int, b: int): int { if a <= b then a else b }

  function Max(a: int, b: int): int { if a >= b then a else b }

  /** Why a buffer or file operation produced no value: too few bytes for a
      header, an absolute index past the buffer's limit, or a negative
      position or count that the Java library rejects. */
  datatype Failure = Truncated | IndexOutOfBounds | IllegalArgument

  datatype Result<+T> = Ok(value: T) | Err(error: Failure)

  function Pow256(n: nat): (r: nat)
    ensures r >= 1
  {
    if n == 0 then 1 else 256 * Pow256(n - 1)
  }

  /** The unsigned value of `s` read most significant byte first. */
  function FromBE(s: seq<byte>): (r: nat)
    ensures r < Pow256(|s|)
  {
    if |s| == 0 then 0 else FromBE(s[..|s| - 1]) * 256 + s[|s| - 1] as nat
  }

  /** The `n` low-order bytes of `u`, most significant first. */
  function ToBE(u: nat, n: nat): (r: seq<byte>)
    ensures |r| == n
  {
    if n == 0 then [] else ToBE(u / 256, n - 1) + [(u % 256) as byte]
  }

  lemma {:induction false} FromToBE(u: nat, n: nat)
    requires u < Pow256(n)
    ensures FromBE(ToBE(u, n)) == u
  {
    if n > 0 {
      var q := u / 256;
      var r := ToBE(u, n);
      assert r == ToBE(q, n - 1) + [(u % 256) as byte];
      assert r[..n - 1] == ToBE(q, n - 1);
      DivideByte(u, Pow256(n - 1));
      FromToBE(q, n - 1);
    }
  }

  /** Splitting off the low byte: `u` is its quotient by 256 shifted left
      plus the byte, and the quotient stays below a bound `u` respects. */
  lemma DivideByte(u: nat, p: nat)
    requires u < 256 * p
    ensures u / 256 < p
    ensures u == (u / 256) * 256 + u % 256
    ensures ((u % 256) as byte) as nat == u % 256
  {
    var q := u / 256;
    assert u == q * 256 + u % 256;
  }

  /** Zero is all zero bytes, whatever the width. */
  lemma {:induction false} ToBEZero(n: nat)
    ensures ToBE(0, n) == seq(n, _ => 0 as byte)
  {
    if n > 0 {
      ToBEZero(n - 1);
    }
  }

  lemma {:induction false} ToFromBE(s: seq<byte>)
    ensures ToBE(FromBE(s), |s|) == s
  {
    if |s| > 0 {
      var init := s[..|s| - 1];
      var u := FromBE(s);
      assert u / 256 == FromBE(init);
      assert (u % 256) as byte == s[|s| - 1];
      ToFromBE(init);
      assert s == init + [s[|s| - 1]];
    }
  }

  /** Two's-complement wrap-around of an arbitrary integer into a Java `int`. */
  function Wrap32(x: int): int32
  {
    var m := x % TWO_32;
    if m >= 0x8000_0000 then m - TWO_32 else m
  }

  /** Two's-complement wrap-around into a Java `long`. */
  function Wrap64(x: int): int64
  {
    var m := x % TWO_64;
    if m >= 0x8000_0000_0000_0000 then m - TWO_64 else m
  }

  /** Wrapping changes a value by a multiple of 2^32. */
  lemma Wrap32Congruent(x: int)
    ensures (Wrap32(x) - x) % TWO_32 == 0
  {
  }

  /** Wrapping is the identity on values that already fit an `int`. */
  lemma Wrap32Fits(x: int)
    requires -0x8000_0000 <= x < 0x8000_0000
    ensures Wrap32(x) == x
  {
  }

  /** Adding then subtracting the same amount under 32-bit wrap-around
      gives back the original `int`. */
  lemma Wrap32AddSub(x: int32, k: int)
    ensures Wrap32(Wrap32(x + k) - k) == x
  {
    WrapTwice(x, k);
    Wrap32Fits(x);
  }

  /** Adding then subtracting `k` under wrap-around wraps the start value. */
  lemma WrapTwice(n: int, k: int)
    ensures Wrap32(Wrap32(n + k) - k) == Wrap32(n)
  {
    var a := Wrap32(n + k);
    var b := Wrap32(a - k);
    var c := Wrap32(n);
    Wrap32Congruent(n + k);
    Wrap32Congruent(a - k);
    Wrap32Congruent(n);
    assert (b - c) - (b - (a - k)) - (a - (n + k)) + (c - n) == 0;
    SameResidue(b, c);
  }

  /** Two Java `int`s that agree modulo 2^32 are equal. */
  lemma SameResidue(a: int32, b: int32)
    requires (a - b) % TWO_32 == 0
    ensures a == b
  {
  }

  /** `ByteBuffer.putInt`: the four big-endian bytes of an `int`. */
  function EncodeInt(x: int32): (r: seq<byte>)
    ensures |r| == 4
  {
    ToBE(x % TWO_32, 4)
  }

  /** `ByteBuffer.getInt` on four bytes. */
  function DecodeInt(s: seq<byte>): int32
    requires |s| == 4
  {
    Wrap32(FromBE(s))
  }

  /** `ByteBuffer.putLong`: the eight big-endian bytes of a `long`. */
  function EncodeLong(x: int64): (r: seq<byte>)
    ensures |r| == 8
  {
    ToBE(x % TWO_64, 8)
  }

  /** `ByteBuffer.getLong` on eight bytes. */
  function DecodeLong(s: seq<byte>): int64
    requires |s| == 8
  {
    Wrap64(FromBE(s))
  }

  lemma Pow256Values()
    ensures Pow256(4) == TWO_32 && Pow256(8) == TWO_64
  {
    assert Pow256(1) == 256;
    assert Pow256(2) == 0x1_0000;
    assert Pow256(3) == 0x100_0000;
    assert Pow256(4) == TWO_32;
    assert Pow256(5) == 0x100_0000_0000;
    assert Pow256(6) == 0x1_0000_0000_0000;
    assert Pow256(7) == 0x100_0000_0000_0000;
  }

  /** The unsigned image of a Java `int` wraps back to that `int`. */
  lemma Wrap32Unsigned(x: int32)
    ensures 0 <= x % TWO_32 < TWO_32
    ensures Wrap32(x % TWO_32) == x
  {
    if x >= 0 {
      assert x % TWO_32 == x;
    } else {
      assert x % TWO_32 == x + TWO_32;
    }
  }

  /** The unsigned image of a Java `long` wraps back to that `long`. */
  lemma Wrap64Unsigned(x: int64)
    ensures 0 <= x % TWO_64 < TWO_64
    ensures Wrap64(x % TWO_64) == x
  {
    if x >= 0 {
      assert x % TWO_64 == x;
    } else {
      assert x % TWO_64 == x + TWO_64;
    }
  }

  /** Wrapping an unsigned 32-bit value and taking it modulo 2^32 again is the identity. */
  lemma Unsigned32Wrap(u: nat)
    requires u < TWO_32
    ensures Wrap32(u) % TWO_32 == u
  {
    assert u % TWO_32 == u;
    if u >= 0x8000_0000 {
      assert (u - TWO_32) % TWO_32 == u;
    }
  }

  lemma Unsigned64Wrap(u: nat)
    requires u < TWO_64
    ensures Wrap64(u) % TWO_64 == u
  {
    assert u % TWO_64 == u;
    if u >= 0x8000_0000_0000_0000 {
      assert (u - TWO_64) % TWO_64 == u;
    }
  }

  lemma DecodeEncodeInt(x: int32)
    ensures DecodeInt(EncodeInt(x)) == x
  {
    Pow256Values();
    Wrap32Unsigned(x);
    FromToBE(x % TWO_32, 4);
  }

  lemma EncodeDecodeInt(s: seq<byte>)
    requires |s| == 4
    ensures EncodeInt(DecodeInt(s)) == s
  {
    Pow256Values();
    Unsigned32Wrap(FromBE(s));
    ToFromBE(s);
  }

  lemma DecodeEncodeLong(x: int64)
    ensures DecodeLong(EncodeLong(x)) == x
  {
    Pow256Values();
    Wrap64Unsigned(x);
    FromToBE(x % TWO_64, 8);
  }

  lemma EncodeDecodeLong(s: seq<byte>)
    requires |s| == 8
    ensures EncodeLong(DecodeLong(s)) == s
  {
    Pow256Values();
    Unsigned64Wrap(FromBE(s));
    ToFromBE(s);
  }

  /** Absolute `getInt(offset)` on a buffer whose limit is `|s|`. */
  function GetInt(s: seq<byte>, offset: nat): int32
    requires offset + 4 <= |s|
  {
    DecodeInt(s[offset..offset + 4])
  }

  /** Absolute `getLong(offset)` on a buffer whose limit is `|s|`. */
  function GetLong(s: seq<byte>, offset: nat): int64
    requires offset + 8 <= |s|
  {
    DecodeLong(s[offset..offset + 8])
  }
}
