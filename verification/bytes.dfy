/** Fixed-width integers and byte strings as the Rust code uses them:
    `u8`, `u32`, `u64`, `Vec<u8>`/`Bytes`, `u64::to_be_bytes` and
    `<[u8]>::copy_from_slice`. */
module Bytes {

  const U32_MODULUS: nat := 0x1_0000_0000
  const U64_MODULUS: nat := 0x1_0000_0000_0000_0000

  type uint8 = x: int | 0 <= x < 0x100
  type uint32 = x: int | 0 <= x < 0x1_0000_0000
  type uint64 = x: int | 0 <= x < 0x1_0000_0000_0000_0000

  /** `Vec<u8>` and `bytes::Bytes` alike: an immutable string of bytes. */
  type Bytes = seq<uint8>

  /** The truncating cast `n as u32`. */
  function AsU32(n: nat): (r: uint32)
    ensures n < U32_MODULUS ==> r == n
    ensures r == n - (n / U32_MODULUS) * U32_MODULUS
  {
    n % U32_MODULUS
  }

  /** `vec![0u8; n]`. */
  function Zeros(n: nat): (r: Bytes)
    ensures |r| == n
    ensures forall i :: 0 <= i < n ==> r[i] == 0
  {
    seq(n, _ => 0)
  }

  /** 256 to the power `n`: the number of values `n` bytes can hold. */
  function Pow256(n: nat): (r: nat)
    ensures r > 0
  {
    if n == 0 then 1 else 256 * Pow256(n - 1)
  }

  lemma Pow256Of8()
    ensures Pow256(8) == U64_MODULUS
  {
  }

  /** Dividing off the last byte of a value that fits in `width` bytes
      leaves a value that fits in `width - 1` bytes. */
  lemma DivBound(v: nat, width: nat)
    requires width > 0 && v < Pow256(width)
    ensures v / 256 < Pow256(width - 1)
  {
    assert Pow256(width) == 256 * Pow256(width - 1);
  }

  /** Appending a byte to a value below `p` gives a value below `256 * p`. */
  lemma AppendBound(x: nat, b: uint8, p: nat)
    requires x < p
    ensures x * 256 + b < 256 * p
  {
    assert x * 256 <= (p - 1) * 256;
  }

  /** Big-endian encoding of `v` in exactly `width` bytes, most significant
      byte first; `u64::to_be_bytes` is the case `width == 8`. */
  function ToBigEndian(v: nat, width: nat): (r: Bytes)
    requires v < Pow256(width)
    ensures |r| == width
  {
    if width == 0 then []
    else
      DivBound(v, width);
      ToBigEndian(v / 256, width - 1) + [v % 256]
  }

  /** The value a big-endian byte string denotes (`u64::from_be_bytes`). */
  function FromBigEndian(s: Bytes): (v: nat)
    ensures v < Pow256(|s|)
  {
    if |s| == 0 then 0
    else
      var x := FromBigEndian(s[..|s| - 1]);
      AppendBound(x, s[|s| - 1], Pow256(|s| - 1));
      x * 256 + s[|s| - 1]
  }

  /** Decoding an encoding gives the value back. */
  lemma {:induction false} FromToBigEndian(v: nat, width: nat)
    requires v < Pow256(width)
    ensures FromBigEndian(ToBigEndian(v, width)) == v
  {
    if width > 0 {
      DivBound(v, width);
      var s := ToBigEndian(v, width);
      assert s[..width - 1] == ToBigEndian(v / 256, width - 1);
      FromToBigEndian(v / 256, width - 1);
      assert FromBigEndian(s) == (v / 256) * 256 + v % 256;
    }
  }

  /** Encoding a decoded string gives the string back. */
  lemma {:induction false} ToFromBigEndian(s: Bytes)
    ensures ToBigEndian(FromBigEndian(s), |s|) == s
  {
    if |s| > 0 {
      var init, last := s[..|s| - 1], s[|s| - 1];
      var x := FromBigEndian(init);
      assert FromBigEndian(s) == x * 256 + last;
      assert (x * 256 + last) / 256 == x;
      assert (x * 256 + last) % 256 == last;
      ToFromBigEndian(init);
      assert s == init + [last];
    }
  }

  /** `v.to_be_bytes()` for a `u64`. */
  function U64ToBeBytes(v: uint64): (r: Bytes)
    ensures |r| == 8
    ensures FromBigEndian(r) == v
  {
    Pow256Of8();
    FromToBigEndian(v, 8);
    ToBigEndian(v, 8)
  }

  /** Two views with the same big-endian bytes are the same view. */
  lemma U64ToBeBytesInjective(a: uint64, b: uint64)
    requires U64ToBeBytes(a) == U64ToBeBytes(b)
    ensures a == b
  {
  }

  /** `dst[lo..lo + src.len()].copy_from_slice(&src)`: overwrites the window
      starting at `lo` with `src`; panics (here: may not be called) when the
      window does not fit in `dst`. */
  function CopyFromSlice(dst: Bytes, lo: nat, src: Bytes): (r: Bytes)
    requires lo + |src| <= |dst|
    ensures |r| == |dst|
    ensures r[lo..lo + |src|] == src
    ensures forall i :: 0 <= i < |dst| && !(lo <= i < lo + |src|) ==> r[i] == dst[i]
  {
    dst[..lo] + src + dst[lo + |src|..]
  }
}
