/** Big-endian two's-complement integers as read by Python's `struct`
    formats `>i` (4 bytes) and `>q` (8 bytes), and their encoding. */
module BigEndian {

  type Byte = b: int | 0 <= b < 256

  /** 256 to the power `n`: one more than the largest `n`-byte unsigned value. */
  function Pow256(n: nat): (p: int)
    ensures p >= 1
  {
    if n == 0 then 1 else 256 * Pow256(n - 1)
  }

  /** Unsigned value of `bs`, most significant byte first. */
  function Unsigned(bs: seq<Byte>): (u: nat)
    ensures u < Pow256(|bs|)
    decreases |bs|
  {
    if |bs| == 0 then 0
    else Unsigned(bs[..|bs| - 1]) * 256 + bs[|bs| - 1]
  }

  /** Two's-complement value of a non-empty big-endian field. */
  function Signed(bs: seq<Byte>): (v: int)
    requires |bs| >= 1
    ensures -Pow256(|bs|) / 2 <= v < Pow256(|bs|) / 2
  {
    var u := Unsigned(bs);
    if u < Pow256(|bs|) / 2 then u else u - Pow256(|bs|)
  }

  /** The `n`-byte big-endian encoding of `u`. */
  function EncodeUnsigned(u: nat, n: nat): (bs: seq<Byte>)
    requires u < Pow256(n)
    ensures |bs| == n
    decreases n
  {
    if n == 0 then [] else EncodeUnsigned(u / 256, n - 1) + [u % 256]
  }

  /** The `n`-byte two's-complement encoding of `v`. */
  function EncodeSigned(v: int, n: nat): (bs: seq<Byte>)
    requires n >= 1 && -Pow256(n) / 2 <= v < Pow256(n) / 2
    ensures |bs| == n
  {
    EncodeUnsigned(if v < 0 then v + Pow256(n) else v, n)
  }

  lemma {:induction false} UnsignedEncodeRoundTrip(u: nat, n: nat)
    requires u < Pow256(n)
    ensures Unsigned(EncodeUnsigned(u, n)) == u
    decreases n
  {
    if n > 0 {
      UnsignedEncodeRoundTrip(u / 256, n - 1);
      var bs := EncodeUnsigned(u, n);
      assert bs[..|bs| - 1] == EncodeUnsigned(u / 256, n - 1);
    }
  }

  lemma {:induction false} EncodeUnsignedRoundTrip(bs: seq<Byte>)
    ensures EncodeUnsigned(Unsigned(bs), |bs|) == bs
    decreases |bs|
  {
    if |bs| > 0 {
      var init := bs[..|bs| - 1];
      EncodeUnsignedRoundTrip(init);
      var u := Unsigned(bs);
      assert u / 256 == Unsigned(init);
      assert u % 256 == bs[|bs| - 1];
      assert bs == init + [bs[|bs| - 1]];
    }
  }

  /** Decoding the encoding of a representable value gives the value back:
      what `struct.unpack('>i')`/`('>q')` read is what the harness wrote. */
  lemma SignedRoundTrip(v: int, n: nat)
    requires n >= 1 && -Pow256(n) / 2 <= v < Pow256(n) / 2
    ensures Signed(EncodeSigned(v, n)) == v
  {
    UnsignedEncodeRoundTrip(if v < 0 then v + Pow256(n) else v, n);
  }

  /** Encoding a decoded field gives the same bytes back, so every byte
      string of the right length is the encoding of exactly one value. */
  lemma EncodeSignedRoundTrip(bs: seq<Byte>)
    requires |bs| >= 1
    ensures EncodeSigned(Signed(bs), |bs|) == bs
  {
    EncodeUnsignedRoundTrip(bs);
  }

  /** `struct.unpack('>i', bs[off:off+4])[0]` */
  function Int32At(bs: seq<Byte>, off: nat): int
    requires off + 4 <= |bs|
  {
    Signed(bs[off..off + 4])
  }

  /** `struct.unpack('>q', bs[off:off+8])[0]` */
  function Int64At(bs: seq<Byte>, off: nat): int
    requires off + 8 <= |bs|
  {
    Signed(bs[off..off + 8])
  }

  /** A word written with `struct.pack('>q', v)` reads back as `v`. */
  lemma Int64AtEncode(v: int)
    requires IsInt64(v)
    ensures Int64At(EncodeSigned(v, 8), 0) == v
  {
    var e := EncodeSigned(v, 8);
    assert e[0..8] == e;
    SignedRoundTrip(v, 8);
  }

  /** `struct.pack('>q', v)`: eight bytes that read back as `v`. */
  function EncodeInt64(v: int): (bs: seq<Byte>)
    requires IsInt64(v)
    ensures |bs| == 8 && Int64At(bs, 0) == v
  {
    Int64AtEncode(v);
    EncodeSigned(v, 8)
  }

  /** The range of a signed 64-bit word. */
  predicate IsInt64(v: int) {
    -Pow256(8) / 2 <= v < Pow256(8) / 2
  }

  predicate IsInt32(v: int) {
    -Pow256(4) / 2 <= v < Pow256(4) / 2
  }
}
