/**
 * The byte-level codec underneath both fields.
 *
 * The repository delegates the conversion between a serialized integer and
 * its bytes to `processing::read_data` / `processing::write_data`, which are
 * not part of this model.  Here they are given a concrete definition: a value
 * of `bits` bits travels as `ByteLength(bits)` bytes, most significant byte
 * first for big endian and least significant byte first for little endian.
 * This is the byte order the bitfield tests expect (a 24-bit aggregate
 * `0x076808` is written as `07 68 08` big-endian and `08 68 07`
 * little-endian, test/bitfield.cpp:252 and :264).
 */
module ByteCodec {
  import opened Bits

  type byte = x: int | 0 <= x < 256

  datatype Endian = Big | Little

  /** Number of bytes needed for `bits` bits: `bits / 8`, plus one for a partial byte. */
  function ByteLength(bits: nat): (n: nat)
    ensures bits <= 8 * n < bits + 8
  {
    bits / 8 + (if bits % 8 != 0 then 1 else 0)
  }

  lemma Pow2Step8(n: nat)
    ensures Pow2(8 * n + 8) == 256 * Pow2(8 * n)
  {
    Pow2Add(8 * n, 8);
    Pow2Byte();
  }

  /** The `n` least-significant bytes of `v`, least significant first. */
  function EncodeLE(n: nat, v: nat): (r: seq<byte>)
    ensures |r| == n
  {
    if n == 0 then [] else [v % 256] + EncodeLE(n - 1, v / 256)
  }

  function DecodeLE(s: seq<byte>): (r: nat)
    ensures r < Pow2(8 * |s|)
  {
    if |s| == 0 then 0
    else
      Pow2Step8(|s| - 1);
      s[0] + 256 * DecodeLE(s[1..])
  }

  /** The `n` least-significant bytes of `v`, most significant first. */
  function EncodeBE(n: nat, v: nat): (r: seq<byte>)
    ensures |r| == n
  {
    if n == 0 then [] else EncodeBE(n - 1, v / 256) + [v % 256]
  }

  function DecodeBE(s: seq<byte>): (r: nat)
    ensures r < Pow2(8 * |s|)
  {
    if |s| == 0 then 0
    else
      Pow2Step8(|s| - 1);
      DecodeBE(s[..|s| - 1]) * 256 + s[|s| - 1]
  }

  function Encode(e: Endian, n: nat, v: nat): (r: seq<byte>)
    ensures |r| == n
  {
    match e
    case Big => EncodeBE(n, v)
    case Little => EncodeLE(n, v)
  }

  function Decode(e: Endian, s: seq<byte>): (r: nat)
    ensures r < Pow2(8 * |s|)
  {
    match e
    case Big => DecodeBE(s)
    case Little => DecodeLE(s)
  }

  /** Shared step of both round trips: one byte split off the bottom of `v`. */
  lemma ByteStep(v: nat, n: nat)
    ensures v % 256 + 256 * ((v / 256) % Pow2(8 * n)) == v % Pow2(8 * n + 8)
  {
    Pow2Step8(n);
    Recombine(v, 256, Pow2(8 * n));
    DivDiv(v, 256, Pow2(8 * n));
    var low := v % 256 + 256 * ((v / 256) % Pow2(8 * n));
    MulMono((v / 256) % Pow2(8 * n), Pow2(8 * n) - 1, 256);
    DivModUnique(v, 256 * Pow2(8 * n), (v / 256) / Pow2(8 * n), low);
  }

  lemma {:induction false} DecodeEncodeLE(n: nat, v: nat)
    ensures DecodeLE(EncodeLE(n, v)) == v % Pow2(8 * n)
  {
    if n > 0 {
      var s := EncodeLE(n, v);
      assert s[1..] == EncodeLE(n - 1, v / 256);
      DecodeEncodeLE(n - 1, v / 256);
      ByteStep(v, n - 1);
    }
  }

  lemma {:induction false} DecodeEncodeBE(n: nat, v: nat)
    ensures DecodeBE(EncodeBE(n, v)) == v % Pow2(8 * n)
  {
    if n > 0 {
      var s := EncodeBE(n, v);
      assert s[..n - 1] == EncodeBE(n - 1, v / 256);
      DecodeEncodeBE(n - 1, v / 256);
      ByteStep(v, n - 1);
    }
  }

  lemma {:induction false} EncodeDecodeLE(s: seq<byte>)
    ensures EncodeLE(|s|, DecodeLE(s)) == s
  {
    if |s| > 0 {
      var d := DecodeLE(s[1..]);
      DivModUnique(DecodeLE(s), 256, d, s[0]);
      EncodeDecodeLE(s[1..]);
    }
  }

  lemma {:induction false} EncodeDecodeBE(s: seq<byte>)
    ensures EncodeBE(|s|, DecodeBE(s)) == s
  {
    if |s| > 0 {
      var n := |s| - 1;
      var d := DecodeBE(s[..n]);
      DivModUnique(DecodeBE(s), 256, d, s[n]);
      EncodeDecodeBE(s[..n]);
    }
  }

  /** Decoding what was encoded gives back the value, reduced to the bytes written. */
  lemma DecodeEncode(e: Endian, n: nat, v: nat)
    ensures Decode(e, Encode(e, n, v)) == v % Pow2(8 * n)
  {
    match e
    case Big => DecodeEncodeBE(n, v);
    case Little => DecodeEncodeLE(n, v);
  }

  /** Encoding what was decoded gives back the bytes. */
  lemma EncodeDecode(e: Endian, s: seq<byte>)
    ensures Encode(e, |s|, Decode(e, s)) == s
  {
    match e
    case Big => EncodeDecodeBE(s);
    case Little => EncodeDecodeLE(s);
  }

  /**
   * `write_data<bits, endian>(v, iter)`: emits the `ByteLength(bits)` bytes
   * holding `v`.
   */
  function WriteData(bits: nat, e: Endian, v: nat): (r: seq<byte>)
    ensures |r| == ByteLength(bits)
    ensures Decode(e, r) == v % Pow2(8 * ByteLength(bits))
  {
    DecodeEncode(e, ByteLength(bits), v);
    Encode(e, ByteLength(bits), v)
  }

  /**
   * `read_data<bits, T, endian>(iter)`: consumes `ByteLength(bits)` bytes and
   * yields the `bits`-bit value they hold.
   */
  function ReadData(bits: nat, e: Endian, s: seq<byte>): (r: nat)
    requires ByteLength(bits) <= |s|
    ensures r < Pow2(bits)
  {
    LowBits(Decode(e, s[..ByteLength(bits)]), bits)
  }

  /** A value of at most `bits` bits survives being written and read back. */
  lemma ReadWriteData(bits: nat, e: Endian, v: nat)
    ensures ReadData(bits, e, WriteData(bits, e, v)) == LowBits(v, bits)
  {
    var n := ByteLength(bits);
    var s := WriteData(bits, e, v);
    assert s[..n] == s;
    LowBitsOfLowBits(v, bits, 8 * n);
  }

  /** For whole bytes, reading then writing reproduces the bytes that were read. */
  lemma WriteReadData(bits: nat, e: Endian, s: seq<byte>)
    requires bits % 8 == 0 && ByteLength(bits) <= |s|
    ensures WriteData(bits, e, ReadData(bits, e, s)) == s[..ByteLength(bits)]
  {
    var n := ByteLength(bits);
    var d := Decode(e, s[..n]);
    assert 8 * n == bits;
    ModSmall(d, Pow2(bits));
    EncodeDecode(e, s[..n]);
  }
}
