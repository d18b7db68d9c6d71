/** The status values the two codecs return (a subset of the marshalling library's `status_type`). */
module StatusCodes {
  datatype Status = Success | NotEnoughData | BufferOverflow
}

/**
 * The `fixed_bit_length` adapter: an integer field whose wire form is exactly
 * `width` bits, carried in `ceil(width / 8)` bytes.
 */
module FixedBitLengthAdapter {
  import opened Bits
  import opened ByteCodec
  import opened StatusCodes

  /**
   * `to_serialized`: the value cast into the `w`-bit serialized type (its
   * `w` low bits), and, for a signed base type, bit `w - 1` set exactly when
   * the value is negative.
   */
  function ToSerialized(w: nat, signed: bool, v: int): (r: nat)
    requires 0 < w
    ensures r < Pow2(w)
    ensures !signed ==> r == v % Pow2(w)
    ensures !signed && 0 <= v < Pow2(w) ==> r == v
    ensures signed ==> (Bit(r, w - 1) == 1 <==> v < 0)
    ensures r % Pow2(w - 1) == v % Pow2(w - 1)
  {
    var s: nat := v % Pow2(w);
    LowBitsOfLowBits(v, w - 1, w);
    if !signed then
      if 0 <= v then ModSmallIfBelow(v, w); s else s
    else if v < 0 then
      SetBitBelow(s, w - 1);
      SetBit(s, w - 1)
    else
      ClearBitBelow(s, w - 1);
      ClearBit(s, w - 1)
  }

  lemma ModSmallIfBelow(v: nat, w: nat)
    ensures v < Pow2(w) ==> v % Pow2(w) == v
  {
    if v < Pow2(w) {
      ModSmall(v, Pow2(w));
    }
  }

  /** Setting bit `k` of a value below `Pow2(k + 1)` keeps it below `Pow2(k + 1)`. */
  lemma SetBitBelow(s: nat, k: nat)
    requires s < Pow2(k + 1)
    ensures SetBit(s, k) < Pow2(k + 1)
  {
    ModSmall(s, Pow2(k + 1));
    DivBounds(SetBit(s, k), Pow2(k + 1));
  }

  lemma ClearBitBelow(s: nat, k: nat)
    requires s < Pow2(k + 1)
    ensures ClearBit(s, k) < Pow2(k + 1)
  {
    ModSmall(s, Pow2(k + 1));
    DivBounds(ClearBit(s, k), Pow2(k + 1));
  }

  /** A `w`-bit value is split by its top bit: below `Pow2(w - 1)` exactly when that bit is 0. */
  lemma TopBit(s: nat, w: nat)
    requires 0 < w && s < Pow2(w)
    ensures Bit(s, w - 1) == 0 <==> s < Pow2(w - 1)
  {
    Pow2One();
    Decompose(s, w - 1, 1);
    ModSmall(s, Pow2(w));
    assert s == s % Pow2(w - 1) + Bit(s, w - 1) * Pow2(w - 1);
  }

  /**
   * `from_serialized`: for a signed base type with bit `w - 1` set the result
   * is widened with `-1 << w`, i.e. all bits from `w` up are set.  On a
   * `w`-bit value that OR subtracts `Pow2(w)`.
   */
  function FromSerialized(w: nat, signed: bool, s: nat): (r: int)
    requires 0 < w && s < Pow2(w)
    ensures r % Pow2(w) == s
    ensures !signed ==> r == s
    ensures signed ==> (r < 0 <==> Bit(s, w - 1) == 1)
    ensures signed ==> -(Pow2(w - 1) as int) <= r < Pow2(w - 1)
  {
    TopBit(s, w);
    Pow2Add(w - 1, 1);
    Pow2One();
    if signed && Bit(s, w - 1) == 1 then
      DivModUnique(s - Pow2(w), Pow2(w), -1, s);
      s - Pow2(w)
    else
      ModSmall(s, Pow2(w));
      s
  }

  /** The serialized form read back gives the value, for every value the base type can represent in `w` bits. */
  lemma FromToSerialized(w: nat, signed: bool, v: int)
    requires 0 < w
    requires if signed then -(Pow2(w - 1) as int) <= v < Pow2(w - 1) else 0 <= v < Pow2(w)
    ensures FromSerialized(w, signed, ToSerialized(w, signed, v)) == v
  {
    var s := ToSerialized(w, signed, v);
    if signed {
      Pow2Add(w - 1, 1);
      Pow2One();
      TopBit(s, w);
      if v < 0 {
        DivModUnique(v, Pow2(w), -1, v + Pow2(w));
        SetBitKeeps(v % Pow2(w), w);
      } else {
        ModSmall(v, Pow2(w));
        ClearBitKeeps(v, w);
      }
    }
  }

  /** Setting bit `w - 1` of a `w`-bit value whose top bit is already 1 changes nothing. */
  lemma SetBitKeeps(s: nat, w: nat)
    requires 0 < w && Pow2(w - 1) <= s < Pow2(w)
    ensures SetBit(s, w - 1) == s
  {
    TopBit(s, w);
    ModSmall(s, Pow2(w));
    Decompose(s, w - 1, 1);
    Decompose(SetBit(s, w - 1), w - 1, 1);
  }

  lemma ClearBitKeeps(s: nat, w: nat)
    requires 0 < w && s < Pow2(w - 1)
    ensures ClearBit(s, w - 1) == s
  {
    Pow2Mono(w - 1, w);
    TopBit(s, w);
    ModSmall(s, Pow2(w));
    Decompose(s, w - 1, 1);
    Decompose(ClearBit(s, w - 1), w - 1, 1);
  }

  /** Serializing the deserialized value gives back the serialized form. */
  lemma ToFromSerialized(w: nat, signed: bool, s: nat)
    requires 0 < w && s < Pow2(w)
    ensures ToSerialized(w, signed, FromSerialized(w, signed, s)) == s
  {
    var v := FromSerialized(w, signed, s);
    Pow2Add(w - 1, 1);
    Pow2One();
    TopBit(s, w);
    if signed {
      if v < 0 {
        SetBitKeeps(s, w);
      } else {
        ModSmall(s, Pow2(w));
        ClearBitKeeps(s, w);
      }
    } else {
      ModSmall(s, Pow2(w));
    }
  }

  /**
   * One field of `width` bits on top of an unsigned base type of `baseBits`
   * bits.  Signed base types are rejected at compile time, so the value is a
   * `nat` of at most `baseBits` bits; only its `width` low bits travel.
   */
  class FixedBitLength {
    const width: nat
    const baseBits: nat
    const endian: Endian
    var value: nat

    ghost predicate Valid()
      reads this
    {
      0 < width <= baseBits && value < Pow2(baseBits)
    }

    constructor (w: nat, base: nat, e: Endian)
      requires 0 < w <= base
      ensures Valid()
      ensures width == w && baseBits == base && endian == e && value == 0
    {
      width, baseBits, endian, value := w, base, e, 0;
    }

    /** Assignment through `value()`. */
    method SetValue(v: nat)
      requires Valid() && v < Pow2(baseBits)
      modifies this
      ensures Valid() && value == v
    {
      value := v;
    }

    /** `length()`: `ceil(width / 8)` bytes. */
    function Length(): (n: nat)
      ensures width <= 8 * n < width + 8
      ensures n == ByteLength(width)
      ensures 0 < width ==> n <= width
    {
      ByteLength(width)
    }

    function MinLength(): (n: nat)
      ensures n == Length()
    {
      Length()
    }

    function MaxLength(): (n: nat)
      ensures n == Length()
    {
      Length()
    }

    /** `bit_length()`: the declared wire width, of which `Length()` is the byte count. */
    function BitLength(): (n: nat)
      ensures n == width
      ensures 8 * Length() - 8 < n <= 8 * Length()
    {
      width
    }

    function MinBitLength(): (n: nat)
      ensures n == BitLength()
    {
      BitLength()
    }

    function MaxBitLength(): (n: nat)
      ensures n == BitLength()
    {
      BitLength()
    }

    /**
     * `read(iter, size)`: with fewer than `Length()` bytes available nothing
     * is consumed and the value is kept; otherwise `Length()` bytes are
     * consumed and decoded.
     */
    method Read(input: seq<byte>, size: nat) returns (st: Status, consumed: nat)
      requires Valid()
      requires Length() <= size ==> Length() <= |input|
      modifies this
      ensures Valid()
      ensures size < Length() ==> st == NotEnoughData && consumed == 0 && value == old(value)
      ensures Length() <= size ==>
        st == Success && consumed == Length() &&
        value == FromSerialized(width, false, ReadData(width, endian, input))
    {
      if size < Length() {
        return NotEnoughData, 0;
      }
      consumed := ReadNoStatus(input);
      st := Success;
    }

    /** `read_no_status(iter)`: the caller guarantees `Length()` bytes. */
    method ReadNoStatus(input: seq<byte>) returns (consumed: nat)
      requires Valid()
      requires Length() <= |input|
      modifies this
      ensures Valid()
      ensures consumed == Length()
      ensures value == FromSerialized(width, false, ReadData(width, endian, input))
    {
      var serializedValue := ReadData(width, endian, input);
      Pow2Mono(width, baseBits);
      value := FromSerialized(width, false, serializedValue);
      consumed := Length();
    }

    /**
     * `write(iter, size)`: with less than `Length()` bytes of room nothing is
     * written; otherwise the `Length()` bytes that read back as the value's
     * `width` low bits.
     */
    method Write(size: nat) returns (st: Status, out: seq<byte>)
      requires Valid()
      ensures size < Length() ==> st == BufferOverflow && out == []
      ensures Length() <= size ==>
        st == Success && out == WriteData(width, endian, ToSerialized(width, false, value))
      ensures Length() <= size ==>
        |out| == Length() && FromSerialized(width, false, ReadData(width, endian, out)) == LowBits(value, width)
    {
      if size < Length() {
        return BufferOverflow, [];
      }
      out := WriteNoStatus();
      st := Success;
    }

    /** `write_no_status(iter)`: the caller guarantees the room. */
    method WriteNoStatus() returns (out: seq<byte>)
      requires Valid()
      ensures out == WriteData(width, endian, ToSerialized(width, false, value))
      ensures |out| == Length() && FromSerialized(width, false, ReadData(width, endian, out)) == LowBits(value, width)
    {
      out := WriteData(width, endian, ToSerialized(width, false, value));
      ReadWriteData(width, endian, ToSerialized(width, false, value));
      ModSmall(LowBits(value, width), Pow2(width));
    }
  }
}
