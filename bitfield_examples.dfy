/**
 * The scenarios of the repository's bitfield tests (test/bitfield.cpp),
 * stated over the model: the lengths of the declared layouts, the bytes of
 * the endianness example, and the write-then-read round trip.
 */
module BitfieldExamples {
  import opened Bits
  import opened ByteCodec
  import opened StatusCodes
  import opened BitfieldLayout
  import opened BasicBitfield

  /** Widths {3, 16, 5} holding {0, 0b1110110100000001, 0}: the 24-bit aggregate is 0x076808. */
  lemma EndiannessAggregate()
    ensures Pack([3, 16, 5], [0, 0xED01, 0]) == 0x076808
  {
    var ws: seq<nat>, vs: seq<nat> := [3, 16, 5], [0, 0xED01, 0];
    Pow2Values();
    PackStep(ws, vs, 0);
    PackStep(ws, vs, 1);
    PackStep(ws, vs, 2);
    ShiftPosStep(ws, 0);
    ShiftPosStep(ws, 1);
    assert ws[..0] == [] && vs[..0] == [];
    assert ws[..3] == ws && vs[..3] == vs;
    assert ShiftPos(ws, 1) == 3;
    assert ShiftPos(ws, 2) == 19;
    ModSmall(0, Pow2(3));
    ModSmall(0xED01, Pow2(16));
    ModSmall(0, Pow2(5));
  }

  lemma Pow2Values()
    ensures Pow2(3) == 8 && Pow2(5) == 32 && Pow2(16) == 65536 && Pow2(19) == 0x80000
  {
    Pow2Byte();
    Pow2Add(8, 8);
    Pow2Add(3, 16);
    assert Pow2(3) == 8;
    assert Pow2(5) == 32;
  }

  /** The aggregate 0x076808 in three bytes, most significant first: 07 68 08. */
  lemma EndiannessBigBytes()
    ensures WriteData(24, Big, 0x076808) == [0x07, 0x68, 0x08]
  {
    assert ByteLength(24) == 3;
    assert EncodeBE(1, 0x07) == [0x07];
    assert EncodeBE(2, 0x0768) == EncodeBE(1, 0x07) + [0x68];
    assert EncodeBE(3, 0x076808) == EncodeBE(2, 0x0768) + [0x08];
  }

  /** The same aggregate least significant first: 08 68 07. */
  lemma EndiannessLittleBytes()
    ensures WriteData(24, Little, 0x076808) == [0x08, 0x68, 0x07]
  {
    assert ByteLength(24) == 3;
    assert EncodeLE(1, 0x07) == [0x07];
    assert EncodeLE(2, 0x0768) == [0x68] + EncodeLE(1, 0x07);
    assert EncodeLE(3, 0x076808) == [0x08] + EncodeLE(2, 0x0768);
  }

  /**
   * `test_round_trip`: the bytes one bitfield writes, read by a second
   * bitfield of the same layout, give the second bitfield the first one's
   * member values.
   */
  method RoundTrip(src: Bitfield, dst: Bitfield) returns (st: Status, out: seq<byte>)
    requires src.Valid() && dst.Valid()
    requires src.Widths() == dst.Widths() && src.endian == dst.endian
    requires forall i :: 0 <= i < |src.members| ==> src.members[i].value < Pow2(src.members[i].width)
    requires forall i, j :: 0 <= i < |src.members| && 0 <= j < |dst.members| ==> src.members[i] != dst.members[j]
    modifies dst.members
    ensures st == Success && |out| == src.Length()
    ensures dst.Values() == old(src.Values())
  {
    var ws, vs := src.Widths(), src.Values();
    var wst;
    wst, out := src.Write(src.Length());
    assert out == WriteData(Sum(ws), src.endian, Pack(ws, vs));
    WireRoundTrip(ws, src.endian, vs);
    var consumed;
    st, consumed := dst.Read(out, |out|);
    assert dst.Values() == Unpack(ws, ReadData(Sum(ws), src.endian, out));
  }

  /** The endianness example's bytes in either byte order. */
  lemma EndiannessBytes(e: Endian)
    ensures WriteData(Sum([3, 16, 5]), e, Pack([3, 16, 5], [0, 0xED01, 0])) ==
      if e == Big then [0x07, 0x68, 0x08] else [0x08, 0x68, 0x07]
  {
    SumOfThree();
    EndiannessAggregate();
    EndiannessBigBytes();
    EndiannessLittleBytes();
  }

  /**
   * The endianness tests' bitfield: widths {3, 16, 5} in bitfield byte
   * order `e`, the middle member in byte order `middleEndian`, holding
   * {0, 0b1110110100000001, 0}.
   */
  method EndiannessField(e: Endian, middleEndian: Endian) returns (b: Bitfield)
    ensures b.Valid() && b.endian == e
    ensures b.Widths() == [3, 16, 5] && b.Values() == [0, 0xED01, 0]
    ensures b.members[1].endian == middleEndian
  {
    var ws: seq<nat> := [3, 16, 5];
    SumOfThree();
    b := new Bitfield(e, ws, ws, [Big, middleEndian, Big]);
    Pow2Values();
    b.SetMember(1, 0xED01);
  }

  /**
   * `test_bitfield_endianness` and `test_inner_field_endianness`: the
   * example gives 07 68 08 in a big-endian bitfield and 08 68 07 in a
   * little-endian one, whatever the middle member's own byte order.
   */
  method EndiannessScenario(e: Endian, middleEndian: Endian) returns (out: seq<byte>)
    ensures e == Big ==> out == [0x07, 0x68, 0x08]
    ensures e == Little ==> out == [0x08, 0x68, 0x07]
  {
    var b := EndiannessField(e, middleEndian);
    var st;
    st, out := b.Write(b.Length());
    EndiannessBytes(e);
  }

  lemma SumOfThree()
    ensures Sum([3, 16, 5]) == 24 && WellFormed([3, 16, 5])
  {
    var ws: seq<nat> := [3, 16, 5];
    SumStep(ws, 0);
    SumStep(ws, 1);
    SumStep(ws, 2);
    assert ws[..0] == [] && ws[..3] == ws;
    assert forall i :: 0 <= i < |ws| ==> 0 < ws[i];
  }

  /** A bitfield of the given layout whose members are assigned `vs` one by one. */
  method MakeField(e: Endian, ws: seq<nat>, baseBits: seq<nat>, memberEndians: seq<Endian>, vs: seq<nat>)
    returns (b: Bitfield)
    requires WellFormed(ws) && |baseBits| == |ws| && |memberEndians| == |ws| && |vs| == |ws|
    requires forall i :: 0 <= i < |ws| ==> ws[i] <= baseBits[i] && vs[i] < Pow2(baseBits[i])
    ensures b.Valid() && b.endian == e && b.Widths() == ws && b.Values() == vs
    ensures forall i :: 0 <= i < |ws| ==> fresh(b.members[i])
  {
    b := new Bitfield(e, ws, baseBits, memberEndians);
    var i := 0;
    while i < |ws|
      invariant 0 <= i <= |ws|
      invariant b.Valid() && b.Widths() == ws
      invariant forall j :: 0 <= j < i ==> b.Values()[j] == vs[j]
      invariant forall j :: 0 <= j < |ws| ==> fresh(b.members[j]) && b.members[j].baseBits == baseBits[j]
    {
      b.SetMember(i, vs[i]);
      i := i + 1;
    }
  }

  /**
   * A test of test/bitfield.cpp: build the bitfield, assign its members,
   * write it and read the bytes into a second bitfield of the same type.
   * The length is `length()`, `member_bit_length<i>()` is each declared
   * width, and the copy holds the assigned values.
   */
  method Scenario(e: Endian, ws: seq<nat>, baseBits: seq<nat>, memberEndians: seq<Endian>, vs: seq<nat>)
    returns (length: nat, bitLengths: seq<nat>, copied: seq<nat>)
    requires WellFormed(ws) && |baseBits| == |ws| && |memberEndians| == |ws| && |vs| == |ws|
    requires forall i :: 0 <= i < |ws| ==> ws[i] <= baseBits[i] && vs[i] < Pow2(ws[i])
    ensures 8 * length == Sum(ws)
    ensures bitLengths == ws
    ensures copied == vs
  {
    forall i | 0 <= i < |ws|
      ensures vs[i] < Pow2(baseBits[i])
    {
      Pow2Mono(ws[i], baseBits[i]);
    }
    var field := MakeField(e, ws, baseBits, memberEndians, vs);
    var zeros := seq(|ws|, i => 0);
    var newField := MakeField(e, ws, baseBits, memberEndians, zeros);
    length := field.Length();
    bitLengths := seq(|ws|, i requires 0 <= i < |ws| && field.Widths() == ws => field.MemberBitLength(i));
    var st, out := RoundTrip(field, newField);
    copied := newField.Values();
  }

  lemma Pow2Wide()
    ensures 0xABCDEF1234567890 < Pow2(512) && 1 < Pow2(1) && Mask(511) < Pow2(511)
  {
    Pow2Values();
    Pow2Add(16, 16);
    Pow2Add(32, 32);
    Pow2Mono(64, 512);
    Pow2One();
  }

  /** `test_0`: two 512-bit members on 1024-bit bases, length 128, holding 0x1 and 0xABCDEF1234567890. */
  method Test0() returns (length: nat, bitLengths: seq<nat>, copied: seq<nat>)
    ensures length == 128 && bitLengths == [512, 512] && copied == [1, 0xABCDEF1234567890]
  {
    var ws: seq<nat> := [512, 512];
    SumStep(ws, 0);
    SumStep(ws, 1);
    assert ws[..0] == [] && ws[..2] == ws;
    Pow2Wide();
    Pow2Mono(1, 512);
    length, bitLengths, copied := Scenario(Big, ws, [1024, 1024], [Big, Big], [1, 0xABCDEF1234567890]);
  }

  /** `test_2`: widths 1 and 511, length 64, holding 0x1 and `2^511 - 1`. */
  method Test2() returns (length: nat, bitLengths: seq<nat>, copied: seq<nat>)
    ensures length == 64 && bitLengths == [1, 511] && copied == [1, Mask(511)]
  {
    var ws: seq<nat> := [1, 511];
    SumStep(ws, 0);
    SumStep(ws, 1);
    assert ws[..0] == [] && ws[..2] == ws;
    Pow2Wide();
    length, bitLengths, copied := Scenario(Big, ws, [1024, 1024], [Little, Little], [1, Mask(511)]);
  }

  /**
   * `test_3`: widths 2, 3, ..., 10, 10 in a little-endian bitfield with
   * mixed member byte orders, length 8, holding 0, 1, ..., 9.
   */
  method Test3() returns (length: nat, bitLengths: seq<nat>, copied: seq<nat>)
    ensures length == 8 && bitLengths == [2, 3, 4, 5, 6, 7, 8, 9, 10, 10]
    ensures copied == [0, 1, 2, 3, 4, 5, 6, 7, 8, 9]
  {
    var ws: seq<nat> := [2, 3, 4, 5, 6, 7, 8, 9, 10, 10];
    var vs: seq<nat> := [0, 1, 2, 3, 4, 5, 6, 7, 8, 9];
    var bases: seq<nat> := [123, 124, 125, 126, 127, 128, 129, 130, 12, 321];
    var es := [Big, Little, Little, Big, Big, Big, Little, Little, Big, Little];
    SumOfTen(ws);
    forall i | 0 <= i < |ws|
      ensures ws[i] <= bases[i] && vs[i] < Pow2(ws[i])
    {
      Pow2Exceeds(ws[i]);
    }
    length, bitLengths, copied := Scenario(Little, ws, bases, es, vs);
  }

  lemma SumOfTen(ws: seq<nat>)
    requires ws == [2, 3, 4, 5, 6, 7, 8, 9, 10, 10]
    ensures Sum(ws) == 64 && WellFormed(ws)
  {
    var prefixSums := [0, 2, 5, 9, 14, 20, 27, 35, 44, 54, 64];
    var i := 0;
    while i < 10
      invariant 0 <= i <= 10
      invariant Sum(ws[..i]) == prefixSums[i]
    {
      SumStep(ws, i);
      i := i + 1;
    }
    assert ws[..10] == ws;
  }

  lemma {:induction false} Pow2Exceeds(n: nat)
    ensures n < Pow2(n)
  {
    if n > 0 {
      Pow2Exceeds(n - 1);
    }
  }
}
