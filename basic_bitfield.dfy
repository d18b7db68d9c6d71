/**
 * `basic_bitfield`: an ordered tuple of `fixed_bit_length` members packed
 * into one aggregate of `TotalBits()` bits, member 0 in the least-significant
 * bits, written and read as a single `ByteLength(TotalBits())`-byte integer
 * in the bitfield's own byte order.
 */
module BasicBitfield {
  import opened Bits
  import opened ByteCodec
  import opened StatusCodes
  import opened FixedBitLengthAdapter
  import opened BitfieldLayout

  /**
   * The compile-time constraints on the member tuple: at least two members,
   * each with a positive width, whose widths add up to whole bytes.
   */
  predicate WellFormed(ws: seq<nat>)
  {
    |ws| >= 2 && (forall i :: 0 <= i < |ws| ==> 0 < ws[i]) && Sum(ws) % 8 == 0
  }

  /** A well-formed tuple occupies at least one byte. */
  lemma WellFormedNonEmpty(ws: seq<nat>)
    requires WellFormed(ws)
    ensures 8 <= Sum(ws)
  {
    PrefixBound(ws, 0);
    assert ws[..0] == [];
  }

  /**
   * `valid()`: `soFar && field.valid()` over the members in order, seeded
   * with `true`.  `verdicts[i]` is what member `i`'s own `valid()` reports.
   */
  function ValidFold(soFar: bool, verdicts: seq<bool>): (r: bool)
    decreases |verdicts|
    ensures r <==> soFar && forall i :: 0 <= i < |verdicts| ==> verdicts[i]
  {
    if |verdicts| == 0 then soFar
    else
      var r := ValidFold(soFar && verdicts[0], verdicts[1..]);
      assert forall i :: 1 <= i < |verdicts| ==> verdicts[i] == verdicts[1..][i - 1];
      r
  }

  /**
   * Which members' `valid()` the `&&` in `valid_helper` actually evaluates:
   * member `k`'s, exactly when the seed holds and every member before `k`
   * reported valid.
   */
  function ValidEvaluated(soFar: bool, verdicts: seq<bool>): (called: seq<bool>)
    decreases |verdicts|
    ensures |called| == |verdicts|
    ensures forall k :: 0 <= k < |verdicts| ==>
      (called[k] <==> soFar && forall i :: 0 <= i < k ==> verdicts[i])
  {
    if |verdicts| == 0 then []
    else
      var rest := ValidEvaluated(soFar && verdicts[0], verdicts[1..]);
      assert forall i :: 1 <= i < |verdicts| ==> verdicts[i] == verdicts[1..][i - 1];
      [soFar] + rest
  }

  /**
   * `refresh()`: `field.refresh() || soFar` over the members in order, seeded
   * with `false`.  The member's `refresh()` is the left operand, so it runs
   * for every member whatever `soFar` is; `reports[i]` is what it returns.
   */
  function RefreshFold(soFar: bool, reports: seq<bool>): (r: bool)
    decreases |reports|
    ensures r <==> soFar || exists i :: 0 <= i < |reports| && reports[i]
  {
    if |reports| == 0 then soFar
    else
      var r := RefreshFold(reports[0] || soFar, reports[1..]);
      assert forall i :: 1 <= i < |reports| ==> reports[i] == reports[1..][i - 1];
      r
  }

  /**
   * Which members' `refresh()` the fold calls: every one, whatever the seed
   * and the earlier reports, because the member's call is the left operand
   * of `||` and is evaluated before `soFar` is looked at.
   */
  function RefreshEvaluated(soFar: bool, reports: seq<bool>): (called: seq<bool>)
    decreases |reports|
    ensures |called| == |reports|
    ensures forall k :: 0 <= k < |reports| ==> called[k]
  {
    if |reports| == 0 then []
    else [true] + RefreshEvaluated(reports[0] || soFar, reports[1..])
  }

  /**
   * Writing packed member values and reading the aggregate back gives each
   * member the `ws[i]` low bits of its value, which is the value itself when
   * it fits its width.
   */
  lemma WireRoundTrip(ws: seq<nat>, e: Endian, vs: seq<nat>)
    requires |ws| == |vs|
    ensures forall i :: 0 <= i < |ws| ==>
      Unpack(ws, ReadData(Sum(ws), e, WriteData(Sum(ws), e, Pack(ws, vs))))[i] == LowBits(vs[i], ws[i])
    ensures (forall i :: 0 <= i < |ws| ==> vs[i] < Pow2(ws[i])) ==>
      Unpack(ws, ReadData(Sum(ws), e, WriteData(Sum(ws), e, Pack(ws, vs)))) == vs
  {
    ReadWriteData(Sum(ws), e, Pack(ws, vs));
    ModSmall(Pack(ws, vs), Pow2(Sum(ws)));
    forall i | 0 <= i < |ws|
      ensures Unpack(ws, Pack(ws, vs))[i] == LowBits(vs[i], ws[i])
    {
      PackField(ws, vs, i);
    }
    if forall i :: 0 <= i < |ws| ==> vs[i] < Pow2(ws[i]) {
      UnpackPack(ws, vs);
    }
  }

  /** Reading an aggregate and writing the extracted members back reproduces the bytes read. */
  lemma BytesRoundTrip(ws: seq<nat>, e: Endian, s: seq<byte>)
    requires WellFormed(ws) && ByteLength(Sum(ws)) <= |s|
    ensures WriteData(Sum(ws), e, Pack(ws, Unpack(ws, ReadData(Sum(ws), e, s)))) == s[..ByteLength(Sum(ws))]
  {
    var agg := ReadData(Sum(ws), e, s);
    PackUnpack(ws, agg);
    ModSmall(agg, Pow2(Sum(ws)));
    WriteReadData(Sum(ws), e, s);
  }

  class Bitfield {
    /** The byte order of the aggregate (the bitfield's `endian_type`). */
    const endian: Endian
    /** The member tuple, in declaration order. */
    const members: seq<FixedBitLength>

    ghost predicate Valid()
      reads members
    {
      WellFormed(Widths()) &&
      (forall i, j :: 0 <= i < j < |members| ==> members[i] != members[j]) &&
      (forall i :: 0 <= i < |members| ==> members[i].Valid())
    }

    /** The members' declared widths. */
    function Widths(): (ws: seq<nat>)
      ensures |ws| == |members|
      ensures forall i :: 0 <= i < |members| ==> ws[i] == members[i].width
    {
      seq(|members|, i requires 0 <= i < |members| => members[i].width)
    }

    /** The members' current values: the bitfield's `value()`. */
    function Values(): (vs: seq<nat>)
      reads members
      ensures |vs| == |members|
      ensures forall i :: 0 <= i < |members| ==> vs[i] == members[i].value
    {
      seq(|members|, i requires 0 <= i < |members| reads members => members[i].value)
    }

    /** A default-constructed bitfield: one zero-valued member per width. */
    constructor (e: Endian, ws: seq<nat>, baseBits: seq<nat>, memberEndians: seq<Endian>)
      requires WellFormed(ws) && |baseBits| == |ws| && |memberEndians| == |ws|
      requires forall i :: 0 <= i < |ws| ==> ws[i] <= baseBits[i]
      ensures Valid()
      ensures endian == e && Widths() == ws
      ensures forall i :: 0 <= i < |ws| ==>
        members[i].baseBits == baseBits[i] && members[i].endian == memberEndians[i] && members[i].value == 0
      ensures forall i :: 0 <= i < |ws| ==> fresh(members[i])
    {
      var ms: seq<FixedBitLength> := [];
      var i := 0;
      while i < |ws|
        invariant 0 <= i <= |ws| && |ms| == i
        invariant forall j :: 0 <= j < i ==>
          ms[j].width == ws[j] && ms[j].baseBits == baseBits[j] && ms[j].endian == memberEndians[j] && ms[j].value == 0 && ms[j].Valid() && fresh(ms[j])
        invariant forall j, k :: 0 <= j < k < i ==> ms[j] != ms[k]
      {
        var m := new FixedBitLength(ws[i], baseBits[i], memberEndians[i]);
        ms := ms + [m];
        i := i + 1;
      }
      endian := e;
      members := ms;
      new;
      assert Widths() == ws;
    }

    /** Assigning member `idx` through `value()`; the other members are untouched. */
    method SetMember(idx: nat, v: nat)
      requires Valid() && idx < |members| && v < Pow2(members[idx].baseBits)
      modifies members[idx]
      ensures Valid()
      ensures Values() == old(Values())[idx := v]
    {
      members[idx].SetValue(v);
    }

    /** `total_bits`: the sum of the member widths. */
    function TotalBits(): (n: nat)
      ensures n == Sum(Widths())
    {
      Sum(Widths())
    }

    /** `length()`: `total_bits / 8` bytes, at least one. */
    function Length(): (n: nat)
      requires WellFormed(Widths())
      ensures 8 * n == TotalBits() && 0 < n
      ensures n == ByteLength(TotalBits())
    {
      WellFormedNonEmpty(Widths());
      TotalBits() / 8
    }

    function MinLength(): (n: nat)
      requires WellFormed(Widths())
      ensures n == Length()
    {
      Length()
    }

    function MaxLength(): (n: nat)
      requires WellFormed(Widths())
      ensures n == Length()
    {
      Length()
    }

    /**
     * `member_bit_length<idx>()`: the declared width of member `idx`, which
     * fits inside the aggregate at that member's offset.
     */
    function MemberBitLength(idx: nat): (w: nat)
      requires WellFormed(Widths()) && idx < |members|
      ensures w == members[idx].BitLength() && 0 < w
      ensures ShiftPos(Widths(), idx) + w <= TotalBits()
    {
      members[idx].width
    }

    /**
     * One step of `read_helper`: member `i`'s bits are written through a
     * scratch buffer in the member's byte order, from which the member reads
     * itself with size `bit_length()`.
     */
    method ReadMember(agg: nat, i: nat) returns (st: Status)
      requires Valid() && i < |members|
      modifies members[i]
      ensures Valid()
      ensures st == Success
      ensures members[i].value == Unpack(Widths(), agg)[i]
      ensures forall j :: 0 <= j < |members| && j != i ==> members[j].value == old(members[j].value)
    {
      var m := members[i];
      var fieldSerValue := Field(agg, ShiftPos(Widths(), i), m.width);
      var buf := WriteData(m.width, m.endian, fieldSerValue);
      var consumed;
      st, consumed := m.Read(buf, m.BitLength());
      ReadWriteData(m.width, m.endian, fieldSerValue);
      ModSmall(fieldSerValue, Pow2(m.width));
    }

    /**
     * One step of `read_no_status_helper`: as `ReadMember`, but the member
     * reads the scratch buffer with its own `read_no_status`.
     */
    method ReadMemberNoStatus(agg: nat, i: nat)
      requires Valid() && i < |members|
      modifies members[i]
      ensures Valid()
      ensures members[i].value == Unpack(Widths(), agg)[i]
      ensures forall j :: 0 <= j < |members| && j != i ==> members[j].value == old(members[j].value)
    {
      var m := members[i];
      var fieldSerValue := Field(agg, ShiftPos(Widths(), i), m.width);
      var buf := WriteData(m.width, m.endian, fieldSerValue);
      var consumed := m.ReadNoStatus(buf);
      ReadWriteData(m.width, m.endian, fieldSerValue);
      ModSmall(fieldSerValue, Pow2(m.width));
    }

    /**
     * `read(iter, size)`: with fewer than `Length()` bytes nothing is consumed
     * and the members keep their values; otherwise the aggregate is decoded
     * and every member receives its bits.
     */
    method Read(input: seq<byte>, size: nat) returns (st: Status, consumed: nat)
      requires Valid()
      requires Length() <= size ==> Length() <= |input|
      modifies members
      ensures Valid()
      ensures size < Length() ==> st == NotEnoughData && consumed == 0 && Values() == old(Values())
      ensures Length() <= size ==>
        st == Success && consumed == Length() &&
        Values() == Unpack(Widths(), ReadData(TotalBits(), endian, input))
    {
      if size < Length() {
        return NotEnoughData, 0;
      }
      var agg := ReadData(TotalBits(), endian, input);
      ghost var target := Unpack(Widths(), agg);
      st := Success;
      var i := 0;
      while i < |members| && st == Success
        invariant 0 <= i <= |members|
        invariant Valid() && st == Success
        invariant forall j :: 0 <= j < i ==> members[j].value == target[j]
      {
        st := ReadMember(agg, i);
        i := i + 1;
      }
      ReadComplete(agg);
      consumed := Length();
    }

    /** `read_no_status(iter)`: the caller guarantees `Length()` bytes. */
    method ReadNoStatus(input: seq<byte>) returns (consumed: nat)
      requires Valid()
      requires Length() <= |input|
      modifies members
      ensures Valid()
      ensures consumed == Length()
      ensures Values() == Unpack(Widths(), ReadData(TotalBits(), endian, input))
    {
      var agg := ReadData(TotalBits(), endian, input);
      ghost var target := Unpack(Widths(), agg);
      var i := 0;
      while i < |members|
        invariant 0 <= i <= |members|
        invariant Valid()
        invariant forall j :: 0 <= j < i ==> members[j].value == target[j]
      {
        ReadMemberNoStatus(agg, i);
        i := i + 1;
      }
      ReadComplete(agg);
      consumed := Length();
    }

    /**
     * One step of `write_helper`: member `i` writes itself into a scratch
     * buffer with size `bit_length()`, the buffer is
     * read back as an integer in the member's byte order, and that value,
     * masked and shifted, replaces bits `[pos, pos + width)` of `acc`.
     */
    method WriteMember(acc: nat, i: nat) returns (st: Status, acc': nat)
      requires Valid() && i < |members|
      ensures st == Success
      ensures acc' == Insert(acc, ShiftPos(Widths(), i), Widths()[i], Values()[i])
    {
      var m := members[i];
      var buf;
      st, buf := m.Write(m.BitLength());
      var fieldSerValue := ReadData(m.width, m.endian, buf);
      acc' := Insert(acc, ShiftPos(Widths(), i), m.width, fieldSerValue);
      ModSmall(LowBits(m.value, m.width), Pow2(m.width));
    }

    /**
     * One step of `write_no_status_helper`: as `WriteMember`, but the member
     * writes the scratch buffer with its own `write_no_status`.
     */
    method WriteMemberNoStatus(acc: nat, i: nat) returns (acc': nat)
      requires Valid() && i < |members|
      ensures acc' == Insert(acc, ShiftPos(Widths(), i), Widths()[i], Values()[i])
    {
      var m := members[i];
      var buf := m.WriteNoStatus();
      var fieldSerValue := ReadData(m.width, m.endian, buf);
      acc' := Insert(acc, ShiftPos(Widths(), i), m.width, fieldSerValue);
      ModSmall(LowBits(m.value, m.width), Pow2(m.width));
    }

    /**
     * `write(iter, size)`: with less than `Length()` bytes of room nothing is
     * written; otherwise the aggregate of all members, zero-initialised and
     * filled member by member, is emitted once in the bitfield's byte order.
     */
    method Write(size: nat) returns (st: Status, out: seq<byte>)
      requires Valid()
      ensures size < Length() ==> st == BufferOverflow && out == []
      ensures Length() <= size ==>
        st == Success && out == WriteData(TotalBits(), endian, Pack(Widths(), Values()))
    {
      if size < Length() {
        return BufferOverflow, [];
      }
      var acc: nat := 0;
      st := Success;
      var i := 0;
      while i < |members| && st == Success
        invariant 0 <= i <= |members|
        invariant st == Success
        invariant acc == Pack(Widths()[..i], Values()[..i])
      {
        var acc';
        st, acc' := WriteMember(acc, i);
        AccumulateStep(acc, i);
        acc := acc';
        i := i + 1;
      }
      out := [];
      if st == Success {
        FinalPack(i);
        out := WriteData(TotalBits(), endian, acc);
      }
    }

    /** `write_no_status(iter)`: the caller guarantees the room. */
    method WriteNoStatus() returns (out: seq<byte>)
      requires Valid()
      ensures out == WriteData(TotalBits(), endian, Pack(Widths(), Values()))
    {
      var acc: nat := 0;
      var i := 0;
      while i < |members|
        invariant 0 <= i <= |members|
        invariant acc == Pack(Widths()[..i], Values()[..i])
      {
        var acc' := WriteMemberNoStatus(acc, i);
        AccumulateStep(acc, i);
        acc := acc';
        i := i + 1;
      }
      FinalPack(i);
      out := WriteData(TotalBits(), endian, acc);
    }

    /** Inserting member `i` into the aggregate of the members before it extends the packing by one member. */
    lemma AccumulateStep(acc: nat, i: nat)
      requires Valid() && i < |members|
      requires acc == Pack(Widths()[..i], Values()[..i])
      ensures Insert(acc, ShiftPos(Widths(), i), Widths()[i], Values()[i]) == Pack(Widths()[..i + 1], Values()[..i + 1])
    {
      InsertIntoEmpty(acc, ShiftPos(Widths(), i), Widths()[i], Values()[i]);
      PackStep(Widths(), Values(), i);
    }

    lemma ReadComplete(agg: nat)
      requires forall j :: 0 <= j < |members| ==> members[j].value == Unpack(Widths(), agg)[j]
      ensures Values() == Unpack(Widths(), agg)
    {
    }

    lemma FinalPack(i: nat)
      requires i == |members|
      ensures Pack(Widths()[..i], Values()[..i]) == Pack(Widths(), Values())
    {
      assert Widths()[..i] == Widths();
      assert Values()[..i] == Values();
    }
  }
}
