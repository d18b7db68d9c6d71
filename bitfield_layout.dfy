/**
 * Where the members of a bitfield sit inside the aggregate.
 *
 * Member `i` of widths `ws` starts at bit `Sum(ws[..i])`, so member 0 holds
 * the least-significant bits.  `Pack` and `Unpack` are the reference
 * definitions of the aggregate the bitfield's write and read traversals
 * compute, stated without any accumulator.
 */
module BitfieldLayout {
  import opened Bits

  /** Sum of the widths, adding the last one last (the order a left-to-right scan accumulates them). */
  function Sum(ws: seq<nat>): nat
  {
    if |ws| == 0 then 0 else Sum(ws[..|ws| - 1]) + ws[|ws| - 1]
  }

  /** The bit offset of member `i`: the widths of the members before it. */
  function ShiftPos(ws: seq<nat>, i: nat): (pos: nat)
    requires i <= |ws|
    ensures i < |ws| ==> pos + ws[i] <= Sum(ws)
  {
    PrefixBound(ws, i);
    Sum(ws[..i])
  }

  lemma PrefixBound(ws: seq<nat>, i: nat)
    requires i <= |ws|
    ensures i < |ws| ==> Sum(ws[..i]) + ws[i] <= Sum(ws)
  {
    if i < |ws| {
      SumStep(ws, i);
      SumPrefixMono(ws, i + 1, |ws|);
      assert ws[..|ws|] == ws;
    }
  }

  lemma SumStep(ws: seq<nat>, i: nat)
    requires i < |ws|
    ensures Sum(ws[..i + 1]) == Sum(ws[..i]) + ws[i]
  {
    assert ws[..i + 1][..i] == ws[..i];
  }

  lemma {:induction false} SumPrefixMono(ws: seq<nat>, j: nat, k: nat)
    requires j <= k <= |ws|
    ensures Sum(ws[..j]) <= Sum(ws[..k])
  {
    if j < k {
      SumPrefixMono(ws, j, k - 1);
      SumStep(ws, k - 1);
    }
  }

  /** Members occupy disjoint bit ranges, in tuple order: a later member starts where the earlier ones end or beyond. */
  lemma MembersDisjoint(ws: seq<nat>, j: nat, k: nat)
    requires j < k < |ws|
    ensures ShiftPos(ws, j) + ws[j] <= ShiftPos(ws, k)
  {
    SumStep(ws, j);
    SumPrefixMono(ws, j + 1, k);
  }

  /** Offsets grow by the member's own width from one member to the next. */
  lemma ShiftPosStep(ws: seq<nat>, i: nat)
    requires i < |ws|
    ensures ShiftPos(ws, i + 1) == ShiftPos(ws, i) + ws[i]
    ensures ShiftPos(ws, 0) == 0
  {
    SumStep(ws, i);
  }

  lemma SumAll(ws: seq<nat>)
    ensures ShiftPos(ws, |ws|) == Sum(ws)
  {
    assert ws[..|ws|] == ws;
  }

  /**
   * The aggregate holding `vs[i]` (reduced to `ws[i]` bits) at bit offset
   * `ShiftPos(ws, i)` and zeros everywhere else.
   */
  function Pack(ws: seq<nat>, vs: seq<nat>): (agg: nat)
    requires |ws| == |vs|
    ensures agg < Pow2(Sum(ws))
  {
    if |ws| == 0 then 0
    else
      var n := |ws| - 1;
      var low := Pack(ws[..n], vs[..n]);
      AppendBound(low, LowBits(vs[n], ws[n]), Sum(ws[..n]), ws[n]);
      low + LowBits(vs[n], ws[n]) * Pow2(Sum(ws[..n]))
  }

  /** Member values extracted from an aggregate: `(agg >> ShiftPos(ws, i)) & Mask(ws[i])`. */
  function Unpack(ws: seq<nat>, agg: nat): (vs: seq<nat>)
    ensures |vs| == |ws|
    ensures forall i :: 0 <= i < |ws| ==> vs[i] < Pow2(ws[i])
  {
    seq(|ws|, i requires 0 <= i < |ws| => Field(agg, ShiftPos(ws, i), ws[i]))
  }

  /** Packing one more member: the previous aggregate plus the new member shifted to its offset. */
  lemma PackStep(ws: seq<nat>, vs: seq<nat>, i: nat)
    requires |ws| == |vs| && i < |ws|
    ensures Pack(ws[..i + 1], vs[..i + 1]) == Pack(ws[..i], vs[..i]) + LowBits(vs[i], ws[i]) * Pow2(ShiftPos(ws, i))
  {
    assert ws[..i + 1][..i] == ws[..i];
    assert vs[..i + 1][..i] == vs[..i];
  }

  /** Member `j` of a packed aggregate is the `ws[j]` low bits of `vs[j]`. */
  lemma {:induction false} PackField(ws: seq<nat>, vs: seq<nat>, j: nat)
    requires |ws| == |vs| && j < |ws|
    ensures Field(Pack(ws, vs), ShiftPos(ws, j), ws[j]) == LowBits(vs[j], ws[j])
  {
    var n := |ws| - 1;
    var low := Pack(ws[..n], vs[..n]);
    var b := LowBits(vs[n], ws[n]);
    if j == n {
      Compose(low, b, 0, Sum(ws[..n]), ws[n]);
    } else {
      assert ws[..n][..j] == ws[..j];
      PackField(ws[..n], vs[..n], j);
      SumStep(ws[..n], j);
      SumPrefixMono(ws[..n], j + 1, n);
      assert ws[..n][..n] == ws[..n];
      FieldAddHigh(low, b, ShiftPos(ws, j), ws[j], Sum(ws[..n]));
    }
  }

  /** Extraction undoes packing for member values that fit their widths. */
  lemma UnpackPack(ws: seq<nat>, vs: seq<nat>)
    requires |ws| == |vs|
    requires forall i :: 0 <= i < |ws| ==> vs[i] < Pow2(ws[i])
    ensures Unpack(ws, Pack(ws, vs)) == vs
  {
    var us := Unpack(ws, Pack(ws, vs));
    forall i | 0 <= i < |ws|
      ensures us[i] == vs[i]
    {
      PackField(ws, vs, i);
      ModSmall(vs[i], Pow2(ws[i]));
    }
  }

  /** Packing undoes extraction: the aggregate comes back, reduced to `Sum(ws)` bits. */
  lemma {:induction false} PackUnpack(ws: seq<nat>, agg: nat)
    ensures Pack(ws, Unpack(ws, agg)) == agg % Pow2(Sum(ws))
  {
    var us := Unpack(ws, agg);
    if |ws| == 0 {
    } else {
      var n := |ws| - 1;
      var pos := Sum(ws[..n]);
      assert us[..n] == Unpack(ws[..n], agg) by {
        forall i | 0 <= i < n
          ensures us[..n][i] == Unpack(ws[..n], agg)[i]
        {
          assert ws[..n][..i] == ws[..i];
        }
      }
      PackUnpack(ws[..n], agg);
      var f := Field(agg, pos, ws[n]);
      assert us[n] == f;
      ModSmall(f, Pow2(ws[n]));
      LowPlusField(agg, pos, ws[n]);
    }
  }

  /** The bits of `agg` below `pos + w` are its bits below `pos` plus its field at `pos`. */
  lemma LowPlusField(x: nat, pos: nat, w: nat)
    ensures x % Pow2(pos + w) == x % Pow2(pos) + Field(x, pos, w) * Pow2(pos)
  {
    Decompose(x, pos, w);
    var low := x % Pow2(pos) + Field(x, pos, w) * Pow2(pos);
    AppendBound(x % Pow2(pos), Field(x, pos, w), pos, w);
    DivModUnique(x, Pow2(pos + w), x / Pow2(pos + w), low);
  }
}
