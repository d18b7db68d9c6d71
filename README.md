# Bitfield marshalling of multiprecision integers, in Dafny

This project models two parts of the crypto3 multiprecision marshalling library:

- **`fixed_bit_length`** (the adapter). It gives a multiprecision integer field a declared wire width of `W` bits, carried in `ceil(W / 8)` bytes.
- **`basic_bitfield`**. It packs an ordered tuple of at least two fixed-length members into one aggregate integer whose width is a whole number of bytes.
  - Member 0 occupies the least-significant bits.
  - Member `i` starts at the sum of the widths of the members before it.
  - The aggregate travels as a single integer in the bitfield's own byte order.

The model is split into six modules, bottom-up:

| module | file | what it holds |
|---|---|---|
| `Bits` | `bits.dfy` | Bit arithmetic on unbounded naturals: shift right (`Shr`), mask (`LowBits`), field extraction (`Field`), range clear and insert (`Clear`, `Insert`), `bit_set`/`bit_unset`, and the lemmas that split a number into the bits below, inside and above a range and put it back together. |
| `ByteCodec` | `byte_codec.dfy` | A concrete big- and little-endian byte codec standing in for the library's `read_data`/`write_data`, with both round trips. |
| `StatusCodes`, `FixedBitLengthAdapter` | `fixed_bit_length.dfy` | `to_serialized`/`from_serialized` with their signed branch, and the class `FixedBitLength` with its length queries and checked and unchecked read and write. |
| `BitfieldLayout` | `bitfield_layout.dfy` | Member offsets as prefix sums, plus the reference definitions `Pack` (member values into an aggregate) and `Unpack` (aggregate into member values), and the lemmas relating them. |
| `BasicBitfield` | `basic_bitfield.dfy` | The class `Bitfield` over a sequence of `FixedBitLength` members: length queries, `member_bit_length`, and the four traversals (checked and unchecked read and write) as loops over the members. Also the `valid`/`refresh` folds. |
| `BitfieldExamples` | `bitfield_examples.dfy` | The scenarios of `test/bitfield.cpp`: the layout lengths, the bytes of the endianness example, and write-then-read round trips. |

How the model represents the library:

- **States.** The adapter and the bitfield are classes, because their read operations assign member values in place. The bitfield's member tuple is a `seq` of distinct `FixedBitLength` objects.
- **Iterators.**
  - A read takes the remaining input bytes and the available `size`, and returns the status and the number of bytes consumed.
  - A write takes the available `size` and returns the status and the bytes it emits.
- **Write traversal.** The loop keeps the accumulator equal to `Pack` of the members processed so far. Each member's contribution goes into the accumulator through the model of clear-then-OR.
- **Read traversal.** The loop hands member `i` exactly `(agg >> pos_i) & mask_i`, round-tripped through a scratch buffer in the member's own byte order.
- **Member status.** Inside a bitfield, each member is asked to read and write with `size = bit_length()`, not its byte length (`basic_type.hpp:201`, `:263`). The unchecked traversals instead call the member's own `read_no_status`/`write_no_status` (`basic_type.hpp:234`, `:312`). Since `ceil(W / 8) <= W`, the member's size check always passes and its status is always success. The traversals keep the source's "stop at the first failure" loop guard, and their invariants show that it never triggers (see Left out).

## Model

In the source column, `basic_type.hpp` stands for `include/nil/crypto3/marshalling/multiprecision/types/detail/bitfield/basic_type.hpp` and `fixed_bit_length.hpp` for `include/nil/crypto3/marshalling/multiprecision/types/adapter/fixed_bit_length.hpp`; the table cells carry the full paths.

| member | source | states |
|---|---|---|
| Bits.Field | include/nil/crypto3/marshalling/multiprecision/types/detail/bitfield/basic_type.hpp:180-188 | `(x >> pos) & ((1 << w) - 1)` is a `w`-bit value |
| Bits.Compose | include/nil/crypto3/marshalling/multiprecision/types/detail/bitfield/basic_type.hpp:283-288 | a number assembled from a low part below bit `pos`, a `w`-bit field at `pos` and a high part from `pos + w` up gives back each of the three parts |
| Bits.Decompose | include/nil/crypto3/marshalling/multiprecision/types/detail/bitfield/basic_type.hpp:180-188 | every number is its bits below `pos`, plus its field at `pos` shifted to `pos`, plus its bits from `pos + w` up |
| Bits.FieldAddHigh | include/nil/crypto3/marshalling/multiprecision/types/detail/bitfield/basic_type.hpp:188 | adding anything at or above bit `s` leaves every field that ends at or below `s` unchanged |
| Bits.AppendBound | include/nil/crypto3/marshalling/multiprecision/types/detail/bitfield/basic_type.hpp:285-288 | a value below `2^pos` with a `w`-bit value above it fits in `pos + w` bits |
| Bits.Clear | include/nil/crypto3/marshalling/multiprecision/types/detail/bitfield/basic_type.hpp:283-287 | `acc & ~(mask << pos)` has a zero field at `[pos, pos + w)` and the same bits as `acc` below `pos` and from `pos + w` up |
| Bits.Insert | include/nil/crypto3/marshalling/multiprecision/types/detail/bitfield/basic_type.hpp:283-288 | after clear-then-OR the field at `pos` is `v & mask` and every bit outside `[pos, pos + w)` is that of `acc` |
| Bits.InsertIntoEmpty | include/nil/crypto3/marshalling/multiprecision/types/detail/bitfield/basic_type.hpp:320-330 | on an accumulator with no bits at or above `pos`, clear-then-OR is the addition of `(v & mask) << pos` |
| Bits.SetBit | include/nil/crypto3/marshalling/multiprecision/types/adapter/fixed_bit_length.hpp:115-118 | `bit_set(s, k)` makes bit `k` one and keeps every other bit |
| Bits.ClearBit | include/nil/crypto3/marshalling/multiprecision/types/adapter/fixed_bit_length.hpp:120-123 | `bit_unset(s, k)` makes bit `k` zero and keeps every other bit |
| Bits.LowBitsOfLowBits | include/nil/crypto3/marshalling/multiprecision/types/adapter/fixed_bit_length.hpp:112 | truncating to `b` bits and then to `a <= b` bits is truncating to `a` bits |
| ByteCodec.ByteLength | include/nil/crypto3/marshalling/multiprecision/types/adapter/fixed_bit_length.hpp:87-89 | the byte count `bits / 8 + (bits % 8 ? 1 : 0)` is `ceil(bits / 8)`: `bits <= 8 * n < bits + 8` |
| ByteCodec.DecodeEncode | test/bitfield.cpp:252 | decoding the `n` bytes encoded from `v`, in either byte order, gives `v mod 2^(8n)` |
| ByteCodec.EncodeDecode | test/bitfield.cpp:264 | encoding the value decoded from some bytes gives back those bytes, in either byte order |
| ByteCodec.WriteData | include/nil/crypto3/marshalling/multiprecision/types/detail/bitfield/basic_type.hpp:128 | `write_data<bits>` emits `ceil(bits / 8)` bytes that decode to `v mod 2^(8 * ceil(bits / 8))` |
| ByteCodec.ReadData | include/nil/crypto3/marshalling/multiprecision/types/detail/bitfield/basic_type.hpp:101-102 | `read_data<bits>` yields a value below `2^bits` |
| ByteCodec.ReadWriteData | include/nil/crypto3/marshalling/multiprecision/types/detail/bitfield/basic_type.hpp:197-201 | bytes written by `write_data<bits>` read back by `read_data<bits>` give the `bits` low bits of the value |
| ByteCodec.WriteReadData | include/nil/crypto3/marshalling/multiprecision/types/detail/bitfield/basic_type.hpp:101-102 | for a whole number of bytes, writing back the value read reproduces the bytes read |
| FixedBitLengthAdapter.ToSerialized | include/nil/crypto3/marshalling/multiprecision/types/adapter/fixed_bit_length.hpp:111-127 | the result is a `W`-bit value; unsigned, it is the value cast to `W` bits (the value itself when it fits); signed, bit `W - 1` is set exactly when the value is negative, and the bits below it are the value's |
| FixedBitLengthAdapter.FromSerialized | include/nil/crypto3/marshalling/multiprecision/types/adapter/fixed_bit_length.hpp:129-141 | the result agrees with the serialized value modulo `2^W`; unsigned, it is that value; signed, it is negative exactly when bit `W - 1` is set, and it lies in `[-2^(W-1), 2^(W-1))` |
| FixedBitLengthAdapter.FromToSerialized | include/nil/crypto3/marshalling/multiprecision/types/adapter/fixed_bit_length.hpp:111-141 | `from_serialized(to_serialized(v)) == v` for every `v` the `W`-bit form can hold (unsigned `[0, 2^W)`, signed `[-2^(W-1), 2^(W-1))`) |
| FixedBitLengthAdapter.ToFromSerialized | include/nil/crypto3/marshalling/multiprecision/types/adapter/fixed_bit_length.hpp:111-141 | `to_serialized(from_serialized(s)) == s` for every `W`-bit `s`, signed or unsigned |
| FixedBitLengthAdapter.FixedBitLength.constructor | include/nil/crypto3/marshalling/multiprecision/types/adapter/fixed_bit_length.hpp:58-59 | a field needs `0 < W <= baseBits`; it starts with value 0 |
| FixedBitLengthAdapter.FixedBitLength.SetValue | test/bitfield.cpp:97 | assigning through `value()` stores the value and keeps the invariant |
| FixedBitLengthAdapter.FixedBitLength.Length | include/nil/crypto3/marshalling/multiprecision/types/adapter/fixed_bit_length.hpp:87-89 | `length()` is `ceil(W / 8)`, and it never exceeds `W` |
| FixedBitLengthAdapter.FixedBitLength.MinLength | include/nil/crypto3/marshalling/multiprecision/types/adapter/fixed_bit_length.hpp:91-93 | `min_length() == length()` |
| FixedBitLengthAdapter.FixedBitLength.MaxLength | include/nil/crypto3/marshalling/multiprecision/types/adapter/fixed_bit_length.hpp:95-97 | `max_length() == length()` |
| FixedBitLengthAdapter.FixedBitLength.BitLength | include/nil/crypto3/marshalling/multiprecision/types/adapter/fixed_bit_length.hpp:99-101 | `bit_length() == W`, and `length()` is the smallest byte count holding it |
| FixedBitLengthAdapter.FixedBitLength.MinBitLength | include/nil/crypto3/marshalling/multiprecision/types/adapter/fixed_bit_length.hpp:103-105 | `min_bit_length() == bit_length()` |
| FixedBitLengthAdapter.FixedBitLength.MaxBitLength | include/nil/crypto3/marshalling/multiprecision/types/adapter/fixed_bit_length.hpp:107-109 | `max_bit_length() == bit_length()` |
| FixedBitLengthAdapter.FixedBitLength.Read | include/nil/crypto3/marshalling/multiprecision/types/adapter/fixed_bit_length.hpp:143-151 | with `size < length()`: `not_enough_data`, nothing consumed, value unchanged; otherwise `success`, `length()` bytes consumed, value `from_serialized(read_data<W>(bytes))` |
| FixedBitLengthAdapter.FixedBitLength.ReadNoStatus | include/nil/crypto3/marshalling/multiprecision/types/adapter/fixed_bit_length.hpp:153-161 | consumes `length()` bytes and sets the value to `from_serialized(read_data<W>(bytes))` |
| FixedBitLengthAdapter.FixedBitLength.Write | include/nil/crypto3/marshalling/multiprecision/types/adapter/fixed_bit_length.hpp:163-171 | with `size < length()`: `buffer_overflow` and no bytes; otherwise `success` and the `length()` bytes of `write_data<W>(to_serialized(value))`, which read back as the value's `W` low bits |
| FixedBitLengthAdapter.FixedBitLength.WriteNoStatus | include/nil/crypto3/marshalling/multiprecision/types/adapter/fixed_bit_length.hpp:173-179 | emits `write_data<W>(to_serialized(value))`: `length()` bytes that read back as the value's `W` low bits |
| BitfieldLayout.ShiftPos | include/nil/crypto3/marshalling/multiprecision/types/detail/bitfield/basic_type.hpp:180-181 | member `i`'s bit range `[pos_i, pos_i + w_i)` lies inside the aggregate's `total_bits` |
| BitfieldLayout.ShiftPosStep | include/nil/crypto3/marshalling/multiprecision/types/detail/bitfield/basic_type.hpp:275-276 | member 0 starts at bit 0, and each member starts where the previous one ends |
| BitfieldLayout.MembersDisjoint | include/nil/crypto3/marshalling/multiprecision/types/detail/bitfield/basic_type.hpp:275-283 | the bit ranges of two members never overlap, and a later member lies above an earlier one |
| BitfieldLayout.SumPrefixMono | include/nil/crypto3/marshalling/multiprecision/types/detail/bitfield/basic_type.hpp:52-53 | offsets never decrease along the tuple |
| BitfieldLayout.Pack | include/nil/crypto3/marshalling/multiprecision/types/detail/bitfield/basic_type.hpp:123-126 | the aggregate of all members fits in `total_bits` bits |
| BitfieldLayout.Unpack | include/nil/crypto3/marshalling/multiprecision/types/detail/bitfield/basic_type.hpp:188 | each extracted member value fits its width |
| BitfieldLayout.PackStep | include/nil/crypto3/marshalling/multiprecision/types/detail/bitfield/basic_type.hpp:285-288 | adding member `i` adds its masked value shifted to `pos_i` to the aggregate of the members before it |
| BitfieldLayout.PackField | include/nil/crypto3/marshalling/multiprecision/types/detail/bitfield/basic_type.hpp:188 | extracting member `j` from a packed aggregate gives back the `w_j` low bits of `vs[j]` |
| BitfieldLayout.UnpackPack | include/nil/crypto3/marshalling/multiprecision/types/detail/bitfield/basic_type.hpp:117-139 | for member values that fit their widths, extraction undoes packing exactly |
| BitfieldLayout.PackUnpack | include/nil/crypto3/marshalling/multiprecision/types/detail/bitfield/basic_type.hpp:95-115 | packing the extracted members gives back the aggregate, reduced to `total_bits` bits |
| BitfieldLayout.LowPlusField | include/nil/crypto3/marshalling/multiprecision/types/detail/bitfield/basic_type.hpp:188 | the low `pos + w` bits are the low `pos` bits plus the field at `pos` |
| BasicBitfield.WellFormedNonEmpty | include/nil/crypto3/marshalling/multiprecision/types/detail/bitfield/basic_type.hpp:49-58 | a tuple of at least two positive widths summing to a multiple of 8 is at least one byte long |
| BasicBitfield.ValidFold | include/nil/crypto3/marshalling/multiprecision/types/detail/bitfield/basic_type.hpp:337-342 | `valid()` holds exactly when the seed holds and every member reports valid |
| BasicBitfield.ValidEvaluated | include/nil/crypto3/marshalling/multiprecision/types/detail/bitfield/basic_type.hpp:340 | the `&&` short-circuits: member `k`'s `valid()` is evaluated exactly when the seed holds and all earlier members reported valid |
| BasicBitfield.RefreshFold | include/nil/crypto3/marshalling/multiprecision/types/detail/bitfield/basic_type.hpp:344-349 | `refresh()` reports a change exactly when the seed does or some member reports one |
| BasicBitfield.RefreshEvaluated | include/nil/crypto3/marshalling/multiprecision/types/detail/bitfield/basic_type.hpp:347 | the member's `refresh()` is the left operand of `||`, so every member's `refresh()` is called, whatever the seed and the earlier reports |
| BasicBitfield.WireRoundTrip | test/bitfield.cpp:62-75 | writing the packed members and reading the aggregate back gives every member its value's low `w_i` bits, and exactly its value when all values fit |
| BasicBitfield.BytesRoundTrip | include/nil/crypto3/marshalling/multiprecision/types/detail/bitfield/basic_type.hpp:109-139 | reading an aggregate and writing its extracted members back reproduces the `length()` bytes read |
| BasicBitfield.Bitfield.constructor | include/nil/crypto3/marshalling/multiprecision/types/detail/bitfield/basic_type.hpp:67 | a default-constructed bitfield over a well-formed tuple has one fresh zero-valued member per width, with its own base width and byte order |
| BasicBitfield.Bitfield.SetMember | include/nil/crypto3/marshalling/multiprecision/types/detail/bitfield/basic_type.hpp:79-81 | assigning member `idx` through `value()` changes that member's value and no other |
| BasicBitfield.Bitfield.TotalBits | include/nil/crypto3/marshalling/multiprecision/types/detail/bitfield/basic_type.hpp:52-53 | `total_bits` is the sum of the member widths |
| BasicBitfield.Bitfield.Length | include/nil/crypto3/marshalling/multiprecision/types/detail/bitfield/basic_type.hpp:83-85 | `length()` is `total_bits / 8`, positive, and exactly the bytes `total_bits` needs |
| BasicBitfield.Bitfield.MinLength | include/nil/crypto3/marshalling/multiprecision/types/detail/bitfield/basic_type.hpp:87-89 | `min_length() == length()` |
| BasicBitfield.Bitfield.MaxLength | include/nil/crypto3/marshalling/multiprecision/types/detail/bitfield/basic_type.hpp:91-93 | `max_length() == length()` |
| BasicBitfield.Bitfield.MemberBitLength | include/nil/crypto3/marshalling/multiprecision/types/detail/bitfield/basic_type.hpp:149-155 | `member_bit_length<idx>()` is member `idx`'s declared width, positive, and its range ends inside the aggregate |
| BasicBitfield.Bitfield.ReadMember | include/nil/crypto3/marshalling/multiprecision/types/detail/bitfield/basic_type.hpp:173-202 | member `i` receives exactly `(agg >> pos_i) & mask_i`, through a scratch buffer in its own byte order and a read with size `bit_length()`, which succeeds; other members keep their values |
| BasicBitfield.Bitfield.ReadMemberNoStatus | include/nil/crypto3/marshalling/multiprecision/types/detail/bitfield/basic_type.hpp:215-235 | member `i` receives exactly `(agg >> pos_i) & mask_i`, through a scratch buffer in its own byte order and its own `read_no_status`; other members keep their values |
| BasicBitfield.Bitfield.Read | include/nil/crypto3/marshalling/multiprecision/types/detail/bitfield/basic_type.hpp:95-107 | with `size < length()`: `not_enough_data`, nothing consumed, members unchanged; otherwise `success`, `length()` bytes consumed, and the member values are the extraction of `read_data<total_bits>(bytes)` |
| BasicBitfield.Bitfield.ReadNoStatus | include/nil/crypto3/marshalling/multiprecision/types/detail/bitfield/basic_type.hpp:109-115 | consumes `length()` bytes; the member values are the extraction of `read_data<total_bits>(bytes)` |
| BasicBitfield.Bitfield.WriteMember | include/nil/crypto3/marshalling/multiprecision/types/detail/bitfield/basic_type.hpp:247-289 | member `i` writes itself with size `bit_length()`, which succeeds; the scratch bytes read back in its byte order and clear-then-OR at `pos_i` insert its value's `w_i` low bits into the accumulator |
| BasicBitfield.Bitfield.WriteMemberNoStatus | include/nil/crypto3/marshalling/multiprecision/types/detail/bitfield/basic_type.hpp:303-330 | member `i` writes itself with its own `write_no_status`; the scratch bytes read back in its byte order and clear-then-OR at `pos_i` insert its value's `w_i` low bits into the accumulator |
| BasicBitfield.Bitfield.Write | include/nil/crypto3/marshalling/multiprecision/types/detail/bitfield/basic_type.hpp:117-131 | with `size < length()`: `buffer_overflow` and no bytes; otherwise `success` and `write_data<total_bits>` of the packed member values in the bitfield's byte order, whatever the members' own byte orders |
| BasicBitfield.Bitfield.WriteNoStatus | include/nil/crypto3/marshalling/multiprecision/types/detail/bitfield/basic_type.hpp:133-139 | emits `write_data<total_bits>` of the packed member values |
| BasicBitfield.Bitfield.AccumulateStep | include/nil/crypto3/marshalling/multiprecision/types/detail/bitfield/basic_type.hpp:283-288 | clear-then-OR of member `i` into the aggregate of members `0..i-1` gives the aggregate of members `0..i` |
| BitfieldExamples.EndiannessAggregate | test/bitfield.cpp:247-250 | widths {3, 16, 5} holding {0, 0b1110110100000001, 0} form the aggregate 0x076808 |
| BitfieldExamples.EndiannessBigBytes | test/bitfield.cpp:252 | that aggregate is written big-endian as 07 68 08 |
| BitfieldExamples.EndiannessLittleBytes | test/bitfield.cpp:264 | and little-endian as 08 68 07 |
| BitfieldExamples.EndiannessBytes | test/bitfield.cpp:234-264 | the example's bytes in either outer byte order |
| BitfieldExamples.EndiannessField | test/bitfield.cpp:236-250 | the endianness tests' bitfield holds {0, 0b1110110100000001, 0} in widths {3, 16, 5} |
| BitfieldExamples.EndiannessScenario | test/bitfield.cpp:269-289 | writing that bitfield gives 07 68 08 big-endian and 08 68 07 little-endian, whatever the middle member's own byte order |
| BitfieldExamples.RoundTrip | test/bitfield.cpp:62-75 | the bytes one bitfield writes, read by a second one of the same layout, give it the first one's member values with status success |
| BitfieldExamples.MakeField | test/bitfield.cpp:95-101 | assigning every member through `value()` any value its base type holds gives the bitfield exactly those values |
| BitfieldExamples.Scenario | test/bitfield.cpp:62-75 | a bitfield built from any well-formed layout and fitting values round-trips, with `length() == total_bits / 8` and `member_bit_length<i>()` the declared width of member `i` |
| BitfieldExamples.Test0 | test/bitfield.cpp:79-105 | two 512-bit members on 1024-bit bases: length 128, member bit lengths 512 and 512, and 0x1 and 0xABCDEF1234567890 round-trip |
| BitfieldExamples.Test2 | test/bitfield.cpp:140-166 | widths 1 and 511: length 64, member bit lengths 1 and 511, and 0x1 and `2^511 - 1` round-trip |
| BitfieldExamples.Test3 | test/bitfield.cpp:168-232 | ten members of widths 2..10, 10 with mixed byte orders: length 8, member bit lengths 2..10, 10, and 0..9 round-trip |

## Left out

- `processing::read_data` / `processing::write_data` (and `processing/integral.hpp`) are not part of this model. `ByteCodec` gives them a concrete definition: `ceil(bits / 8)` bytes, most significant first for big endian and least significant first for little endian. Reading yields the decoded bytes reduced to `bits` bits. This is an assumption about the foreign code. The byte order agrees with test/bitfield.cpp:252 and :264.
- `get_member_shift_pos`, `calc_bit_length`, `bitfield_member_length_retriever`, `tuple_for_each_with_template_param_idx` and `tuple_accumulate` are foreign library code. They are replaced by the width sequence, prefix sums (`BitfieldLayout.ShiftPos`), ordinary loops over the member sequence and recursive folds.
- `is_version_dependent` / `set_version` (basic_type.hpp:157-165) only delegate to the foreign `common_funcs`. They are not modelled.
- The members' own `valid()` and `refresh()` belong to the base integral field, which is not part of this model. Their answers are inputs of `ValidFold`, `ValidEvaluated`, `RefreshFold` and `RefreshEvaluated`, and any effect a member's `refresh()` has on its value is not modelled. `valid` and `refresh` are therefore functions over those answers rather than class members.
- Multiprecision arithmetic (`cpp_int` backends, `bit_set`, `bit_unset`, `bit_test`) becomes Dafny's unbounded `nat` and `int`. `serialized_type` is assumed wide enough for `total_bits` (respectively `W`) bits, which `size_to_type` selects.
- `processing/size_to_type.hpp` and `processing/detail/size_to_type.hpp` are a compile-time type selection with no runtime behaviour. They are not modelled.
- `FixedBitLengthAdapter.FixedBitLength`: signed base types are rejected at compile time (fixed_bit_length.hpp:66), so the class is unsigned (it calls `ToSerialized`/`FromSerialized` with `signed = false`). The signed branch is modelled and proved only as the module functions `ToSerialized`/`FromSerialized`.
- FixedBitLengthAdapter.ToSerialized: the signed `static_cast` into `serialized_type` (fixed_bit_length.hpp:112) is assumed to be two's-complement reduction modulo `2^W`, so for example -7 in 5 bits serializes to 0b11001. For a signed base, `size_to_type` selects a signed-magnitude integer (include/nil/crypto3/marshalling/multiprecision/processing/detail/size_to_type.hpp:39-45). Its cast would keep the magnitude in the low bits instead (0b10111 for -7). The multiprecision casts themselves are not part of this model. The signed halves of `FromToSerialized` and `ToFromSerialized` therefore hold only under the two's-complement assumption. In the source, the class rejects signed bases (fixed_bit_length.hpp:66), and the repository's signed bitfield test is disabled as unsupported (test/bitfield.cpp:107).
- The unsigned `static_cast` in `to_serialized` is modelled as reduction modulo `2^W`. The adapter's underlying `base_impl_type::to_serialized` is taken to be the identity on the unsigned value.
- `BasicBitfield.Bitfield.Read`: the "stop at the first failing member, keep what was read" path (basic_type.hpp:175-177) is kept as the loop guard, but it is unreachable. A member's read inside a bitfield always succeeds because its size argument is `bit_length() >= length()`. The contract therefore states success and cannot exhibit a partial read.
- `BasicBitfield.Bitfield.Write`: likewise, the "no bytes unless every member succeeded" path (basic_type.hpp:127-130, :265-267) is kept in the code but unreachable. The contract states the full write.
- The iterator is not modelled as a position. `Read` returns the number of bytes consumed, and `Write` returns the emitted bytes rather than writing through an output iterator.
- The scratch buffers are modelled as byte sequences, not fixed-size arrays. The members are objects of a class, not a `std::tuple`.
- The constructors from a member tuple (basic_type.hpp:69-73) are modelled as default construction followed by one `SetMember` per member (`BitfieldExamples.MakeField`).
- The test harness is not modelled: `nil::marshalling::pack` (nil/marshalling/algorithms/pack.hpp, not part of this model; it is stood in for by the bitfield's own `Write` and `Read`), `print_byteblob` and `generate_random` in test/utils.h, and the random tests in test/integral*.cpp.
