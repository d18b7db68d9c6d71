/**
 * Bit arithmetic on unbounded naturals.
 *
 * The multiprecision values of the marshalled fields are modelled as `nat`
 * (or `int` for the signed branch).  A shift right by `pos` is a division by
 * `Pow2(pos)`, a mask of `w` ones is `Pow2(w) - 1`, and "and with that mask"
 * is `% Pow2(w)`.  The lemmas below are the facts about these operations
 * that the codecs need: splitting a number into the bits below, inside and
 * above a bit range, and putting such pieces back together.
 */
module Bits {

  /** 2 to the power `n`, i.e. the value of `1 << n`. */
  function Pow2(n: nat): (r: nat)
    ensures 0 < r
  {
    if n == 0 then 1 else 2 * Pow2(n - 1)
  }

  /** `(1 << w) - 1`: the mask of the `w` least-significant bits. */
  function Mask(w: nat): (m: nat)
    ensures m + 1 == Pow2(w)
  {
    Pow2(w) - 1
  }

  /** `x & Mask(w)`: the `w` least-significant bits of `x`. */
  function LowBits(x: nat, w: nat): (r: nat)
    ensures r < Pow2(w)
  {
    x % Pow2(w)
  }

  /** `(x >> pos) & Mask(w)`: the `w` bits of `x` starting at bit `pos`. */
  function Field(x: nat, pos: nat, w: nat): (r: nat)
    ensures r < Pow2(w)
  {
    LowBits(Shr(x, pos), w)
  }

  /** `x >> pos`. */
  function Shr(x: nat, pos: nat): (r: nat)
    ensures r * Pow2(pos) <= x < (r + 1) * Pow2(pos)
  {
    DivBounds(x, Pow2(pos));
    x / Pow2(pos)
  }

  lemma DivBounds(x: nat, d: nat)
    requires 0 < d
    ensures 0 <= x / d && (x / d) * d <= x < (x / d + 1) * d
  {
  }

  /** Bit `k` of `x` (0 or 1), the model of `bit_test`. */
  function Bit(x: nat, k: nat): (b: nat)
    ensures b < 2
  {
    Pow2One();
    Field(x, k, 1)
  }

  lemma Pow2One()
    ensures Pow2(1) == 2
  {
  }

  lemma Pow2Byte()
    ensures Pow2(8) == 256
  {
  }

  lemma {:induction false} Pow2Add(a: nat, b: nat)
    ensures Pow2(a + b) == Pow2(a) * Pow2(b)
  {
    if a > 0 {
      Pow2Add(a - 1, b);
      assert Pow2(a + b) == 2 * Pow2(a - 1 + b);
      MulAssoc2(Pow2(a - 1), Pow2(b));
    }
  }

  lemma MulAssoc2(x: int, y: int)
    ensures 2 * (x * y) == (2 * x) * y
  {
  }

  lemma Pow2Mono(a: nat, b: nat)
    requires a <= b
    ensures Pow2(a) <= Pow2(b)
  {
    Pow2Add(a, b - a);
    MulMono(1, Pow2(b - a), Pow2(a));
  }

  lemma MulMono(a: int, b: int, c: nat)
    requires a <= b
    ensures a * c <= b * c
  {
  }

  lemma MulNat(a: nat, b: nat)
    ensures 0 <= a * b
  {
  }

  lemma MulSucc(q: int, d: int)
    ensures (q + 1) * d == q * d + d
  {
  }

  /** Division and remainder are determined by any decomposition `x == q * d + r` with `0 <= r < d`. */
  lemma DivModUnique(x: int, d: int, q: int, r: int)
    requires 0 < d && 0 <= r < d && x == q * d + r
    ensures x / d == q && x % d == r
  {
    var q0, r0 := x / d, x % d;
    DivModDef(x, d);
    if q0 < q {
      MulMono(q0 + 1, q, d);
      MulSucc(q0, d);
      assert false;
    } else if q < q0 {
      MulMono(q + 1, q0, d);
      MulSucc(q, d);
      assert false;
    }
  }

  lemma DivModDef(x: int, d: int)
    requires 0 < d
    ensures x == (x / d) * d + x % d && 0 <= x % d < d
  {
  }

  lemma ModSmall(x: nat, m: nat)
    requires x < m
    ensures x % m == x && x / m == 0
  {
    DivModUnique(x, m, 0, x);
  }

  /**
   * Putting pieces back together: `a` below bit `pos`, `b` in the `w` bits
   * from `pos`, and `c` from bit `pos + w` up.  Each piece is recovered.
   */
  lemma Compose(a: nat, b: nat, c: nat, pos: nat, w: nat)
    requires a < Pow2(pos) && b < Pow2(w)
    ensures (a + b * Pow2(pos) + c * Pow2(pos + w)) % Pow2(pos) == a
    ensures Field(a + b * Pow2(pos) + c * Pow2(pos + w), pos, w) == b
    ensures (a + b * Pow2(pos) + c * Pow2(pos + w)) / Pow2(pos + w) == c
  {
    Pow2Add(pos, w);
    ComposeParts(a, b, c, Pow2(pos), Pow2(w));
  }

  /** `Compose`, stated on plain divisors `P` and `W`. */
  lemma ComposeParts(a: nat, b: nat, c: nat, P: nat, W: nat)
    requires a < P && b < W
    ensures (a + b * P + c * (P * W)) % P == a
    ensures ((a + b * P + c * (P * W)) / P) % W == b
    ensures (a + b * P + c * (P * W)) / (P * W) == c
  {
    MulNat(c, W);
    var t: nat := b + c * W;
    RegroupLow(a, b, c, P, W);
    DivModUnique(a + b * P + c * (P * W), P, t, a);
    DivModUnique(t, W, c, b);
    AppendBoundParts(a, b, P, W);
    DivModUnique(a + b * P + c * (P * W), P * W, c, a + b * P);
  }

  lemma RegroupLow(a: int, b: int, c: int, P: int, W: int)
    ensures a + b * P + c * (P * W) == (b + c * W) * P + a
  {
  }

  /** Splitting a number into the bits below, inside and above the range `[pos, pos + w)`. */
  lemma Decompose(x: nat, pos: nat, w: nat)
    ensures x == x % Pow2(pos) + Field(x, pos, w) * Pow2(pos) + (x / Pow2(pos + w)) * Pow2(pos + w)
  {
    var P, W := Pow2(pos), Pow2(w);
    Pow2Add(pos, w);
    DivDiv(x, P, W);
    Recombine(x, P, W);
  }

  /** `x == (x / (P * W)) * (P * W) + ((x / P) % W) * P + x % P`, stated on plain variables. */
  lemma Recombine(x: nat, P: nat, W: nat)
    requires 0 < P && 0 < W
    ensures x == x % P + ((x / P) % W) * P + ((x / P) / W) * (P * W)
  {
    DivModDef(x, P);
    DivModDef(x / P, W);
    Distribute(x, (x / P) / W, W, (x / P) % W, P, x % P, x / P);
  }

  lemma Distribute(x: int, q2: int, W: int, r2: int, P: int, r: int, q: int)
    requires x == q * P + r && q == q2 * W + r2
    ensures x == r + r2 * P + q2 * (P * W)
  {
  }

  /** A value below `Pow2(pos)` followed by a `w`-bit value fits in `pos + w` bits. */
  lemma AppendBound(a: nat, b: nat, pos: nat, w: nat)
    requires a < Pow2(pos) && b < Pow2(w)
    ensures a + b * Pow2(pos) < Pow2(pos + w)
  {
    Pow2Add(pos, w);
    AppendBoundParts(a, b, Pow2(pos), Pow2(w));
  }

  lemma AppendBoundParts(a: int, b: int, P: int, W: int)
    requires 0 <= a < P && 0 <= b < W
    ensures a + b * P < P * W
  {
    MulMono(b, W - 1, P);
    MulSucc(W - 1, P);
  }

  /** Adding a multiple of `Pow2(s)` does not disturb the bits below `s`. */
  lemma FieldAddHigh(x: nat, y: nat, pos: nat, w: nat, s: nat)
    requires pos + w <= s
    ensures Field(x + y * Pow2(s), pos, w) == Field(x, pos, w)
  {
    Pow2Add(pos, w);
    Pow2Add(pos + w, s - (pos + w));
    FieldAddHighParts(x, y, Pow2(pos), Pow2(w), Pow2(s - (pos + w)));
  }

  /** `FieldAddHigh`, stated on plain divisors. */
  lemma FieldAddHighParts(x: nat, y: nat, P: nat, W: nat, R: nat)
    requires 0 < P && 0 < W && 0 < R
    ensures ((x + y * ((P * W) * R)) / P) % W == (x / P) % W
  {
    MulNat(y, R);
    AddMultiple(x, y * R, P, W);
    MulRegroup(y, P * W, R);
  }

  lemma MulRegroup(y: int, PW: int, R: int)
    ensures y * (PW * R) == (y * R) * PW
  {
  }

  /** Adding `m` times `P * W` adds `m * W` to `x / P`, which leaves its remainder modulo `W` alone. */
  lemma AddMultiple(x: nat, m: nat, P: nat, W: nat)
    requires 0 < P && 0 < W
    ensures ((x + m * (P * W)) / P) % W == (x / P) % W
  {
    DivModDef(x, P);
    MulNat(m, W);
    ShiftRegroup(x, m, P, W, x / P, x % P);
    DivModUnique(x + m * (P * W), P, x / P + m * W, x % P);
    DivModDef(x / P, W);
    ShiftRegroup(x / P, m, W, 1, (x / P) / W, (x / P) % W);
    DivModUnique(x / P + m * W, W, (x / P) / W + m, (x / P) % W);
  }

  lemma ShiftRegroup(x: int, m: int, P: int, W: int, q: int, r: int)
    requires x == q * P + r
    ensures x + m * (P * W) == (q + m * W) * P + r
  {
  }

  /** Taking fewer low bits of the low bits. */
  lemma LowBitsOfLowBits(x: int, a: nat, b: nat)
    requires a <= b
    ensures (x % Pow2(b)) % Pow2(a) == x % Pow2(a)
  {
    Pow2Add(a, b - a);
    ModMod(x, Pow2(a), Pow2(b - a));
  }

  lemma ModMod(x: int, A: nat, B: nat)
    requires 0 < A && 0 < B
    ensures (x % (A * B)) % A == x % A
  {
    MulNat(A, B);
    DivModDef(x, A * B);
    var k, r := x / (A * B), x % (A * B);
    DivModDef(r, A);
    RegroupMod(x, k, A, B, r, r / A, r % A);
    DivModUnique(x, A, k * B + r / A, r % A);
  }

  lemma RegroupMod(x: int, k: int, A: int, B: int, r: int, t: int, y: int)
    requires x == k * (A * B) + r && r == t * A + y
    ensures x == (k * B + t) * A + y
  {
  }

  /**
   * `acc & ~(Mask(w) << pos)`: `acc` with the bits of `[pos, pos + w)`
   * cleared.  Every other bit is kept.
   */
  function Clear(acc: nat, pos: nat, w: nat): (r: nat)
    ensures r % Pow2(pos) == acc % Pow2(pos)
    ensures Field(r, pos, w) == 0
    ensures r / Pow2(pos + w) == acc / Pow2(pos + w)
  {
    Compose(acc % Pow2(pos), 0, acc / Pow2(pos + w), pos, w);
    MulNat(acc / Pow2(pos + w), Pow2(pos + w));
    acc % Pow2(pos) + (acc / Pow2(pos + w)) * Pow2(pos + w)
  }

  /**
   * `(acc & ~(Mask(w) << pos)) | ((v & Mask(w)) << pos)`.  The range is
   * cleared first, so the OR adds bits where the cleared value has none and
   * coincides with `+`.
   */
  function Insert(acc: nat, pos: nat, w: nat, v: nat): (r: nat)
    ensures r % Pow2(pos) == acc % Pow2(pos)
    ensures Field(r, pos, w) == LowBits(v, w)
    ensures r / Pow2(pos + w) == acc / Pow2(pos + w)
  {
    Compose(acc % Pow2(pos), LowBits(v, w), acc / Pow2(pos + w), pos, w);
    MulNat(LowBits(v, w), Pow2(pos));
    Clear(acc, pos, w) + LowBits(v, w) * Pow2(pos)
  }

  /** On an accumulator whose bits from `pos` up are all zero, insertion is plain addition. */
  lemma InsertIntoEmpty(acc: nat, pos: nat, w: nat, v: nat)
    requires acc < Pow2(pos)
    ensures Insert(acc, pos, w, v) == acc + LowBits(v, w) * Pow2(pos)
  {
    ModSmall(acc, Pow2(pos));
    Pow2Mono(pos, pos + w);
    ModSmall(acc, Pow2(pos + w));
  }

  lemma DivDiv(x: nat, a: nat, b: nat)
    requires 0 < a && 0 < b
    ensures x / (a * b) == (x / a) / b
  {
    Recombine(x, a, b);
    AppendBoundParts(x % a, (x / a) % b, a, b);
    MulNat(a, b);
    DivModUnique(x, a * b, (x / a) / b, x % a + ((x / a) % b) * a);
  }

  /** `bit_set(s, k)`: bit `k` becomes 1, every other bit is kept. */
  function SetBit(s: nat, k: nat): (r: nat)
    ensures Bit(r, k) == 1
    ensures r % Pow2(k) == s % Pow2(k)
    ensures r / Pow2(k + 1) == s / Pow2(k + 1)
  {
    Pow2One();
    ModSmall(1, Pow2(1));
    Insert(s, k, 1, 1)
  }

  /** `bit_unset(s, k)`: bit `k` becomes 0, every other bit is kept. */
  function ClearBit(s: nat, k: nat): (r: nat)
    ensures Bit(r, k) == 0
    ensures r % Pow2(k) == s % Pow2(k)
    ensures r / Pow2(k + 1) == s / Pow2(k + 1)
  {
    Clear(s, k, 1)
  }
}
