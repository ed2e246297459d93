/** The two 32-bit helpers of the bulk build in src/count.rs: `is_power`
    and `exp_floor_log`. Both work on `u32`, modelled as `bv32`. */
module Bits {

  /** The power of two with exponent `k`, for the 32 exponents a `u32` can
      hold. */
  function PowerOfTwo(k: nat): bv32
    requires k < 32
  {
    (1 as bv32) << k
  }

  /** The exponent of the highest bit set in `v` when `v` has exactly one
      bit set, read off five masks: bit j of the exponent is set exactly
      when the set bit lies in a position whose bit j is 1. */
  function Exponent(v: bv32): (k: nat)
    ensures k < 32
  {
    (if v & 0xAAAA_AAAA != 0 then 1 else 0)
    + (if v & 0xCCCC_CCCC != 0 then 2 else 0)
    + (if v & 0xF0F0_F0F0 != 0 then 4 else 0)
    + (if v & 0xFF00_FF00 != 0 then 8 else 0)
    + (if v & 0xFFFF_0000 != 0 then 16 else 0)
  }

  /** `is_power`: zero is not a power; otherwise clearing the lowest set
      bit must leave nothing. */
  predicate IsPower(v: bv32) {
    if v == 0 then false else v & (v - 1) == 0
  }

  /** `is_power` holds exactly of the 32 powers of two. */
  lemma IsPowerExactlyPowersOfTwo(v: bv32)
    ensures IsPower(v) <==> exists k :: 0 <= k < 32 && v == PowerOfTwo(k)
  {
    if IsPower(v) {
      OneBitHasExponent(v);
    }
    forall k | 0 <= k < 32
      ensures IsPower(PowerOfTwo(k))
    {
      PowerOfTwoIsPower(k);
    }
  }

  lemma OneBitHasExponent(v: bv32)
    requires IsPower(v)
    ensures v == PowerOfTwo(Exponent(v))
  {
  }

  lemma PowerOfTwoIsPower(k: nat)
    requires k < 32
    ensures IsPower(PowerOfTwo(k))
  {
  }

  /** Bits below the highest set bit of `e` all set, by or-ing in the
      value shifted right by 1, 2, 4, 8 and 16, as `exp_floor_log` does. */
  function Smear(e: bv32): bv32 {
    var e1 := e | (e >> 1);
    var e2 := e1 | (e1 >> 2);
    var e3 := e2 | (e2 >> 4);
    var e4 := e3 | (e3 >> 8);
    e4 | (e4 >> 16)
  }

  /** The smeared value is a run of ones from bit 0 up. */
  lemma SmearAllOnes(e: bv32)
    ensures Smear(e) & (Smear(e) + 1) == 0
  {
  }

  /** The smeared value keeps the highest set bit of `e` and adds nothing
      above it. */
  lemma SmearKeepsTopBit(e: bv32)
    ensures e <= Smear(e) && Smear(e) >> 1 <= e
    ensures e < 0x8000_0000 ==> Smear(e) < 0x8000_0000
  {
  }

  /** `r` lies in `(v / 2, v]`: at most `v`, and more than what is left
      of `v` once `r` is taken away. */
  predicate WithinHalf(r: bv32, v: bv32) {
    r <= v && v - r < r
  }

  /** The last two steps of `exp_floor_log`: add one, then halve. */
  function RoundHalf(s: bv32): bv32 {
    (s + 1) >> 1
  }

  /** `exp_floor_log`: 0 and powers of two are returned as they are; any
      other `v` has its bits below the highest smeared to ones (after
      subtracting one), which rounds up to a power of two by adding one,
      and halving that gives the largest power of two below `v`. Above
      2^31 the `efl += 1` step overflows `u32`; it is modelled wrapping to
      0, as a release build does, so the result there is 0. */
  function ExpFloorLog(v: bv32): (r: bv32)
    ensures v == 0 ==> r == 0
    ensures 0 < v <= 0x8000_0000 ==> IsPower(r) && WithinHalf(r, v)
    ensures IsPower(v) ==> r == v
    ensures 0x8000_0000 < v && !IsPower(v) ==> r == 0
  {
    if v == 0 then 0
    else if IsPower(v) then v
    else RoundDown(v)
  }

  /** The smear branch of `exp_floor_log`. */
  function RoundDown(v: bv32): (r: bv32)
    requires 0 < v && !IsPower(v)
    ensures v <= 0x8000_0000 ==> IsPower(r) && WithinHalf(r, v)
    ensures 0x8000_0000 < v ==> r == 0
  {
    var s := Smear(v - 1);
    SmearAllOnes(v - 1);
    SmearKeepsTopBit(v - 1);
    if v <= 0x8000_0000 then
      SmearedHalf(v, s);
      RoundHalf(s)
    else
      SmearFromTopBit(v - 1);
      RoundHalfWraps();
      RoundHalf(s)
  }

  /** With the top bit set, smearing sets every bit. */
  lemma SmearFromTopBit(e: bv32)
    requires 0x8000_0000 <= e
    ensures Smear(e) == 0xFFFF_FFFF
  {
  }

  /** Adding one to all ones wraps to zero. */
  lemma RoundHalfWraps()
    ensures RoundHalf(0xFFFF_FFFF) == 0
  {
  }

  /** For a `v` that is not a power of two, a run of ones `s` covering the
      highest bit of `v - 1` and nothing above it rounds, once one is added
      and the sum halved, to a power of two in `(v / 2, v]`. */
  lemma SmearedHalf(v: bv32, s: bv32)
    requires 0 < v <= 0x8000_0000 && !IsPower(v)
    requires s & (s + 1) == 0 && v - 1 <= s && s >> 1 <= v - 1 && s < 0x8000_0000
    ensures IsPower(RoundHalf(s)) && WithinHalf(RoundHalf(s), v)
  {
  }

  /** Of two different powers of two, the larger is at least twice the
      smaller. */
  lemma PowersApart(a: bv32, b: bv32)
    requires IsPower(a) && IsPower(b) && b < a
    ensures b <= a - b
  {
  }

  /** The result is the largest power of two not above `v`: every power of
      two up to `v` is at most the result. */
  lemma ExpFloorLogIsLargest(v: bv32, p: bv32)
    requires 0 < v <= 0x8000_0000
    requires IsPower(p) && p <= v
    ensures p <= ExpFloorLog(v)
  {
    NoPowerBetween(v, ExpFloorLog(v), p);
  }

  /** A power of two in `(v / 2, v]` is the only one there, and no power of
      two up to `v` exceeds it. */
  lemma NoPowerBetween(v: bv32, r: bv32, p: bv32)
    requires IsPower(r) && WithinHalf(r, v)
    requires IsPower(p) && p <= v
    ensures p <= r
  {
    if r < p {
      PowersApart(p, r);
    }
  }

  /** The values the bulk-build tests feed it: the counts plus one for 63
      and 94 elements, and the power-of-two and zero cases. */
  lemma ExpFloorLogScenario()
    ensures ExpFloorLog(64) == 64
    ensures ExpFloorLog(95) == 64
    ensures ExpFloorLog(7) == 4
    ensures ExpFloorLog(0) == 0
    ensures !IsPower(0) && IsPower(1) && !IsPower(6) && IsPower(0x8000_0000)
  {
  }
}
