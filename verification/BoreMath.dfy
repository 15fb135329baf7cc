/**
 The arithmetic of BORE: the fixed-point logarithm, the branch-free clamp, binary smoothing,
 the effective priority and the reciprocal table, each with what it computes.
 */
module BoreMath {
  import opened Bitwise

  const MAX_BURST_PENALTY: nat := 10239
  const BURST_CACHE_SAMPLE_LIMIT: nat := 63
  const MAX_PRIO: nat := 39

  /** The tunables, inside the ranges their sysctl entries enforce. */
  type Smoothness = s: nat | s <= 3
  type Offset = o: nat | o <= 63
  type Scale = s: nat | s <= 4095
  datatype Params = Params(smoothness: Smoothness, offset: Offset, scale: Scale)

  // ----- fixed-point logarithm

  /** One more than floor(log2 v). */
  function BitLength(v: nat): nat {
    if v == 0 then 0 else 1 + BitLength(v / 2)
  }

  lemma {:induction false} BitLengthBound(v: nat, n: nat)
    requires v < Pow2(n)
    ensures BitLength(v) <= n
  {
    if v == 0 {
    } else {
      BitLengthBound(v / 2, n - 1);
    }
  }

  function LeadingZeros(v: u64): (z: nat)
    requires v > 0
    ensures z <= 63 && BitLength(v) == 64 - z
  {
    Pow2Values();
    BitLengthBound(v, 64);
    64 - BitLength(v)
  }

  lemma {:induction false} BitLengthSpec(v: nat)
    ensures v > 0 ==> BitLength(v) >= 1 && Pow2(BitLength(v) - 1) <= v
    ensures v < Pow2(BitLength(v))
  {
    if v <= 1 {
    } else {
      BitLengthSpec(v / 2);
    }
  }

  /** log2(v) + 1 with `fp` fractional bits; 0 for 0. */
  function Log2p1(v: u64, fp: nat): nat
    requires 1 <= fp <= 25
  {
    if v == 0 then 0
    else
      var clz := LeadingZeros(v);
      var exponent := 64 - clz;
      var mantissa := Shr(Shl64(Shl64(v, clz), 1), 64 - fp) % U32;
      OrNonNegative(exponent * Pow2(fp) % U32, mantissa);
      Or(exponent * Pow2(fp) % U32, mantissa)
  }

  lemma DivTwice(w: nat, p: nat)
    requires p > 0
    ensures w / (2 * p) == w / 2 / p
  {
    var q, r := w / 2 / p, w / 2 % p;
    assert w == (2 * p) * q + (2 * r + w % 2);
    DivModUnique(w, 2 * p, q, 2 * r + w % 2);
  }

  lemma {:induction false} ShrDiv(w: nat, n: nat)
    ensures Shr(w, n) == w / Pow2(n)
    decreases n
  {
    if n == 0 {
    } else {
      ShrDiv(w / 2, n - 1);
      DivTwice(w, Pow2(n - 1));
    }
  }

  lemma MulGrows(a: nat, p: nat)
    requires p > 0
    ensures a <= a * p
  {
  }

  lemma {:induction false} ShlMul(v: u64, n: nat)
    requires v * Pow2(n) < U64
    ensures Shl64(v, n) == v * Pow2(n)
    decreases n
  {
    if n == 0 {
    } else {
      var p := Pow2(n - 1);
      assert v * (2 * p) == (2 * v) * p;
      MulGrows(2 * v, p);
      SmallMod(2 * v, U64);
      ShlMul(2 * v, n - 1);
    }
  }

  lemma FractionWidth(fp: nat)
    requires fp <= 25
    ensures Pow2(fp) <= 0x200_0000
  {
    Pow2Monotone(fp, 25);
    Pow2Values();
    Pow2Add(16, 8);
    assert Pow2(25) == 2 * Pow2(24);
  }

  lemma MulBounds(a: nat, b: nat, p: nat)
    requires a <= b
    ensures a * p <= b * p
  {
  }

  /** Exponent and mantissa occupy disjoint bits of a u32. */
  lemma LogAssemble(v: u64, fp: nat, k: nat, m: nat)
    requires v > 0 && 1 <= fp <= 25 && k < 64 && LeadingZeros(v) == 63 - k && m < Pow2(fp)
    requires m == Shr(Shl64(Shl64(v, 63 - k), 1), 64 - fp) % U32
    ensures Log2p1(v, fp) == (k + 1) * Pow2(fp) + m
  {
    hide Or, Shr, Shl64, LeadingZeros;
    var f := Pow2(fp);
    FractionWidth(fp);
    assert (k + 1) * f < U32 by {
      MulBounds(k + 1, 64, f);
    }
    SmallMod((k + 1) * f, U32);
    OrDisjoint(k + 1, m, fp);
  }

  lemma Pow2Halves()
    ensures Pow2(63) == 0x8000_0000_0000_0000 && Pow2(64) == U64
  {
    Pow2Values();
    assert Pow2(64) == 2 * Pow2(63);
  }

  lemma Distribute(a: int, b: int, c: int)
    ensures (a + b) * c == a * c + b * c
  {
  }

  lemma DivBounds(w: nat, d: nat)
    requires d > 0
    ensures (w / d) * d <= w < (w / d + 1) * d
  {
  }

  /** The bits below the leading one of a normalised word. */
  lemma Fraction(w: nat, d: nat, f: nat) returns (m: nat)
    requires d > 0 && d * f == U64 && 0x8000_0000_0000_0000 <= w < U64
    ensures m == (2 * w - U64) / d && m < f
    ensures (f + m) * d <= 2 * w < (f + m + 1) * d
  {
    m := (2 * w - U64) / d;
    DivBounds(2 * w - U64, d);
    if m >= f {
      MulBounds(f, m, d);
    }
    Distribute(f, m, d);
    Distribute(f, m + 1, d);
  }

  lemma Doubled(a: int, b: int)
    ensures (2 * a) * b == 2 * (a * b) && b * (2 * a) == 2 * (b * a)
  {
  }

  lemma MulStrict(a: nat, b: nat, p: nat)
    requires a < b && p > 0
    ensures a * p < b * p
  {
  }

  lemma WordBounds(v: nat, e: nat, p: nat)
    requires e > 0 && e * p == 0x8000_0000_0000_0000 && p <= v < 2 * p
    ensures 0x8000_0000_0000_0000 <= v * e < U64
  {
    MulBounds(p, v, e);
    MulStrict(v, 2 * p, e);
    Doubled(p, e);
  }

  lemma CrossProducts(a: nat, d: nat, v: nat, e: nat, f: nat, p: nat)
    requires d * f == U64 && e * p == U64
    ensures (a * p) * U64 == (a * d) * (f * p)
    ensures (f * v) * U64 == (v * e) * (f * p)
  {
    assert (a * d) * (f * p) == (a * p) * (d * f);
    assert (v * e) * (f * p) == (f * v) * (e * p);
  }

  /** Comparing fractions with equal products of denominators. */
  lemma CrossScale(a: nat, d: nat, v: nat, e: nat, f: nat, p: nat)
    requires d * f == U64 && e * p == U64 && a * d <= v * e
    ensures a * p <= f * v
  {
    if a * p > f * v {
      MulStrict(f * v, a * p, U64);
      CrossProducts(a, d, v, e, f, p);
      MulBounds(a * d, v * e, f * p);
    }
  }

  lemma CrossScaleStrict(a: nat, d: nat, v: nat, e: nat, f: nat, p: nat)
    requires d * f == U64 && e * p == U64 && v * e < a * d && f > 0 && p > 0
    ensures f * v < a * p
  {
    if a * p <= f * v {
      MulBounds(a * p, f * v, U64);
      CrossProducts(a, d, v, e, f, p);
      assert f * p > 0;
      MulStrict(v * e, a * d, f * p);
    }
  }

  lemma MantissaBounds(v: nat, e: nat, d: nat, f: nat, p: nat) returns (m: nat)
    requires e > 0 && d > 0 && f > 0 && p > 0
    requires e * p == 0x8000_0000_0000_0000 && d * f == U64 && p <= v < 2 * p
    ensures 0x8000_0000_0000_0000 <= v * e < U64 && m == (2 * (v * e) - U64) / d && m < f
    ensures (f + m) * p <= f * v < (f + m + 1) * p
  {
    var w, e' := v * e, 2 * e;
    WordBounds(v, e, p);
    m := Fraction(w, d, f);
    assert e' * p == U64 && v * e' == 2 * w by {
      Doubled(e, p);
      Doubled(e, v);
    }
    CrossScale(f + m, d, v, e', f, p);
    CrossScaleStrict(f + m + 1, d, v, e', f, p);
  }

  lemma ShlOne(w: u64)
    requires w >= 0x8000_0000_0000_0000
    ensures Shl64(w, 1) == 2 * w - U64
  {
  }

  lemma LogMantissa(v: u64, k: nat, fp: nat) returns (m: nat)
    requires 1 <= fp <= 25 && k < 64 && Pow2(k) <= v < 2 * Pow2(k)
    ensures m == Shr(Shl64(Shl64(v, 63 - k), 1), 64 - fp) % U32
    ensures m < Pow2(fp)
    ensures (Pow2(fp) + m) * Pow2(k) <= Pow2(fp) * v < (Pow2(fp) + m + 1) * Pow2(k)
  {
    hide Shr, Shl64;
    var e, d, f, p := Pow2(63 - k), Pow2(64 - fp), Pow2(fp), Pow2(k);
    Pow2Add(63 - k, k);
    Pow2Add(64 - fp, fp);
    Pow2Halves();
    m := MantissaBounds(v, e, d, f, p);
    FractionWidth(fp);
    SmallMod(m, U32);
    ShlMul(v, 63 - k);
    ShlOne(v * e);
    ShrDiv(2 * (v * e) - U64, 64 - fp);
  }

  /**
   With k = floor(log2 v) and F = 2^fp the result is (k + 1) * F + m where m is the fractional
   part: m < F and (F + m) * 2^k <= F * v < (F + m + 1) * 2^k.
   */
  lemma LogSpec(v: u64, fp: nat) returns (k: nat, m: nat)
    requires v > 0 && 1 <= fp <= 25
    ensures k < 64 && Pow2(k) <= v < 2 * Pow2(k)
    ensures m < Pow2(fp) && Log2p1(v, fp) == (k + 1) * Pow2(fp) + m
    ensures (Pow2(fp) + m) * Pow2(k) <= Pow2(fp) * v < (Pow2(fp) + m + 1) * Pow2(k)
  {
    hide Or, Shr, Shl64;
    k := 63 - LeadingZeros(v);
    BitLengthSpec(v);
    m := LogMantissa(v, k, fp);
    LogAssemble(v, fp, k, m);
  }

  lemma LogOfZero(fp: nat)
    requires 1 <= fp <= 25
    ensures Log2p1(0, fp) == 0
  {
  }

  lemma MantissaMonotone(f: nat, m: nat, n: nat, p: nat, v: nat, w: nat)
    requires (f + m) * p <= f * v && f * w < (f + n + 1) * p && v <= w
    ensures m <= n
  {
    MulBounds(v, w, f);
    if m > n {
      MulBounds(f + n + 1, f + m, p);
    }
  }

  lemma ExponentMonotone(k: nat, m: nat, l: nat, n: nat, f: nat)
    requires k < l && m < f
    ensures (k + 1) * f + m <= (l + 1) * f + n
  {
    MulBounds(k + 2, l + 1, f);
    Distribute(k + 1, 1, f);
  }

  lemma Pow2Double(n: nat)
    ensures Pow2(n + 1) == 2 * Pow2(n)
  {
  }

  lemma LogMonotone(v: u64, w: u64, fp: nat)
    requires v <= w && 1 <= fp <= 25
    ensures Log2p1(v, fp) <= Log2p1(w, fp)
  {
    hide Log2p1, Pow2;
    if v == 0 {
      LogOfZero(fp);
    } else {
      var k, m := LogSpec(v, fp);
      var l, n := LogSpec(w, fp);
      if k == l {
        MantissaMonotone(Pow2(fp), m, n, Pow2(k), v, w);
      } else if k < l {
        ExponentMonotone(k, m, l, n, Pow2(fp));
      } else {
        Pow2Monotone(l + 1, k);
        Pow2Double(l);
      }
    }
  }

  /** The logarithm of a u64 with 8 fractional bits stays below 65 * 256. */
  lemma LogBound(v: u64)
    ensures Log2p1(v, 8) < 65 * 256
  {
    hide Log2p1;
    if v == 0 {
      LogOfZero(8);
    } else {
      var k, m := LogSpec(v, 8);
      assert Pow2(8) == 256 by {
        Pow2Values();
      }
      assert (k + 1) * Pow2(8) <= 64 * 256 by {
        MulBounds(k + 1, 64, 256);
      }
    }
  }

  // ----- burst penalty

  /** Arithmetic right shift of an i32 by 31: all sign bits. */
  function SignMask(d: int): int {
    d / 0x8000_0000
  }

  /** The branch-free maximum of an i32 and zero: `d & !(d >> 31)`. */
  lemma PositivePart(d: int)
    requires -0x8000_0000 <= d < 0x8000_0000
    ensures And(d, Not(SignMask(d))) == Max(d, 0)
  {
    AndZero(d);
    AndOnes(d);
  }

  /** The branch-free minimum of an i32 and zero: `d & (d >> 31)`. */
  lemma NegativePart(d: int)
    requires -0x8000_0000 <= d < 0x8000_0000
    ensures And(d, SignMask(d)) == Min(d, 0)
  {
    AndZero(d);
    AndOnes(d);
  }

  /** The penalty as the code computes it, with every wrap-around of u32 written out. */
  function CalcPenalty(burst: u64, p: Params): u32 {
    var greed := Log2p1(burst, 8);
    var tolerance := p.offset * 256;
    var diff := AsI32((greed - tolerance) % U32);
    var penalty := And(diff, Not(SignMask(diff))) % U32;
    var scaled := ((penalty * p.scale) % U32) / 1024;
    var overflow := AsI32((scaled - MAX_BURST_PENALTY) % U32);
    (scaled - And(overflow, Not(SignMask(overflow)))) % U32
  }

  lemma WrapSmall(d: int)
    requires -0x8000_0000 <= d < 0x8000_0000
    ensures AsI32(d % U32) == d
  {
  }

  function Excess(burst: u64, p: Params): nat {
    Max(Log2p1(burst, 8) - 256 * p.offset, 0)
  }

  lemma ProductBound(x: nat, scale: nat)
    requires x <= 16640 && scale <= 4095
    ensures x * scale <= 68140800
  {
    MulBounds(x, 16640, scale);
  }

  /** The last steps: division by 1024 and the branch-free minimum. */
  lemma ClampScaled(product: nat)
    requires product <= 68140800
    ensures var scaled := (product % U32) / 1024;
      var overflow := AsI32((scaled - MAX_BURST_PENALTY) % U32);
      (scaled - And(overflow, Not(SignMask(overflow)))) % U32 == Min(product / 1024, MAX_BURST_PENALTY)
  {
    hide And;
    SmallMod(product, U32);
    var scaled := product / 1024;
    WrapSmall(scaled - MAX_BURST_PENALTY);
    PositivePart(scaled - MAX_BURST_PENALTY);
  }

  /** No step overflows: the penalty is the clamp formula over unbounded integers. */
  lemma PenaltyFormula(burst: u64, p: Params)
    ensures Excess(burst, p) == Max(Log2p1(burst, 8) - 256 * p.offset, 0) && Excess(burst, p) * p.scale < U32
    ensures CalcPenalty(burst, p) == Min(Max(Log2p1(burst, 8) - 256 * p.offset, 0) * p.scale / 1024, 10239)
  {
    hide Log2p1, And, SignMask;
    LogBound(burst);
    var diff := Log2p1(burst, 8) - 256 * p.offset;
    WrapSmall(diff);
    PositivePart(diff);
    SmallMod(Excess(burst, p), U32);
    ProductBound(Excess(burst, p), p.scale);
    ClampScaled(Excess(burst, p) * p.scale);
  }

  lemma DivMonotone(a: nat, b: nat)
    requires a <= b
    ensures a / 1024 <= b / 1024
  {
  }

  /** Longer bursts never get a smaller penalty. */
  lemma PenaltyMonotone(a: u64, b: u64, p: Params)
    requires a <= b
    ensures CalcPenalty(a, p) <= CalcPenalty(b, p) <= 10239
  {
    hide Log2p1, CalcPenalty;
    LogMonotone(a, b, 8);
    PenaltyFormula(a, p);
    PenaltyFormula(b, p);
    MulBounds(Excess(a, p), Excess(b, p), p.scale);
    DivMonotone(Excess(a, p) * p.scale, Excess(b, p) * p.scale);
  }

  lemma PenaltyOfZero(p: Params)
    ensures CalcPenalty(0, p) == 0
  {
    hide And;
    PenaltyFormula(0, p);
    LogOfZero(8);
  }

  // ----- smoothing

  /** The Rust form: a branch on growth. */
  function BinarySmooth(target: nat, current: nat, s: Smoothness): nat {
    if target > current then current + (target - current + Pow2(s) - 1) / Pow2(s) else target
  }

  /** The C form: both results computed, one selected by an all-ones or all-zeros mask. */
  function BinarySmoothMasked(target: u32, current: u32, s: Smoothness): int {
    var growing := if target > current then 1 else 0;
    var increment := ((target - current) % U32) * growing;
    var smoothed := (current + ((increment + Pow2(s) - 1) % U32) / Pow2(s)) % U32;
    Or(And(target, Not(-growing)), And(smoothed, -growing))
  }

  lemma SmoothWidth(s: Smoothness)
    ensures 1 <= Pow2(s) <= 8
  {
    Pow2Monotone(s, 3);
    assert Pow2(3) == 8;
  }

  /** The growth step: at least the 2^s-th part, rounded up, and never past the new value. */
  lemma CeilStep(gap: nat, q: nat)
    requires 1 <= q <= 8 && gap > 0
    ensures 1 <= (gap + q - 1) / q <= gap
    ensures q * (gap - (gap + q - 1) / q) <= (q - 1) * gap
    ensures gap - (gap + q - 1) / q == gap * (q - 1) / q
  {
    var c := (gap + q - 1) / q;
    if q == 1 {} else if q == 2 {} else if q == 3 {} else if q == 4 {}
    else if q == 5 {} else if q == 6 {} else if q == 7 {} else {}
  }

  /** Smoothing stays between the old and the new value and is immediate downwards. */
  lemma SmoothBounds(target: nat, current: nat, s: Smoothness)
    ensures target > current ==> current < BinarySmooth(target, current, s) <= target
    ensures target <= current ==> BinarySmooth(target, current, s) == target
  {
    hide Pow2;
    SmoothWidth(s);
    if target > current {
      CeilStep(target - current, Pow2(s));
    }
  }

  lemma OrZero(a: nat)
    ensures Or(0, a) == a && Or(a, 0) == a
  {
    AndOnes(Not(a));
    AndComm(Not(a), -1);
  }

  /** The masked and the branching form agree on every pair of 16-bit penalties. */
  lemma SmoothAgrees(target: u16, current: u16, s: Smoothness)
    ensures BinarySmoothMasked(target, current, s) == BinarySmooth(target, current, s)
  {
    hide And, Pow2;
    SmoothWidth(s);
    SmoothBounds(target, current, s);
    AndZero(target);
    AndOnes(target);
    var q := Pow2(s);
    var growing := if target > current then 1 else 0;
    var increment := ((target - current) % U32) * growing;
    assert increment == Max(target - current, 0);
    var smoothed := current + (increment + q - 1) / q;
    assert (increment + q - 1) / q <= increment + q;
    SmallMod(increment + q - 1, U32);
    SmallMod(smoothed, U32);
    AndZero(smoothed);
    AndOnes(smoothed);
    if growing == 1 {
      OrZero(smoothed);
    } else {
      OrZero(target);
    }
  }

  // ----- effective priority

  /** The Rust form, on a static priority already reduced to 0..39. */
  function EffectivePrio(offset: u8, score: u8, enabled: bool): u8 {
    Min(if enabled then offset + score else offset, MAX_PRIO)
  }

  /** The C form, with both clamps branch-free; `prio` is the static priority minus 100. */
  function EffectivePrioMasked(prio: int, score: u8, enabled: bool): int {
    var sum := if enabled then prio + score else prio;
    var low := And(sum, Not(SignMask(sum)));
    var diff := low - MAX_PRIO;
    low - And(diff, Not(SignMask(diff)))
  }

  /** The C priority is the sum clamped to 0..39, and the Rust one agrees wherever it is defined. */
  lemma EffectivePrioAgrees(prio: int, score: u8, enabled: bool)
    requires -100 <= prio < 0x100
    ensures EffectivePrioMasked(prio, score, enabled) == Min(Max(if enabled then prio + score else prio, 0), 39)
    ensures 0 <= prio ==> EffectivePrioMasked(prio, score, enabled) == EffectivePrio(prio, score, enabled)
  {
    hide And;
    var sum := if enabled then prio + score else prio;
    PositivePart(sum);
    PositivePart(Max(sum, 0) - MAX_PRIO);
  }

  // ----- reciprocal table

  /** Entry `i` of the table; entry 0 is never written and stays zero. */
  function Reciprocal(i: nat): u32
    requires i <= BURST_CACHE_SAMPLE_LIMIT
  {
    if i == 0 then 0 else ((U32 - 1 + i) / i) % U32
  }

  predicate IsLut(lut: seq<u32>) {
    |lut| == BURST_CACHE_SAMPLE_LIMIT + 1 && forall i | 0 <= i < |lut| :: lut[i] == Reciprocal(i)
  }

  lemma ReciprocalZero()
    ensures Reciprocal(0) == 0
  {
  }

  lemma ReciprocalIs(i: nat)
    requires 1 <= i <= BURST_CACHE_SAMPLE_LIMIT
    ensures Reciprocal(i) == ((U32 - 1 + i) / i) % U32
  {
  }

  /** Entry 0 is unused and the reciprocal of 1 is truncated to 0. */
  lemma ReciprocalEdges()
    ensures Reciprocal(0) == 0 && Reciprocal(1) == 0
  {
  }

  method BuildReciprocalLut() returns (lut: array<u32>)
    ensures fresh(lut) && IsLut(lut[..])
  {
    hide Reciprocal;
    lut := new u32[BURST_CACHE_SAMPLE_LIMIT + 1](i => 0);
    ReciprocalZero();
    for i := 1 to BURST_CACHE_SAMPLE_LIMIT + 1
      invariant forall j | 0 <= j < i :: lut[j] == Reciprocal(j)
    {
      ReciprocalIs(i);
      lut[i] := ((U32 - 1 + i) / i) % U32;
    }
  }

  /** The average as the Rust code computes it. */
  function AveragePenalty(total: u32, count: nat, lut: seq<u32>): u32
    requires IsLut(lut)
  {
    if count == 0 then 0
    else if count == 1 then total
    else ((total * lut[Min(count, BURST_CACHE_SAMPLE_LIMIT)]) % U64 / U32) % U32
  }

  /** Entry i is the reciprocal rounded up: i times it exceeds 2^32 by less than i. */
  lemma ReciprocalExcess(i: nat) returns (e: nat)
    requires 2 <= i <= BURST_CACHE_SAMPLE_LIMIT
    ensures i * Reciprocal(i) == U32 + e && e < i
  {
    var r := (U32 - 1 + i) / i;
    DivBounds(U32 - 1 + i, i);
    Distribute(r, 1, i);
    MulBounds(2, i, r);
    SmallMod(r, U32);
    e := i * r - U32;
  }

  lemma Expand(i: int, q: int, t: int, r: int)
    ensures (i * q + t) * r == (i * r) * q + t * r
  {
    Distribute(i * q, t, r);
  }

  lemma QuotientBound(i: nat, rest: int, x: nat, t: nat)
    requires i * rest == x + U32 * t && x < U32 && t < i
    ensures rest < U32
  {
    if rest >= U32 {
      MulBounds(U32, rest, i);
    }
  }

  lemma ScaledRest(i: nat, r: nat, e: nat, q: nat, t: nat)
    requires i * r == U32 + e
    ensures i * (q * e + t * r) == (i * q + t) * e + U32 * t
  {
    Distribute(q * e, t * r, i);
    assert i * (q * e) == (i * q) * e;
    assert i * (t * r) == t * (i * r);
    Distribute(U32, e, t);
    Distribute(i * q, t, e);
  }

  lemma QuotientSmall(total: nat, count: nat)
    requires count >= 1
    ensures total / count <= total
  {
    var q := total / count;
    assert total == count * q + total % count;
    MulGrows(q, count);
  }

  /** What multiplying by a rounded-up reciprocal leaves besides the quotient. */
  lemma Decompose(total: nat, i: nat, r: nat, e: nat, q: nat, t: nat)
    requires i * r == U32 + e && total == i * q + t
    ensures total * r == U32 * q + (q * e + t * r)
    ensures i * (q * e + t * r) == total * e + U32 * t
  {
    Expand(i, q, t, r);
    Distribute(U32, e, q);
    ScaledRest(i, r, e, q, t);
  }

  lemma SmallProduct(total: nat, e: nat) returns (x: nat)
    requires e <= 62
    ensures x == total * e && x <= 62 * total
  {
    MulBounds(e, 62, total);
    x := total * e;
  }

  lemma DivMod(w: nat, d: nat) returns (q: nat, t: nat)
    requires d > 0
    ensures w == d * q + t && t < d && q == w / d
  {
    q, t := w / d, w % d;
  }

  lemma RestBound(total: nat, i: nat, rest: nat, e: nat, t: nat)
    requires 2 <= i <= 63 && e < i && t < i && total * 62 < U32 && i * rest == total * e + U32 * t
    ensures rest < U32
  {
    var x := SmallProduct(total, e);
    QuotientBound(i, rest, x, t);
  }

  lemma ProductNat(a: nat, b: nat, c: nat, d: nat) returns (sum: nat)
    ensures sum == a * b + c * d
  {
    sum := a * b + c * d;
  }

  /** Multiplying by the reciprocal divides exactly, without overflow. */
  lemma ReciprocalDivides(total: nat, i: nat)
    requires 2 <= i <= BURST_CACHE_SAMPLE_LIMIT && total * 62 < U32
    ensures total * Reciprocal(i) < U64 && (total * Reciprocal(i)) / U32 == total / i
  {
    hide Reciprocal;
    var r := Reciprocal(i);
    var q, t := DivMod(total, i);
    var e := ReciprocalExcess(i);
    Decompose(total, i, r, e, q, t);
    var rest := ProductNat(q, e, t, r);
    RestBound(total, i, rest, e, t);
    DivModUnique(total * r, U32, q, rest);
    QuotientSmall(total, i);
    assert U32 * q + rest < U64;
  }

  lemma TableDivides(total: u32, n: nat)
    requires 2 <= n <= BURST_CACHE_SAMPLE_LIMIT && total * 62 < U32
    ensures ((total * Reciprocal(n)) % U64 / U32) % U32 == total / n
  {
    hide Reciprocal;
    ReciprocalDivides(total, n);
    QuotientSmall(total, n);
    SmallMod(total * Reciprocal(n), U64);
    SmallMod(total / n, U32);
  }

  /** The table average is the integer quotient; counts above 63 divide by 63, and no samples yield 0. */
  lemma AverageExact(total: u32, count: nat, lut: seq<u32>)
    requires IsLut(lut) && total * 62 < U32
    ensures AveragePenalty(total, count, lut) == if count == 0 then 0 else total / Min(count, 63)
  {
    hide Reciprocal;
    if count > 1 {
      var n := Min(count, BURST_CACHE_SAMPLE_LIMIT);
      assert lut[n] == Reciprocal(n);
      TableDivides(total, n);
    }
  }
}
