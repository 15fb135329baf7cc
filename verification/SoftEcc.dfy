/**
 The Hamming(72,64) SECDED codec: one 64-bit word protected by an 8-bit code.

 Positions 1..71 carry seven parity bits (at the powers of two) and the 64 data bits; bit 7 of
 the code is an overall parity bit.
 */
module SoftEcc {
  import opened Bitwise

  const POSITIONS: nat := 71

  datatype ScrubOutcome = Clean | Corrected(word: u64) | Uncorrectable

  /** A protected unit: 72 stored bits. */
  datatype Unit = Unit(data: u64, code: u8)

  predicate IsParityPos(pos: nat)
    requires pos >= 1
  {
    And(pos, pos - 1) == 0
  }

  /** Exclusive or of the positions from `pos` on whose data bit, counted from `bit`, is set. */
  function SyndromeFrom(data: u64, pos: nat, bit: nat): nat
    requires 1 <= pos <= POSITIONS + 1
    decreases POSITIONS + 1 - pos, data  // the second component keeps literal positions from being unrolled
  {
    if pos > POSITIONS then 0
    else if IsParityPos(pos) then SyndromeFrom(data, pos + 1, bit)
    else Xor(if Bit(data, bit) then pos else 0, SyndromeFrom(data, pos + 1, bit + 1))
  }

  function DataSyndrome(data: u64): nat {
    SyndromeFrom(data, 1, 0)
  }

  /** The number of data positions below `pos`. */
  function DataBitIndex(pos: nat): nat {
    if pos <= 1 then 0
    else DataBitIndex(pos - 1) + (if IsParityPos(pos - 1) then 0 else 1)
  }

  /** True iff word and code together have an odd number of set bits. */
  predicate OddTotal(data: u64, code: u8) {
    Odd(data) != Odd(code)
  }

  lemma Low7Mask(code: nat)
    ensures And(code, 0x7f) == code % 0x80
  {
    AndLowMask(code, 7);
    Pow2Values();
  }

  /** The positional parity bits of a code byte. */
  function Low7(code: nat): (low: nat)
    ensures low == code % 0x80
  {
    hide And;
    Low7Mask(code);
    And(code, 0x7f)
  }

  /** A 7-bit code with the overall parity bit set. */
  function WithTop(code: nat): (full: u8)
    requires code < 0x80
    ensures full % 0x80 == code && Odd(full) == !Odd(code)
  {
    hide And, Or, Odd;
    SetTop(code);
    Or(code, 0x80)
  }

  function Encode(data: u64): u8 {
    var code := Low7(DataSyndrome(data));
    if OddTotal(data, code) then WithTop(code) else code
  }

  function Syndrome(data: u64, code: u8): nat {
    Xor(DataSyndrome(data), Low7(code))
  }

  /** The position of data bit `i`: the non-powers of two in increasing order. */
  function PositionOf(i: nat): nat
  {
    i + (if i < 1 then 3 else if i < 4 then 4 else if i < 11 then 5
         else if i < 26 then 6 else if i < 57 then 7 else 8)
  }

  lemma {:induction false} AndSame(a: nat)
    ensures And(a, a) == a
  {
    hide And;
    AndStep(a, a);
    if a == 0 {
      AndZero(a);
    } else {
      AndSame(a / 2);
    }
  }

  lemma ParityHalf(pos: nat)
    requires pos >= 1
    ensures IsParityPos(pos) <==> pos == 1 || (pos % 2 == 0 && IsParityPos(pos / 2))
  {
    if pos % 2 == 1 {
      AndSame(pos / 2);
    }
  }

  /** The parity positions are exactly the powers of two. */
  lemma {:induction false} ParityPositions(pos: nat)
    requires 1 <= pos < 128
    ensures IsParityPos(pos) <==> pos in {1, 2, 4, 8, 16, 32, 64}
  {
    ParityHalf(pos);
    if pos <= 1 {
    } else {
      ParityPositions(pos / 2);
    }
  }

  /** The closed form of `DataBitIndex`. */
  function IndexBelow(pos: nat): int
  {
    pos - 1 - (if pos > 64 then 7 else if pos > 32 then 6 else if pos > 16 then 5
               else if pos > 8 then 4 else if pos > 4 then 3 else if pos > 2 then 2
               else if pos > 1 then 1 else 0)
  }

  lemma {:induction false} IndexClosed(pos: nat)
    requires 1 <= pos <= 72
    ensures DataBitIndex(pos) == IndexBelow(pos)
  {
    if pos <= 1 {
    } else {
      IndexClosed(pos - 1);
      ParityPositions(pos - 1);
    }
  }

  /** `DataBitIndex` maps every data position to a data bit, and inverts `PositionOf`. */
  lemma DataPosition(pos: nat)
    requires 1 <= pos <= POSITIONS && !IsParityPos(pos)
    ensures DataBitIndex(pos) < 64 && PositionOf(DataBitIndex(pos)) == pos
    ensures Pow2(DataBitIndex(pos)) < U64
  {
    ParityPositions(pos);
    IndexClosed(pos);
    Pow2Small(DataBitIndex(pos), 64);
    Pow2Values();
  }

  function Verify(data: u64, code: u8): ScrubOutcome {
    var pos := Syndrome(data, code);
    var parityOk := !OddTotal(data, code);
    if pos == 0 then
      if parityOk then Clean else Corrected(data)
    else if parityOk then Uncorrectable
    else if pos > POSITIONS then Uncorrectable
    else if IsParityPos(pos) then Corrected(data)
    else
      DataPosition(pos);
      XorWidth(data, Pow2(DataBitIndex(pos)));
      Corrected(Xor(data, Pow2(DataBitIndex(pos))))
  }

  /** The status of an outcome: 0 clean, 1 corrected, -1 uncorrectable. */
  function StatusCode(outcome: ScrubOutcome): int {
    match outcome
    case Clean => 0
    case Corrected(_) => 1
    case Uncorrectable => -1
  }

  // ----- positions

  lemma PositionIndex(i: nat)
    requires i < 64
    ensures 3 <= PositionOf(i) <= POSITIONS && !IsParityPos(PositionOf(i))
    ensures DataBitIndex(PositionOf(i)) == i
  {
    var pos := PositionOf(i);
    assert 3 <= pos <= POSITIONS && IndexBelow(pos) == i;
    ParityPositions(pos);
    IndexClosed(pos);
  }

  lemma {:induction false} SyndromeBound(data: u64, pos: nat, bit: nat)
    requires 1 <= pos <= POSITIONS + 1
    ensures SyndromeFrom(data, pos, bit) < 0x80
    decreases POSITIONS + 1 - pos
  {
    if pos > POSITIONS {
    } else if IsParityPos(pos) {
      SyndromeBound(data, pos + 1, bit);
    } else {
      SyndromeBound(data, pos + 1, bit + 1);
      XorWidth(if Bit(data, bit) then pos else 0, SyndromeFrom(data, pos + 1, bit + 1));
    }
  }

  // ----- linearity

  /** One turn of the syndrome loop. */
  lemma SyndromeStep(data: u64, pos: nat, bit: nat)
    requires 1 <= pos <= POSITIONS + 1
    ensures SyndromeFrom(data, pos, bit) ==
            if pos > POSITIONS then 0
            else if IsParityPos(pos) then SyndromeFrom(data, pos + 1, bit)
            else Xor(if Bit(data, bit) then pos else 0, SyndromeFrom(data, pos + 1, bit + 1))
  {
    hide Bit, Xor, IsParityPos;
  }

  lemma XorSwap(x: nat, y: nat, s: nat, t: nat)
    ensures Xor(Xor(x, y), Xor(s, t)) == Xor(Xor(x, s), Xor(y, t))
  {
    XorAssoc(x, y, Xor(s, t));
    XorAssoc(y, s, t);
    XorComm(y, s);
    XorAssoc(s, y, t);
    XorAssoc(x, s, Xor(y, t));
  }

  /** The syndrome loop is linear over exclusive or. */
  lemma {:induction false} SyndromeXor(a: u64, b: u64, pos: nat, bit: nat)
    requires 1 <= pos <= POSITIONS + 1 && Xor(a, b) < U64
    ensures SyndromeFrom(Xor(a, b), pos, bit) == Xor(SyndromeFrom(a, pos, bit), SyndromeFrom(b, pos, bit))
    decreases POSITIONS + 1 - pos
  {
    hide Bit, IsParityPos, SyndromeFrom, Xor;
    SyndromeStep(a, pos, bit);
    SyndromeStep(b, pos, bit);
    SyndromeStep(Xor(a, b), pos, bit);
    if pos > POSITIONS {
      XorUnit(0);
    } else if IsParityPos(pos) {
      SyndromeXor(a, b, pos + 1, bit);
    } else {
      SyndromeXor(a, b, pos + 1, bit + 1);
      BitXor(a, b, bit);
      var x, y := if Bit(a, bit) then pos else 0, if Bit(b, bit) then pos else 0;
      XorSelf(pos);
      XorUnit(pos);
      XorUnit(0);
      assert Xor(x, y) == if Bit(Xor(a, b), bit) then pos else 0;
      XorSwap(x, y, SyndromeFrom(a, pos + 1, bit + 1), SyndromeFrom(b, pos + 1, bit + 1));
    }
  }

  /** A single data bit contributes its own position. */
  lemma {:induction false} SyndromeOfBit(i: nat, pos: nat, bit: nat)
    requires i < 64 && 1 <= pos <= POSITIONS + 1 && bit == IndexBelow(pos) && Pow2(i) < U64
    ensures SyndromeFrom(Pow2(i), pos, bit) == if i >= bit then PositionOf(i) else 0
    decreases POSITIONS + 1 - pos
  {
    hide Pow2, Bit, IsParityPos, SyndromeFrom, Xor;
    SyndromeStep(Pow2(i), pos, bit);
    if pos > POSITIONS {
    } else {
      ParityPositions(pos);
      BitOfPower(i, bit);
      if IsParityPos(pos) {
        SyndromeOfBit(i, pos + 1, bit);
      } else {
        SyndromeOfBit(i, pos + 1, bit + 1);
        XorUnit(pos);
        XorUnit(PositionOf(i));
        XorUnit(0);
      }
    }
  }

  lemma SyndromeLinear(a: u64, b: u64)
    requires Xor(a, b) < U64
    ensures DataSyndrome(Xor(a, b)) == Xor(DataSyndrome(a), DataSyndrome(b))
  {
    SyndromeXor(a, b, 1, 0);
  }

  lemma SyndromeOfPower(i: nat)
    requires i < 64 && Pow2(i) < U64
    ensures DataSyndrome(Pow2(i)) == PositionOf(i)
  {
    SyndromeOfBit(i, 1, 0);
  }

  // ----- codewords

  lemma DataSyndromeBound(data: u64)
    ensures DataSyndrome(data) < 0x80
  {
    SyndromeBound(data, 1, 0);
  }

  lemma EncodeLow(data: u64)
    ensures DataSyndrome(data) < 0x80 && Low7(Encode(data)) == DataSyndrome(data)
  {
    hide Low7, WithTop, DataSyndrome;
    var s := DataSyndrome(data);
    DataSyndromeBound(data);
    SmallMod(s, 0x80);
    assert Low7(s) == s;
    if OddTotal(data, s) {
      assert Low7(WithTop(s)) == s;
    }
  }

  lemma EncodeEven(data: u64)
    ensures !OddTotal(data, Encode(data))
  {
  }

  // ----- flips of single stored bits

  /** Bit `e` of a unit: 0..63 the data word, 64..71 the code. */
  function Flip(u: Unit, e: nat): Unit
    requires e < 72
  {
    Pow2Values();
    if e < 64 then
      Pow2Small(e, 64);
      XorWidth(u.data, Pow2(e));
      Unit(Xor(u.data, Pow2(e)), u.code)
    else
      Pow2Small(e - 64, 8);
      XorWidth(u.code, Pow2(e - 64));
      Unit(u.data, Xor(u.code, Pow2(e - 64)))
  }

  /** What a flip of bit `e` adds to the syndrome. */
  function Position(e: nat): nat
    requires e < 72
  {
    if e < 64 then PositionOf(e) else if e < 71 then Pow2(e - 64) else 0
  }

  lemma SyndromeDataFlip(u: Unit, e: nat)
    requires e < 64
    ensures Syndrome(Flip(u, e).data, u.code) == Xor(Syndrome(u.data, u.code), Position(e))
  {
    var s, c := DataSyndrome(u.data), Low7(u.code);
    Pow2Small(e, 64);
    Pow2Values();
    XorWidth(u.data, Pow2(e));
    SyndromeLinear(u.data, Pow2(e));
    SyndromeOfPower(e);
    XorAssoc(s, Position(e), c);
    XorComm(Position(e), c);
    XorAssoc(s, c, Position(e));
  }

  lemma CodeFlipLow(code: u8, j: nat)
    requires j < 8
    ensures Low7(Xor(code, Pow2(j))) == Xor(Low7(code), if j < 7 then Pow2(j) else 0)
  {
    hide Low7, Pow2, Xor;
    var p := Pow2(j);
    Pow2Values();
    XorUnit(Low7(code));
    XorMod(code, p, 7);
    if j < 7 {
      Pow2Small(j, 7);
      SmallMod(p, 0x80);
    }
  }

  lemma SyndromeCodeFlip(u: Unit, e: nat)
    requires 64 <= e < 72
    ensures Syndrome(u.data, Flip(u, e).code) == Xor(Syndrome(u.data, u.code), Position(e))
  {
    CodeFlipLow(u.code, e - 64);
    XorAssoc(DataSyndrome(u.data), Low7(u.code), Position(e));
  }

  lemma SyndromeFlip(u: Unit, e: nat)
    requires e < 72
    ensures var v := Flip(u, e);
      && Syndrome(v.data, v.code) == Xor(Syndrome(u.data, u.code), Position(e))
      && OddTotal(v.data, v.code) != OddTotal(u.data, u.code)
  {
    if e < 64 {
      SyndromeDataFlip(u, e);
      OddXor(u.data, Pow2(e));
      OddPow2(e);
    } else {
      SyndromeCodeFlip(u, e);
      OddXor(u.code, Pow2(e - 64));
      OddPow2(e - 64);
    }
  }

  lemma {:induction false} PowIsParity(n: nat)
    ensures IsParityPos(Pow2(n))
  {
    if n == 0 {
    } else {
      PowIsParity(n - 1);
      ParityHalf(Pow2(n));
    }
  }

  lemma PowPositions(e: nat)
    requires e < 72
    ensures 64 <= e < 71 ==> 1 <= Position(e) <= 64 && IsParityPos(Position(e))
  {
    assert Pow2(6) == 64;
    hide Pow2, IsParityPos;
    if 64 <= e < 71 {
      Pow2Monotone(e - 64, 6);
      PowIsParity(e - 64);
    }
  }

  /** Distinct bits have distinct positions. */
  lemma PositionInjective(e: nat, f: nat)
    requires e < 72 && f < 72 && Position(e) == Position(f)
    ensures e == f
  {
    if e < 64 {
      PositionIndex(e);
      PowPositions(f);
    }
    if f < 64 {
      PositionIndex(f);
      PowPositions(e);
    }
    if 64 <= e < f < 71 {
      Pow2Small(e - 64, f - 64);
    }
    if 64 <= f < e < 71 {
      Pow2Small(f - 64, e - 64);
    }
  }
}
