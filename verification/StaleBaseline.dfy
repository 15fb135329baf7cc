/**
 What the scrubber does to a legitimate write that its baseline does not know: the word is
 `Xor(old, delta)` while the code still belongs to `old`.
 */
module StaleBaseline {
  import opened Bitwise
  import opened SoftEcc
  import opened Secded
  import opened Scrub

  function StaleUnit(before: u64, delta: u64): Unit {
    XorWidth(before, delta);
    Unit(Xor(before, delta), Encode(before))
  }

  predicate IsDataPosition(pos: nat) {
    1 <= pos <= POSITIONS && !IsParityPos(pos)
  }

  /** The written bits are the error, and the verifier sees them alone. */
  lemma StaleSyndrome(before: u64, delta: u64)
    ensures ErrorOf(StaleUnit(before, delta), before) == Unit(delta, 0)
    ensures Syndrome(delta, 0) == DataSyndrome(delta) && OddTotal(delta, 0) == Odd(delta)
    ensures var u := StaleUnit(before, delta);
      Syndrome(u.data, u.code) == DataSyndrome(delta) && OddTotal(u.data, u.code) == Odd(delta)
  {
    hide Encode, DataSyndrome;
    XorComm(before, delta);
    XorCancel(delta, before);
    XorSelf(Encode(before));
    assert Low7(0) == 0;
    XorUnit(DataSyndrome(delta));
    ErrorSyndrome(StaleUnit(before, delta), before);
  }

  /**
   The status of a stale unit, for every write. An even number of changed bits is reported as
   uncorrectable unless their positions cancel; an odd number goes down the correction path
   unless their positions combine to an impossible one.
   */
  lemma StaleStatus(before: u64, delta: u64)
    ensures !Odd(delta) ==> Status(StaleUnit(before, delta)) == (if DataSyndrome(delta) == 0 then 0 else -1)
    ensures Odd(delta) ==> Status(StaleUnit(before, delta)) == (if DataSyndrome(delta) <= POSITIONS then 1 else -1)
  {
    hide VerifyUnit, Syndrome, OddTotal, ErrorOf;
    StaleSyndrome(before, delta);
    StatusByError(StaleUnit(before, delta), before);
  }

  /**
   The pass writes the stale value back exactly when at most one bit was written, and it keeps
   the new value exactly when the written bits do not look like a single data bit.
   */
  lemma StaleWrite(before: u64, delta: u64)
    ensures var u := StaleUnit(before, delta);
      && (ScrubUnit(u).data == before <==> CountOnes(delta) <= 1)
      && (ScrubUnit(u).data == u.data <==> !(Odd(delta) && IsDataPosition(DataSyndrome(delta))))
  {
    var u := StaleUnit(before, delta);
    StaleSyndrome(before, delta);
    XorComm(before, delta);
    XorCancel(delta, before);
    XorSelf(u.code);
    CorrectedIff(u, before);
    CountZero(delta);
    XorZero(u.data, before);
    var pos := DataSyndrome(delta);
    if Odd(delta) && IsDataPosition(pos) {
      DataPosition(pos);
      XorCancel(u.data, Pow2(DataBitIndex(pos)));
      XorZero(u.data, Xor(u.data, Pow2(DataBitIndex(pos))));
    }
  }

  lemma FlipCodeword(before: u64, bit: nat)
    requires bit < 64 && Pow2(bit) < U64
    ensures StaleUnit(before, Pow2(bit)) == Flip(Codeword(before), bit)
  {
  }

  /** A one-bit legitimate write under a stale baseline is always undone. */
  lemma OneBitWriteReverted(before: u64, bit: nat)
    requires bit < 64 && Pow2(bit) < U64
    ensures ScrubUnit(StaleUnit(before, Pow2(bit))) == Codeword(before)
  {
    FlipCodeword(before, bit);
    SingleFlip(before, bit);
  }

  lemma SmallPowers()
    ensures Pow2(0) == 1 && Pow2(1) == 2 && Pow2(2) == 4 && Pow2(4) == 16 && Pow2(10) == 1024
  {
  }

  lemma SmallSyndromes()
    ensures DataSyndrome(1) == 3 && DataSyndrome(2) == 5 && DataSyndrome(4) == 6
    ensures DataSyndrome(16) == 9 && DataSyndrome(1024) == 15
  {
    hide DataSyndrome, Pow2;
    SmallPowers();
    SyndromeOfPower(0);
    SyndromeOfPower(1);
    SyndromeOfPower(2);
    SyndromeOfPower(4);
    SyndromeOfPower(10);
  }

  lemma FourBitSums()
    ensures Xor(1, 2) == 3 && Xor(3, 16) == 19 && Xor(19, 1024) == 1043
    ensures Xor(3, 5) == 6 && Xor(6, 9) == 15
  {
    assert Xor(1, 2) == 3 && Xor(0, 4) == 4 && Xor(0, 64) == 64 && Xor(1, 1) == 0;
    hide Xor;
    XorStep(3, 16);
    XorStep(1, 8);
    XorStep(19, 1024);
    XorStep(9, 512);
    XorStep(4, 256);
    XorStep(2, 128);
    XorStep(1, 64);
    XorUnit(32);
    XorStep(3, 5);
    XorStep(6, 9);
    XorStep(3, 4);
  }

  lemma FourBitSyndrome()
    ensures DataSyndrome(1043) == 0
  {
    hide DataSyndrome, Xor;
    FourBitSums();
    SmallSyndromes();
    SyndromeLinear(1, 2);
    SyndromeLinear(3, 16);
    SyndromeLinear(19, 1024);
    XorSelf(15);
  }

  lemma FourBits()
    ensures CountOnes(1043) == 4 && !Odd(1043) && DataSyndrome(1043) == 0
  {
    hide DataSyndrome, Odd;
    FourBitSyndrome();
    OddIsCount(1043);
  }

  /** A four-bit write whose positions 3, 5, 9 and 15 cancel: accepted as clean. */
  lemma EvenWriteUnseen(before: u64)
    ensures CountOnes(1043) == 4 && Status(StaleUnit(before, 1043)) == 0
  {
    hide DataSyndrome, CountOnes, Odd, Status, StaleUnit;
    FourBits();
    StaleStatus(before, 1043);
  }

  lemma ThreeBits()
    ensures CountOnes(7) == 3 && Odd(7) && DataSyndrome(7) == 0
  {
    assert CountOnes(7) == 3 && Odd(7) && Xor(1, 2) == 3 && Xor(3, 4) == 7 && Xor(3, 5) == 6;
    hide DataSyndrome, Xor, CountOnes, Odd;
    SmallSyndromes();
    SyndromeLinear(1, 2);
    SyndromeLinear(3, 4);
    XorSelf(6);
  }

  /**
   A three-bit write whose positions 3, 5 and 6 cancel: reported as corrected, and the new value
   stays.
   */
  lemma OddWriteKept(before: u64)
    ensures var u := StaleUnit(before, 7);
      CountOnes(7) == 3 && Status(u) == 1 && ScrubUnit(u).data == u.data
  {
    hide ScrubUnit, Status, StaleUnit, CountOnes, Odd, DataSyndrome;
    ThreeBits();
    StaleStatus(before, 7);
    StaleWrite(before, 7);
  }

  lemma {:induction false} BitOfZero(i: nat)
    ensures !Bit(0, i)
    decreases i
  {
    if i == 0 {
    } else {
      BitOfZero(i - 1);
    }
  }

  lemma ThreeOnes(i: nat, j: nat, k: nat)
    requires i < j < k
    ensures CountOnes(Xor(Xor(Pow2(i), Pow2(j)), Pow2(k))) == 3
  {
    hide Pow2, Xor, CountOnes, Bit;
    XorUnit(Pow2(i));
    CountZero(0);
    CountFlip(0, i);
    BitOfZero(i);
    CountFlip(Pow2(i), j);
    BitOfPower(i, j);
    CountFlip(Xor(Pow2(i), Pow2(j)), k);
    BitXor(Pow2(i), Pow2(j), k);
    BitOfPower(i, k);
    BitOfPower(j, k);
  }

  /** A write of three data bits, as a word. */
  lemma ThreeBitWrite(i: nat, j: nat, k: nat) returns (delta: u64)
    requires i < j < k < 64
    ensures CountOnes(delta) == 3 && Odd(delta)
    ensures DataSyndrome(delta) == Xor(Xor(PositionOf(i), PositionOf(j)), PositionOf(k))
  {
    hide DataSyndrome, Pow2, Xor, Odd, PositionOf;
    var a, b, c := Pow2(i), Pow2(j), Pow2(k);
    Pow2Values();
    Pow2Small(i, 64);
    Pow2Small(j, 64);
    Pow2Small(k, 64);
    XorWidth(a, b);
    XorWidth(Xor(a, b), c);
    delta := Xor(Xor(a, b), c);
    ThreeOnes(i, j, k);
    OddIsCount(delta);
    SyndromeOfPower(i);
    SyndromeOfPower(j);
    SyndromeOfPower(k);
    SyndromeLinear(a, b);
    SyndromeLinear(Xor(a, b), c);
  }

  /** The status of every three-bit write, by the positions of its bits. */
  lemma ThreeBitStatus(before: u64, i: nat, j: nat, k: nat) returns (delta: u64)
    requires i < j < k < 64
    ensures CountOnes(delta) == 3
    ensures Status(StaleUnit(before, delta)) ==
            if Xor(Xor(PositionOf(i), PositionOf(j)), PositionOf(k)) <= POSITIONS then 1 else -1
  {
    hide DataSyndrome, StaleUnit, Status, Xor, Odd, CountOnes, PositionOf;
    delta := ThreeBitWrite(i, j, k);
    StaleStatus(before, delta);
  }

  lemma FarPositions()
    ensures Xor(Xor(3, 33), 65) == 99
  {
    assert Xor(1, 16) == 17 && Xor(4, 8) == 12 && Xor(2, 4) == 6;
    hide Xor;
    XorStep(3, 33);
    XorStep(34, 65);
    XorStep(17, 32);
    XorStep(8, 16);
    XorStep(4, 8);
  }

  /** A write of data bits 0, 26 and 57: positions 3, 33 and 65 combine to 99, reported as uncorrectable. */
  lemma OddWriteUncorrectable(before: u64) returns (delta: u64)
    ensures CountOnes(delta) == 3 && Status(StaleUnit(before, delta)) == -1
  {
    hide StaleUnit, Status, Xor, CountOnes;
    delta := ThreeBitStatus(before, 0, 26, 57);
    FarPositions();
  }
}
