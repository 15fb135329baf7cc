/** What the codec is for: single error correction, double error detection, on every word. */
module Secded {
  import opened Bitwise
  import opened SoftEcc

  /** The number of stored bits in which two units differ. */
  function Distance(u: Unit, v: Unit): nat {
    CountOnes(Xor(u.data, v.data)) + CountOnes(Xor(u.code, v.code))
  }

  function Codeword(word: u64): Unit {
    Unit(word, Encode(word))
  }

  function VerifyUnit(u: Unit): ScrubOutcome {
    Verify(u.data, u.code)
  }

  // ----- codewords are the units with zero syndrome and even parity

  lemma ByteCases(a: u8, low: nat)
    requires low == a % 0x80
    ensures a == low || a == low + 0x80
  {
  }

  lemma CodeByParity(a: u8, b: u8)
    ensures a == b <==> Low7(a) == Low7(b) && Odd(a) == Odd(b)
  {
    ByteCases(a, Low7(a));
    ByteCases(b, Low7(b));
    SetTop(Low7(a));
  }

  lemma CodewordIff(u: Unit)
    ensures u == Codeword(u.data) <==> Syndrome(u.data, u.code) == 0 && !OddTotal(u.data, u.code)
  {
    EncodeLow(u.data);
    EncodeEven(u.data);
    XorZero(DataSyndrome(u.data), Low7(u.code));
    CodeByParity(u.code, Encode(u.data));
  }

  // ----- flips and distance

  lemma FlipTwice(u: Unit, e: nat)
    requires e < 72
    ensures Flip(Flip(u, e), e) == u
  {
    if e < 64 {
      XorCancel(u.data, Pow2(e));
    } else {
      XorCancel(u.code, Pow2(e - 64));
    }
  }

  lemma XorRotate(a: nat, p: nat, b: nat)
    ensures Xor(Xor(a, p), b) == Xor(Xor(a, b), p)
  {
    XorAssoc(a, p, b);
    XorComm(p, b);
    XorAssoc(a, b, p);
  }

  /** A flip moves the distance to any other unit by exactly one. */
  lemma FlipDistance(u: Unit, e: nat, v: Unit)
    requires e < 72
    ensures Distance(Flip(u, e), v) == Distance(u, v) + 1 || Distance(Flip(u, e), v) == Distance(u, v) - 1
  {
    if e < 64 {
      XorRotate(u.data, Pow2(e), v.data);
      CountFlip(Xor(u.data, v.data), e);
    } else {
      XorRotate(u.code, Pow2(e - 64), v.code);
      CountFlip(Xor(u.code, v.code), e - 64);
    }
  }

  lemma DistanceZero(u: Unit, v: Unit)
    ensures Distance(u, v) == 0 <==> u == v
  {
    CountZero(Xor(u.data, v.data));
    CountZero(Xor(u.code, v.code));
    XorZero(u.data, v.data);
    XorZero(u.code, v.code);
  }

  lemma DifferingBit(a: nat, b: nat, n: nat) returns (i: nat)
    requires a != b && ((a < U64 && b < U64 && n == 64) || (a < 0x100 && b < 0x100 && n == 8))
    ensures i < n && CountOnes(Xor(Xor(a, b), Pow2(i))) == CountOnes(Xor(a, b)) - 1
  {
    XorZero(a, b);
    XorWidth(a, b);
    assert Xor(a, b) < Pow2(n) by {
      Pow2Values();
    }
    i := SomeBit(Xor(a, b), n);
    CountFlip(Xor(a, b), i);
  }

  /** Units that differ can be brought one bit closer by a flip. */
  lemma Closer(u: Unit, v: Unit) returns (e: nat)
    requires u != v
    ensures e < 72 && Distance(Flip(u, e), v) == Distance(u, v) - 1
  {
    hide CountOnes, Xor;
    if u.data != v.data {
      e := DifferingBit(u.data, v.data, 64);
      XorRotate(u.data, Pow2(e), v.data);
    } else {
      var j := DifferingBit(u.code, v.code, 8);
      e := 64 + j;
      XorRotate(u.code, Pow2(j), v.code);
    }
  }

  /** Distance one is a single flip. */
  lemma Neighbour(u: Unit, v: Unit) returns (e: nat)
    requires Distance(u, v) == 1
    ensures e < 72 && v == Flip(u, e)
  {
    DistanceZero(u, v);
    e := Closer(u, v);
    DistanceZero(Flip(u, e), v);
  }

  // ----- verification of flipped codewords

  /** Every one of the 72 single flips of a codeword decodes to the original word. */
  lemma SingleFlip(word: u64, e: nat)
    requires e < 72
    ensures VerifyUnit(Flip(Codeword(word), e)) == Corrected(word)
  {
    var u := Codeword(word);
    CodewordIff(u);
    SyndromeFlip(u, e);
    if e < 64 {
      PositionIndex(e);
      XorCancel(word, Pow2(e));
    } else {
      PowPositions(e);
    }
  }

  /** Any two distinct flips of a codeword are reported as uncorrectable. */
  lemma DoubleFlip(word: u64, e: nat, f: nat)
    requires e < 72 && f < 72 && e != f
    ensures VerifyUnit(Flip(Flip(Codeword(word), e), f)) == Uncorrectable
  {
    var u := Codeword(word);
    CodewordIff(u);
    SyndromeFlip(u, e);
    SyndromeFlip(Flip(u, e), f);
    XorZero(Position(e), Position(f));
    if Position(e) == Position(f) {
      PositionInjective(e, f);
    }
  }

  /** No three flips of a codeword go unnoticed. */
  lemma TripleFlip(word: u64, e: nat, f: nat, g: nat)
    requires e < 72 && f < 72 && g < 72
    ensures VerifyUnit(Flip(Flip(Flip(Codeword(word), e), f), g)) != Clean
  {
    var u := Codeword(word);
    CodewordIff(u);
    SyndromeFlip(u, e);
    SyndromeFlip(Flip(u, e), f);
    SyndromeFlip(Flip(Flip(u, e), f), g);
  }

  lemma ParityBit(pos: nat) returns (e: nat)
    requires 1 <= pos <= POSITIONS && IsParityPos(pos)
    ensures 64 <= e < 71 && Position(e) == pos
  {
    ParityPositions(pos);
    e := 64 + (if pos == 1 then 0 else if pos == 2 then 1 else if pos == 4 then 2 else if pos == 8 then 3
               else if pos == 16 then 4 else if pos == 32 then 5 else 6);
    assert Pow2(e - 64) == pos;
  }

  /** The bit a correction undoes. */
  lemma CorrectedBit(u: Unit) returns (e: nat)
    requires VerifyUnit(u).Corrected?
    ensures e < 72 && u == Flip(Codeword(VerifyUnit(u).word), e)
  {
    var pos := Syndrome(u.data, u.code);
    if pos == 0 {
      e := 71;
    } else if IsParityPos(pos) {
      e := ParityBit(pos);
    } else {
      DataPosition(pos);
      e := DataBitIndex(pos);
    }
    SyndromeFlip(u, e);
    XorSelf(pos);
    CodewordIff(Flip(u, e));
    FlipTwice(u, e);
  }

  // ----- the decoder is exact

  /** Corrected(word) is answered exactly at distance one from the codeword of `word`. */
  lemma CorrectedIff(u: Unit, word: u64)
    ensures VerifyUnit(u) == Corrected(word) <==> Distance(u, Codeword(word)) == 1
  {
    if VerifyUnit(u) == Corrected(word) {
      var e := CorrectedBit(u);
      FlipDistance(Codeword(word), e, Codeword(word));
      DistanceZero(Codeword(word), Codeword(word));
    }
    if Distance(u, Codeword(word)) == 1 {
      var e := Neighbour(u, Codeword(word));
      FlipTwice(u, e);
      SingleFlip(word, e);
    }
  }

  lemma CleanIff(u: Unit)
    ensures VerifyUnit(u) == Clean <==> u.code == Encode(u.data)
    ensures VerifyUnit(u) == Clean <==> exists word: u64 :: Distance(u, Codeword(word)) == 0
  {
    CodewordIff(u);
    DistanceZero(u, Codeword(u.data));
    forall word: u64 | Distance(u, Codeword(word)) == 0
      ensures u.code == Encode(u.data)
    {
      DistanceZero(u, Codeword(word));
    }
  }

  /** `Verify` is exactly the bounded-distance decoder of the code. */
  lemma VerifyIsDecoder(u: Unit)
    ensures VerifyUnit(u) == Clean <==> exists word: u64 :: Distance(u, Codeword(word)) == 0
    ensures forall word: u64 :: VerifyUnit(u) == Corrected(word) <==> Distance(u, Codeword(word)) == 1
    ensures VerifyUnit(u) == Uncorrectable <==> forall word: u64 :: Distance(u, Codeword(word)) >= 2
  {
    CleanIff(u);
    forall word: u64
      ensures VerifyUnit(u) == Corrected(word) <==> Distance(u, Codeword(word)) == 1
    {
      CorrectedIff(u, word);
    }
    if VerifyUnit(u).Corrected? {
      var word := VerifyUnit(u).word;
      assert Distance(u, Codeword(word)) == 1;
    }
  }

  /** Distinct codewords differ in at least four stored bits. */
  lemma MinimumDistance(x: u64, y: u64)
    requires x != y
    ensures Distance(Codeword(x), Codeword(y)) >= 4
  {
    var u, v := Codeword(x), Codeword(y);
    CodewordIff(u);
    CodewordIff(v);
    var e := Closer(u, v);
    SingleFlip(x, e);
    CorrectedIff(Flip(u, e), y);
    DistanceZero(Flip(u, e), v);
    if Distance(u, v) == 3 {
      var f := Closer(Flip(u, e), v);
      var g := Neighbour(Flip(Flip(u, e), f), v);
      TripleFlip(x, e, f, g);
    }
  }

  // ----- beyond the design: every error pattern

  /** The stored bits in which a unit differs from the codeword of `word`. */
  function ErrorOf(u: Unit, word: u64): Unit {
    XorWidth(u.data, word);
    XorWidth(u.code, Encode(word));
    Unit(Xor(u.data, word), Xor(u.code, Encode(word)))
  }

  /** The verifier sees the error alone, whatever word was stored. */
  lemma ErrorSyndrome(u: Unit, word: u64)
    ensures var d := ErrorOf(u, word);
      && Syndrome(u.data, u.code) == Syndrome(d.data, d.code)
      && OddTotal(u.data, u.code) == OddTotal(d.data, d.code)
  {
    hide DataSyndrome, Low7, Encode, Xor, Odd;
    var code := Encode(word);
    var s, t, l := DataSyndrome(u.data), DataSyndrome(word), Low7(u.code);
    XorWidth(u.data, word);
    SyndromeLinear(u.data, word);
    XorMod(u.code, code, 7);
    Pow2Values();
    EncodeLow(word);
    XorSwap(s, t, l, t);
    XorSelf(t);
    XorUnit(Xor(s, l));
    OddXor(u.data, word);
    OddXor(u.code, code);
    EncodeEven(word);
  }

  /** The status of every unit relative to every word it may have held. */
  lemma StatusByError(u: Unit, word: u64)
    ensures var d, status := ErrorOf(u, word), StatusCode(VerifyUnit(u));
      var pos, odd := Syndrome(d.data, d.code), OddTotal(d.data, d.code);
      && (status == 0 <==> !odd && pos == 0)
      && (status == 1 <==> odd && pos <= POSITIONS)
      && (status == -1 <==> if odd then pos > POSITIONS else pos != 0)
  {
    hide Syndrome, OddTotal, ErrorOf;
    ErrorSyndrome(u, word);
  }

  lemma ErrorOfFlip(u: Unit, e: nat, word: u64)
    requires e < 72
    ensures ErrorOf(Flip(u, e), word) == Flip(ErrorOf(u, word), e)
  {
    hide Xor, Pow2, Encode;
    if e < 64 {
      XorRotate(u.data, Pow2(e), word);
    } else {
      XorRotate(u.code, Pow2(e - 64), Encode(word));
    }
  }

  lemma ErrorOfCodeword(word: u64)
    ensures ErrorOf(Codeword(word), word) == Unit(0, 0)
  {
    hide Xor, Encode;
    XorSelf(word);
    XorSelf(Encode(word));
  }

  predicate UnitBit(u: Unit, e: nat)
    requires e < 72
  {
    if e < 64 then Bit(u.data, e) else Bit(u.code, e - 64)
  }

  /** A flip changes its own bit and no other. */
  lemma FlipBit(u: Unit, e: nat, f: nat)
    requires e < 72 && f < 72
    ensures UnitBit(Flip(u, e), f) == (UnitBit(u, f) != (e == f))
  {
    if e < 64 && f < 64 {
      BitXor(u.data, Pow2(e), f);
      BitOfPower(e, f);
    } else if e >= 64 && f >= 64 {
      BitXor(u.code, Pow2(e - 64), f - 64);
      BitOfPower(e - 64, f - 64);
    }
  }

  /** Three flips as an error pattern. */
  lemma ThreeFlips(e: nat, f: nat, g: nat)
    requires e < 72 && f < 72 && g < 72
    ensures var d := Flip(Flip(Flip(Unit(0, 0), e), f), g);
      && Syndrome(d.data, d.code) == Xor(Xor(Position(e), Position(f)), Position(g))
      && OddTotal(d.data, d.code)
  {
    var none := Unit(0, 0);
    EncodeLow(0);
    assert Syndrome(0, 0) == 0 by {
      SyndromeLinear(0, 0);
      XorSelf(DataSyndrome(0));
    }
    hide Flip, Position, Syndrome, Xor;
    XorUnit(Position(e));
    SyndromeFlip(none, e);
    SyndromeFlip(Flip(none, e), f);
    SyndromeFlip(Flip(Flip(none, e), f), g);
  }

  lemma ThreeFlipsOfCodeword(word: u64, e: nat, f: nat, g: nat)
    requires e < 72 && f < 72 && g < 72
    ensures ErrorOf(Flip(Flip(Flip(Codeword(word), e), f), g), word) == Flip(Flip(Flip(Unit(0, 0), e), f), g)
  {
    hide Flip, ErrorOf, Codeword;
    var u := Codeword(word);
    ErrorOfCodeword(word);
    ErrorOfFlip(u, e, word);
    ErrorOfFlip(Flip(u, e), f, word);
    ErrorOfFlip(Flip(Flip(u, e), f), g, word);
  }

  /**
   The fate of every three distinct flips: the original word is never given back, and the loss is
   reported exactly when the three positions combine to an impossible one.
   */
  lemma TripleFlipOutcome(word: u64, e: nat, f: nat, g: nat)
    requires e < 72 && f < 72 && g < 72 && e != f && f != g && e != g
    ensures var outcome := VerifyUnit(Flip(Flip(Flip(Codeword(word), e), f), g));
      && outcome != Clean && outcome != Corrected(word)
      && (outcome == Uncorrectable <==> Xor(Xor(Position(e), Position(f)), Position(g)) > POSITIONS)
  {
    hide Flip, Position, Codeword, ErrorOf, Syndrome, OddTotal, VerifyUnit;
    var u := Codeword(word);
    var v := Flip(Flip(Flip(u, e), f), g);
    ThreeFlips(e, f, g);
    ThreeFlipsOfCodeword(word, e, f, g);
    StatusByError(v, word);
    if VerifyUnit(v) == Corrected(word) {
      var h := CorrectedBit(v);
      var other := if h == e then f else e;
      FlipBit(u, h, other);
      FlipBit(u, e, other);
      FlipBit(Flip(u, e), f, other);
      FlipBit(Flip(Flip(u, e), f), g, other);
    }
  }

  /** Data bits 0, 1 and 2 together look like a flip of the overall parity bit: the wrong word is kept. */
  lemma TripleFlipKept(word: u64)
    ensures var v := Flip(Flip(Flip(Codeword(word), 0), 1), 2);
      VerifyUnit(v) == Corrected(v.data) && v.data != word
  {
    hide Flip, Codeword, ErrorOf, Syndrome, OddTotal;
    var v := Flip(Flip(Flip(Codeword(word), 0), 1), 2);
    assert Xor(Xor(3, 5), 6) == 0 by {
      assert Xor(3, 5) == 6;
      XorSelf(6);
    }
    ThreeFlips(0, 1, 2);
    ThreeFlipsOfCodeword(word, 0, 1, 2);
    ErrorSyndrome(v, word);
    TripleFlipOutcome(word, 0, 1, 2);
  }
}
