/**
 The three implementations of the codec: the Rust crate, the Rust copy inside the kernel and the
 C fallback. Each is proved to return what the specification functions of `SoftEcc` say, so they
 agree on every input.
 */
module CodecLoops {
  import opened Bitwise
  import opened SoftEcc
  import opened Secded

  /** The result structure shared by both FFI implementations. */
  datatype SeccResult = SeccResult(status: int, data: u64)

  function FfiVerify(data: u64, code: u8): SeccResult {
    var outcome := Verify(data, code);
    SeccResult(StatusCode(outcome), if outcome.Corrected? then outcome.word else data)
  }

  /** What a caller of the FFI learns, in numbers: the status and the word for every unit. */
  lemma FfiMeaning(u: Unit)
    ensures var r := FfiVerify(u.data, u.code);
      && (r.status == 0 <==> u.code == Encode(u.data))
      && (r.status == 1 <==> exists word: u64 :: Distance(u, Codeword(word)) == 1)
      && (r.status == 1 ==> Distance(u, Codeword(r.data)) == 1)
      && (r.status == -1 <==> forall word: u64 :: Distance(u, Codeword(word)) >= 2)
      && (r.status != 1 ==> r.data == u.data)
  {
    hide Verify, Distance, Codeword;
    VerifyIsDecoder(u);
    CleanIff(u);
  }

  lemma SumParity(a: nat, b: nat)
    ensures (a + b) % 2 == 1 <==> (a % 2 == 1) != (b % 2 == 1)
  {
  }

  lemma OddTotalIsCount(data: u64, code: u8)
    ensures OddTotal(data, code) <==> (CountOnes(data) + CountOnes(code)) % 2 == 1
  {
    OddIsCount(data);
    OddIsCount(code);
    SumParity(CountOnes(data), CountOnes(code));
  }

  // ----- loops shared by all three texts

  /** The syndrome loop; every shift amount is below 64. */
  method ComputeSyndrome(data: u64) returns (syn: nat)
    ensures syn == DataSyndrome(data) && syn < 0x80
  {
    syn := 0;
    var bit := 0;
    var pos := 1;
    while pos <= POSITIONS
      invariant 1 <= pos <= POSITIONS + 1
      invariant bit == IndexBelow(pos)
      invariant Xor(syn, SyndromeFrom(data, pos, bit)) == DataSyndrome(data)
    {
      ParityPositions(pos);
      if !IsParityPos(pos) {
        assert bit < 64;
        if Bit(data, bit) {
          XorAssoc(syn, pos, SyndromeFrom(data, pos + 1, bit + 1));
          syn := Xor(syn, pos);
        }
        bit := bit + 1;
      }
      pos := pos + 1;
    }
    XorComm(syn, 0);
    DataSyndromeBound(data);
  }

  /** The position-to-bit loop. */
  method ComputeDataBitIndex(errPos: nat) returns (idx: nat)
    ensures idx == DataBitIndex(errPos)
  {
    idx := 0;
    var pos := 1;
    while pos < errPos
      invariant pos >= 1 && (pos <= errPos || pos == 1)
      invariant idx == DataBitIndex(pos)
    {
      if !IsParityPos(pos) {
        idx := idx + 1;
      }
      pos := pos + 1;
    }
  }

  method ComputeEncode(data: u64) returns (code: u8)
    ensures code == Encode(data)
  {
    hide DataSyndrome, Low7, WithTop, OddTotal, CountOnes;
    var syn := ComputeSyndrome(data);
    code := Low7(syn);
    OddTotalIsCount(data, code);
    if (CountOnes(data) + CountOnes(code)) % 2 == 1 {
      code := WithTop(code);
    }
  }

  // ----- the crate

  method CrateVerify(data: u64, code: u8) returns (outcome: ScrubOutcome)
    ensures outcome == Verify(data, code)
  {
    hide DataSyndrome, Low7, OddTotal, CountOnes, Xor, Pow2;
    var dataSyn := ComputeSyndrome(data);
    var syn := Xor(dataSyn, Low7(code));
    OddTotalIsCount(data, code);
    var parityOk := (CountOnes(data) + CountOnes(code)) % 2 == 0;
    match (syn == 0, parityOk)
    case (true, true) => outcome := Clean;
    case (true, false) => outcome := Corrected(data);
    case (false, true) => outcome := Uncorrectable;
    case (false, false) =>
      if syn > POSITIONS {
        outcome := Uncorrectable;
      } else if IsParityPos(syn) {
        outcome := Corrected(data);
      } else {
        var bit := ComputeDataBitIndex(syn);
        DataPosition(syn);
        XorWidth(data, Pow2(bit));
        outcome := Corrected(Xor(data, Pow2(bit)));
      }
  }

  method CrateFfiVerify(data: u64, code: u8) returns (r: SeccResult)
    ensures r == FfiVerify(data, code)
  {
    var outcome := CrateVerify(data, code);
    match outcome
    case Clean => r := SeccResult(0, data);
    case Corrected(fixed) => r := SeccResult(1, fixed);
    case Uncorrectable => r := SeccResult(-1, data);
  }

  // ----- the copy inside the kernel, with the index loop in line

  method KernelVerify(data: u64, code: u8) returns (r: SeccResult)
    ensures r == FfiVerify(data, code)
  {
    hide DataSyndrome, Low7, OddTotal, CountOnes, Xor, Pow2;
    var dataSyn := ComputeSyndrome(data);
    var syn := Xor(dataSyn, Low7(code));
    OddTotalIsCount(data, code);
    var parityOk := (CountOnes(data) + CountOnes(code)) % 2 == 0;
    match (syn == 0, parityOk)
    case (true, true) => r := SeccResult(0, data);
    case (true, false) => r := SeccResult(1, data);
    case (false, true) => r := SeccResult(-1, data);
    case (false, false) =>
      if syn > POSITIONS {
        r := SeccResult(-1, data);
      } else if IsParityPos(syn) {
        r := SeccResult(1, data);
      } else {
        var bit := 0;
        for pos := 1 to syn
          invariant bit == DataBitIndex(pos)
        {
          if !IsParityPos(pos) {
            bit := bit + 1;
          }
        }
        DataPosition(syn);
        XorWidth(data, Pow2(bit));
        r := SeccResult(1, Xor(data, Pow2(bit)));
      }
  }

  // ----- the C fallback: a result initialised to clean and early returns

  method FallbackVerify(data: u64, code: u8) returns (r: SeccResult)
    ensures r == FfiVerify(data, code)
  {
    hide DataSyndrome, Low7, OddTotal, CountOnes, Xor, Pow2;
    r := SeccResult(0, data);
    var dataSyn := ComputeSyndrome(data);
    var syn := Xor(dataSyn, Low7(code));
    OddTotalIsCount(data, code);
    var parityOk := !((CountOnes(data) + CountOnes(code)) % 2 == 1);
    if syn == 0 && parityOk {
      return;
    }
    if syn == 0 && !parityOk {
      r := r.(status := 1);
      return;
    }
    if syn != 0 && parityOk {
      r := r.(status := -1);
      return;
    }
    if syn > POSITIONS {
      r := r.(status := -1);
      return;
    }
    if IsParityPos(syn) {
      r := r.(status := 1);
      return;
    }
    var bit := 0;
    for pos := 1 to syn
      invariant bit == DataBitIndex(pos)
    {
      if !IsParityPos(pos) {
        bit := bit + 1;
      }
    }
    DataPosition(syn);
    XorWidth(data, Pow2(bit));
    r := SeccResult(1, Xor(data, Pow2(bit)));
  }
}
