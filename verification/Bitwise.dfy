/**
 Machine arithmetic on integers: powers of two, shifts, the bitwise operators in two's
 complement, population count and parity. Every operator is defined one binary digit at a
 time; the widths (u64, u32, u16, i32) are written out where a value is stored.
 */
module Bitwise {
  const U16: nat := 0x1_0000
  const U32: nat := 0x1_0000_0000
  const U64: nat := 0x1_0000_0000_0000_0000

  type u8 = x: nat | x < 0x100
  type u16 = x: nat | x < U16
  type u32 = x: nat | x < U32
  type u64 = x: nat | x < U64

  function Max(a: int, b: int): int {
    if a < b then b else a
  }

  function Min(a: int, b: int): int {
    if a < b then a else b
  }

  /** The i32 with the same bits as a u32. */
  function AsI32(x: u32): (d: int)
    ensures -0x8000_0000 <= d < 0x8000_0000
  {
    if x < 0x8000_0000 then x else x - U32
  }

  function Pow2(n: nat): (p: nat)
    ensures p > 0
  {
    if n == 0 then 1 else 2 * Pow2(n - 1)
  }

  /** Logical right shift by `n`. */
  function Shr(w: nat, n: nat): nat
    decreases n
  {
    if n == 0 then w else Shr(w / 2, n - 1)
  }

  /** Left shift of a 64-bit word: bits moved past position 63 are lost. */
  function Shl64(w: u64, n: nat): u64
    decreases n
  {
    if n == 0 then w else Shl64((2 * w) % U64, n - 1)
  }

  function Xor(a: nat, b: nat): nat {
    if a == 0 then b else if b == 0 then a else 2 * Xor(a / 2, b / 2) + (if a % 2 == b % 2 then 0 else 1)
  }

  /** Conjunction of two's complement integers; -1 has every bit set. */
  function And(a: int, b: int): int
    decreases if a < 0 then -a else a
  {
    if a == 0 then 0
    else if a == -1 then b
    else 2 * And(a / 2, b / 2) + (a % 2) * (b % 2)
  }

  /** Complement in two's complement. */
  function Not(a: int): int {
    -1 - a
  }

  function Or(a: int, b: int): int {
    Not(And(Not(a), Not(b)))
  }

  /** The bit test `(w >> i) & 1 == 1`. */
  predicate Bit(w: nat, i: nat) {
    Shr(w, i) % 2 == 1
  }

  /** The number of set bits. */
  function CountOnes(w: nat): nat {
    if w == 0 then 0 else w % 2 + CountOnes(w / 2)
  }

  /** The parity of the set bits, digit by digit. */
  predicate Odd(w: nat) {
    w != 0 && ((w % 2 == 1) != Odd(w / 2))
  }

  // ----- exclusive or

  lemma XorUnit(a: nat)
    ensures Xor(a, 0) == a && Xor(0, a) == a
  {
  }

  lemma XorStep(a: nat, b: nat)
    ensures Xor(a, b) == 2 * Xor(a / 2, b / 2) + (if a % 2 == b % 2 then 0 else 1)
    ensures Xor(a, b) / 2 == Xor(a / 2, b / 2)
    ensures Xor(a, b) % 2 == if a % 2 == b % 2 then 0 else 1
  {
  }

  lemma XorDigits(a: nat, i: nat, b: nat, j: nat)
    requires i < 2 && j < 2
    ensures Xor(2 * a + i, 2 * b + j) == 2 * Xor(a, b) + (if i == j then 0 else 1)
  {
    assert (2 * a + i) / 2 == a && (2 * a + i) % 2 == i;
    assert (2 * b + j) / 2 == b && (2 * b + j) % 2 == j;
    XorStep(2 * a + i, 2 * b + j);
  }

  lemma {:induction false} XorComm(a: nat, b: nat)
    ensures Xor(a, b) == Xor(b, a)
  {
    if a == 0 || b == 0 {
    } else {
      XorComm(a / 2, b / 2);
    }
  }

  lemma SameHalves(v: nat, w: nat)
    requires v / 2 == w / 2 && v % 2 == w % 2
    ensures v == w
  {
  }

  lemma {:induction false} XorAssoc(a: nat, b: nat, c: nat)
    ensures Xor(Xor(a, b), c) == Xor(a, Xor(b, c))
    decreases a + b + c
  {
    if a == 0 || b == 0 || c == 0 {
    } else {
      XorAssoc(a / 2, b / 2, c / 2);
      XorStep(a, b);
      XorStep(b, c);
      XorStep(Xor(a, b), c);
      XorStep(a, Xor(b, c));
      SameHalves(Xor(Xor(a, b), c), Xor(a, Xor(b, c)));
    }
  }

  lemma {:induction false} XorSelf(a: nat)
    ensures Xor(a, a) == 0
  {
    if a == 0 {
    } else {
      XorSelf(a / 2);
    }
  }

  lemma {:induction false} XorZero(a: nat, b: nat)
    ensures Xor(a, b) == 0 <==> a == b
  {
    if a == 0 || b == 0 {
    } else {
      XorZero(a / 2, b / 2);
    }
  }

  /** Exclusive or with the same word twice is the identity. */
  lemma XorCancel(a: nat, b: nat)
    ensures Xor(Xor(a, b), b) == a && Xor(a, Xor(a, b)) == b
  {
    XorAssoc(a, b, b);
    XorSelf(b);
    XorAssoc(a, a, b);
    XorSelf(a);
    XorComm(a, 0);
  }

  lemma {:induction false} XorBound(a: nat, b: nat, n: nat)
    requires a < Pow2(n) && b < Pow2(n)
    ensures Xor(a, b) < Pow2(n)
  {
    if a == 0 || b == 0 {
    } else {
      XorBound(a / 2, b / 2, n - 1);
    }
  }

  lemma MulAssoc(a: int, b: int, c: int)
    ensures (a * b) * c == a * (b * c)
  {
  }

  lemma {:induction false} Pow2Add(a: nat, b: nat)
    ensures Pow2(a + b) == Pow2(a) * Pow2(b)
  {
    if a == 0 {
    } else {
      Pow2Add(a - 1, b);
      MulAssoc(2, Pow2(a - 1), Pow2(b));
    }
  }

  lemma Pow2Square(n: nat, p: nat)
    requires Pow2(n) == p
    ensures Pow2(2 * n) == p * p
  {
    Pow2Add(n, n);
  }

  lemma Pow2Values()
    ensures Pow2(7) == 0x80 && Pow2(8) == 0x100 && Pow2(32) == U32 && Pow2(64) == U64
  {
    assert Pow2(8) == 0x100 by { assert Pow2(4) == 16; }
    assert Pow2(16) == U16 by { Pow2Square(8, 0x100); }
    assert Pow2(32) == U32 by { Pow2Square(16, U16); }
    Pow2Square(32, U32);
  }

  lemma {:induction false} Pow2Monotone(a: nat, b: nat)
    requires a <= b
    ensures Pow2(a) <= Pow2(b)
  {
    if a == b {
    } else {
      Pow2Monotone(a, b - 1);
    }
  }

  lemma Pow2Small(a: nat, b: nat)
    requires a < b
    ensures Pow2(a) < Pow2(b)
  {
    Pow2Monotone(a + 1, b);
  }

  /** Exclusive or stays inside 64 bits, and inside a byte. */
  lemma XorWidth(a: nat, b: nat)
    ensures a < U64 && b < U64 ==> Xor(a, b) < U64
    ensures a < 0x100 && b < 0x100 ==> Xor(a, b) < 0x100
    ensures a < 0x80 && b < 0x80 ==> Xor(a, b) < 0x80
  {
    Pow2Values();
    if a < 0x80 && b < 0x80 {
      XorBound(a, b, 7);
    }
    if a < 0x100 && b < 0x100 {
      XorBound(a, b, 8);
    }
    if a < U64 && b < U64 {
      XorBound(a, b, 64);
    }
  }

  // ----- single bits

  lemma {:induction false} BitXor(a: nat, b: nat, i: nat)
    ensures Bit(Xor(a, b), i) == (Bit(a, i) != Bit(b, i))
    decreases i
  {
    XorStep(a, b);
    if i == 0 {
    } else {
      BitXor(a / 2, b / 2, i - 1);
    }
  }

  lemma {:induction false} ShrZero(i: nat)
    ensures Shr(0, i) == 0
  {
    if i == 0 {
    } else {
      ShrZero(i - 1);
    }
  }

  lemma {:induction false} BitOfPower(j: nat, i: nat)
    ensures Bit(Pow2(j), i) <==> i == j
    decreases i
  {
    if i == 0 {
    } else if j == 0 {
      ShrZero(i - 1);
    } else {
      BitOfPower(j - 1, i - 1);
    }
  }

  // ----- population count

  lemma {:induction false} OddIsCount(w: nat)
    ensures Odd(w) <==> CountOnes(w) % 2 == 1
  {
    if w == 0 {
    } else {
      OddIsCount(w / 2);
    }
  }

  /** Parity turns exclusive or of words into exclusive or of parities. */
  lemma {:induction false} OddXor(a: nat, b: nat)
    ensures Odd(Xor(a, b)) == (Odd(a) != Odd(b))
  {
    if a == 0 || b == 0 {
    } else {
      OddXor(a / 2, b / 2);
      XorStep(a, b);
    }
  }

  lemma CountStep(w: nat)
    ensures CountOnes(w) == w % 2 + CountOnes(w / 2)
  {
  }

  lemma AddEven(w: nat, p: nat)
    ensures (w + 2 * p) / 2 == w / 2 + p && (w + 2 * p) % 2 == w % 2
  {
  }

  /** Flipping bit `i` moves the population count by exactly one. */
  lemma {:induction false} CountFlip(w: nat, i: nat)
    ensures CountOnes(Xor(w, Pow2(i))) == CountOnes(w) + (if Bit(w, i) then -1 else 1)
    decreases i
  {
    XorStep(w, Pow2(i));
    CountStep(w);
    CountStep(Xor(w, Pow2(i)));
    if i == 0 {
      XorComm(w / 2, 0);
    } else {
      CountFlip(w / 2, i - 1);
      AddEven(0, Pow2(i - 1));
    }
  }

  lemma {:induction false} OddPow2(n: nat)
    ensures Odd(Pow2(n))
  {
    if n == 0 {
    } else {
      OddPow2(n - 1);
    }
  }

  /** A non-zero word below 2^n has a set bit below n. */
  lemma {:induction false} SomeBit(w: nat, n: nat) returns (i: nat)
    requires 0 < w < Pow2(n)
    ensures i < n && Bit(w, i)
    decreases n
  {
    if w % 2 == 1 {
      i := 0;
    } else {
      var j := SomeBit(w / 2, n - 1);
      i := j + 1;
    }
  }

  lemma {:induction false} CountZero(w: nat)
    ensures CountOnes(w) == 0 <==> w == 0
  {
    if w == 0 {
    } else {
      CountZero(w / 2);
    }
  }

  // ----- masks

  lemma MulAtLeast(d: int, k: int)
    requires d > 0 && k > 0
    ensures d * k >= d
  {
  }

  /** Quotient and remainder are determined by the division equation. */
  lemma DivModUnique(w: int, d: int, q: int, r: int)
    requires d > 0 && w == d * q + r && 0 <= r < d
    ensures w / d == q && w % d == r
  {
    var q', r' := w / d, w % d;
    assert w == d * q' + r';
    if q > q' {
      MulAtLeast(d, q - q');
    } else if q < q' {
      MulAtLeast(d, q' - q);
    }
  }

  lemma ModTwice(w: nat, p: nat)
    requires p > 0
    ensures w % (2 * p) == 2 * (w / 2 % p) + w % 2
  {
    var q, r := w / 2 / p, w / 2 % p;
    assert w == (2 * p) * q + (2 * r + w % 2);
    DivModUnique(w, 2 * p, q, 2 * r + w % 2);
  }

  lemma {:induction false} AndZero(a: int)
    ensures And(a, 0) == 0
    decreases if a < 0 then -a else a
  {
    if a == 0 || a == -1 {
    } else {
      AndZero(a / 2);
    }
  }

  /** Masking with the low `n` bits is reduction modulo 2^n. */
  lemma {:induction false} AndLowMask(w: nat, n: nat)
    ensures And(w, Pow2(n) - 1) == w % Pow2(n)
    decreases n
  {
    if n == 0 {
      AndZero(w);
    } else if w != 0 {
      var p := Pow2(n - 1);
      AndLowMask(w / 2, n - 1);
      ModTwice(w, p);
      assert (2 * p - 1) / 2 == p - 1 && (2 * p - 1) % 2 == 1;
      assert And(w, 2 * p - 1) == 2 * And(w / 2, p - 1) + w % 2;
    }
  }

  lemma SmallMod(a: nat, d: nat)
    requires a < d
    ensures a % d == a
  {
  }

  lemma {:induction false} AndOnes(a: int)
    ensures And(a, -1) == a
    decreases if a < 0 then -a else a
  {
    if a == 0 || a == -1 {
    } else {
      AndOnes(a / 2);
    }
  }

  lemma NotHalf(a: int)
    ensures Not(a) / 2 == Not(a / 2) && Not(a) % 2 == 1 - a % 2
  {
  }

  lemma AndStep(a: int, b: int)
    ensures And(a, b) == 2 * And(a / 2, b / 2) + (a % 2) * (b % 2)
  {
  }

  lemma {:induction false} AndNegative(a: int, b: int)
    requires a < 0 && b < 0
    ensures And(a, b) < 0
    decreases -a
  {
    if a == -1 {
    } else {
      AndNegative(a / 2, b / 2);
    }
  }

  lemma OrNonNegative(a: nat, b: nat)
    ensures Or(a, b) >= 0
  {
    AndNegative(Not(a), Not(b));
  }

  /** Or of operands without common bits is addition. */
  lemma {:induction false} OrDisjoint(high: nat, low: nat, n: nat)
    requires low < Pow2(n)
    ensures Or(high * Pow2(n), low) == high * Pow2(n) + low
    decreases n
  {
    var h := high * Pow2(n);
    if n == 0 {
      AndOnes(Not(high));
    } else {
      var h' := high * Pow2(n - 1);
      assert h == 2 * h';
      OrDisjoint(high, low / 2, n - 1);
      NotHalf(h);
      NotHalf(low);
      AndStep(Not(h), Not(low));
      NotHalf(2 * And(Not(h'), Not(low / 2)) + (1 - low % 2));
    }
  }

  lemma {:induction false} AndComm(a: int, b: int)
    ensures And(a, b) == And(b, a)
    decreases if a < 0 then -a else a
  {
    if a == 0 {
      AndZero(b);
    } else if a == -1 {
      AndOnes(b);
    } else {
      AndComm(a / 2, b / 2);
    }
  }

  lemma {:induction false} OddTop(w: nat, n: nat)
    requires w < Pow2(n)
    ensures Odd(w + Pow2(n)) == !Odd(w)
    decreases n
  {
    if n == 0 {
    } else {
      OddTop(w / 2, n - 1);
      AddEven(w, Pow2(n - 1));
    }
  }

  /** Setting bit 7 of a 7-bit code. */
  lemma SetTop(code: nat)
    requires code < 0x80
    ensures Or(code, 0x80) == code + 0x80
    ensures Odd(code + 0x80) == !Odd(code)
  {
    Pow2Values();
    OrDisjoint(1, code, 7);
    AndComm(Not(code), Not(0x80));
    OddTop(code, 7);
  }

  lemma XorModStep(a: nat, b: nat, p: nat)
    requires p > 0 && Xor(a / 2, b / 2) % p == Xor((a / 2) % p, (b / 2) % p)
    ensures Xor(a, b) % (2 * p) == Xor(a % (2 * p), b % (2 * p))
  {
    hide Xor;
    XorStep(a, b);
    ModTwice(a, p);
    ModTwice(b, p);
    ModTwice(Xor(a, b), p);
    XorDigits((a / 2) % p, a % 2, (b / 2) % p, b % 2);
  }

  /** Exclusive or acts on the low `n` bits alone. */
  lemma {:induction false} XorMod(a: nat, b: nat, n: nat)
    ensures Xor(a, b) % Pow2(n) == Xor(a % Pow2(n), b % Pow2(n))
    decreases n
  {
    if n == 0 {
    } else {
      XorMod(a / 2, b / 2, n - 1);
      XorModStep(a, b, Pow2(n - 1));
    }
  }
}
