/** Sixty-four bit machine arithmetic over the integers.

    Every wrap-around, truncation and sign extension of the emulator is written
    out; the bitwise operators are defined bit by bit so that no bit-vector
    theory is needed by the proofs that use them. */
module Words {

  const M64: int := 0x1_0000_0000_0000_0000
  const M32: int := 0x1_0000_0000

  type Word = x: int | 0 <= x < 0x1_0000_0000_0000_0000
  type Byte = x: int | 0 <= x < 256

  function U64(x: int): Word { x % M64 }

  function U32(x: int): Word { x % M32 }

  /** The two's complement reading of a 64-bit word. */
  function S64(x: Word): int { if x < 0x8000_0000_0000_0000 then x else x - M64 }

  /** The two's complement reading of the low 32 bits. */
  function S32(x: int): int { var l := x % M32; if l < 0x8000_0000 then l else l - M32 }

  function Sext32(x: int): Word { U64(S32(x)) }

  function Pow2(n: nat): (r: nat)
    ensures r >= 1
  {
    if n == 0 then 1 else 2 * Pow2(n - 1)
  }

  lemma {:induction false} Pow2Adds(m: nat, n: nat)
    ensures Pow2(m + n) == Pow2(m) * Pow2(n)
  {
    if m > 0 {
      Pow2Adds(m - 1, n);
      assert Pow2(m + n) == 2 * Pow2(m - 1 + n);
      assert 2 * (Pow2(m - 1) * Pow2(n)) == (2 * Pow2(m - 1)) * Pow2(n);
    }
  }

  function Add(x: int, y: int): Word { U64(x + y) }
  function Sub(x: int, y: int): Word { U64(x - y) }

  // Bitwise operators -----------------------------------------------------

  datatype BitOp = And | Or | Xor

  function Bit1(op: BitOp, a: int, b: int): (r: int)
    ensures r == 0 || r == 1
  {
    match op
    case And => if a == 1 && b == 1 then 1 else 0
    case Or => if a == 1 || b == 1 then 1 else 0
    case Xor => if a == b then 0 else 1
  }

  function Bits(op: BitOp, a: nat, b: nat): nat
    decreases a + b
  {
    if a == 0 && b == 0 then 0 else Bit1(op, a % 2, b % 2) + 2 * Bits(op, a / 2, b / 2)
  }

  /** Unfolds one bit, also at zero, where the definition stops. */
  lemma BitsStep(op: BitOp, a: nat, b: nat)
    ensures Bits(op, a, b) == Bit1(op, a % 2, b % 2) + 2 * Bits(op, a / 2, b / 2)
    ensures Bits(op, a, b) / 2 == Bits(op, a / 2, b / 2)
    ensures Bits(op, a, b) % 2 == Bit1(op, a % 2, b % 2)
  {
  }

  lemma {:induction false} BitsBound(op: BitOp, a: nat, b: nat, k: nat)
    requires a < Pow2(k) && b < Pow2(k)
    ensures Bits(op, a, b) < Pow2(k)
    decreases k
  {
    if a != 0 || b != 0 {
      BitsBound(op, a / 2, b / 2, k - 1);
    }
  }

  lemma {:induction false} BitsCommute(op: BitOp, a: nat, b: nat)
    ensures Bits(op, a, b) == Bits(op, b, a)
    decreases a + b
  {
    if a != 0 || b != 0 { BitsCommute(op, a / 2, b / 2); }
  }

  lemma {:induction false} BitsZero(op: BitOp, a: nat)
    ensures Bits(op, a, 0) == if op == And then 0 else a
    decreases a
  {
    if a != 0 { BitsZero(op, a / 2); }
  }

  lemma {:induction false} BitsSelf(a: nat)
    ensures Bits(Xor, a, a) == 0
    ensures Bits(Or, a, a) == a
    ensures Bits(And, a, a) == a
    decreases a
  {
    if a != 0 { BitsSelf(a / 2); }
  }

  lemma Pow2At64()
    ensures Pow2(32) == M32 && Pow2(64) == M64
  {
    assert Pow2(8) == 256;
    Pow2Adds(8, 8);
    Pow2Adds(16, 16);
    Pow2Adds(32, 32);
  }

  function BitW(op: BitOp, a: Word, b: Word): Word
  {
    Pow2At64();
    BitsBound(op, a, b, 64);
    Bits(op, a, b)
  }

  /** x & 1 is the parity of x. */
  lemma AndOne(x: nat)
    ensures Bits(And, x, 1) == x % 2
  {
    BitsStep(And, x, 1);
    BitsZero(And, x / 2);
  }

  /** x & (2^k - 1) is the remainder modulo 2^k. */
  lemma {:induction false} AndLow(x: nat, k: nat)
    ensures Bits(And, x, Pow2(k) - 1) == x % Pow2(k)
    decreases k
  {
    hide Bits, Pow2;
    if k == 0 {
      AndNone(x);
    } else {
      Pow2Half(k);
      var p := Pow2(k - 1);
      var m := 2 * p - 1;
      DivModUnique(m, 2, p - 1, 1);
      AndLow(x / 2, k - 1);
      BitsStep(And, x, m);
      ModStep(x, p);
    }
  }

  lemma AndNone(x: nat)
    ensures Pow2(0) == 1 && Bits(And, x, 0) == 0 && x % 1 == 0
  {
    BitsZero(And, x);
  }

  lemma ModStep(x: nat, p: nat)
    requires p >= 1
    ensures x % (2 * p) == x % 2 + 2 * ((x / 2) % p)
  {
    var q, r := (x / 2) / p, (x / 2) % p;
    assert x == 2 * (p * q + r) + x % 2;
    assert 2 * (p * q) == (2 * p) * q;
    DivModUnique(x, 2 * p, q, 2 * r + x % 2);
  }

  lemma DivModUnique(x: int, d: int, q: int, r: int)
    requires d > 0 && 0 <= r < d && x == d * q + r
    ensures x / d == q && x % d == r
  {
    var q', r' := x / d, x % d;
    assert x == d * q' + r' && 0 <= r' < d;
    SmallMultiple(d, q' - q, r - r') by {
      assert d * (q' - q) == d * q' - d * q;
    }
  }

  lemma ModBound(x: nat, p: nat)
    requires p >= 1
    ensures 0 <= x % p <= x && x % p < p
  {
    var q, r := x / p, x % p;
    assert x == p * q + r;
    assert q >= 0;
    MulMono(p, 0, q);
  }

  lemma SmallMultiple(d: int, k: int, z: int)
    requires -d < z < d && z == d * k
    ensures k == 0
  {
    if k >= 1 {
      MulMono(d, 1, k);
    } else if k <= -1 {
      MulSigns(d, k);
      MulMono(d, 1, -k);
    }
  }

  /** x & ~(2^k - 1) drops the low k bits. */
  lemma {:induction false} AndHigh(x: nat, n: nat, k: nat)
    requires k <= n && x < Pow2(n)
    ensures Pow2(k) <= Pow2(n)
    ensures Bits(And, x, Pow2(n) - Pow2(k)) == x - x % Pow2(k)
    decreases k
  {
    hide Bits, Pow2;
    Pow2Mono(k, n);
    if k == 0 {
      AndAll(x, n);
    } else {
      Pow2Half(k);
      Pow2Half(n);
      var p, q := Pow2(k - 1), Pow2(n - 1);
      Pow2Mono(k - 1, n - 1);
      var m := 2 * q - 2 * p;
      DivModUnique(m, 2, q - p, 0);
      AndHigh(x / 2, n - 1, k - 1);
      BitsStep(And, x, m);
      ModStep(x, p);
    }
  }

  lemma AndAll(x: nat, n: nat)
    requires x < Pow2(n)
    ensures Pow2(0) == 1 && x % Pow2(0) == 0 && Bits(And, x, Pow2(n) - Pow2(0)) == x
  {
    AndLow(x, n);
    DivModUnique(x, Pow2(n), 0, x);
  }

  lemma Pow2Half(k: nat)
    requires k > 0
    ensures Pow2(k) == 2 * Pow2(k - 1) && Pow2(k - 1) >= 1
  {
    Pow2Mono(0, k - 1);
  }

  lemma {:induction false} Pow2Mono(m: nat, n: nat)
    requires m <= n
    ensures Pow2(m) <= Pow2(n)
    decreases n - m
  {
    if m < n { Pow2Mono(m + 1, n); }
  }

  /** Two words agree above bit k exactly when their XOR has no bit there. */
  lemma {:induction false} XorHigh(a: nat, b: nat, k: nat)
    ensures Bits(Xor, a, b) / Pow2(k) == 0 <==> a / Pow2(k) == b / Pow2(k)
    decreases k
  {
    if k == 0 {
      XorZero(a, b);
    } else {
      BitsStep(Xor, a, b);
      XorHigh(a / 2, b / 2, k - 1);
      DivStep(a, Pow2(k - 1));
      DivStep(b, Pow2(k - 1));
      DivStep(Bits(Xor, a, b), Pow2(k - 1));
    }
  }

  lemma DivStep(x: nat, p: nat)
    requires p >= 1
    ensures x / (2 * p) == (x / 2) / p
  {
    var q, r := (x / 2) / p, (x / 2) % p;
    assert x == 2 * (p * q + r) + x % 2;
    assert 2 * (p * q) == (2 * p) * q;
    DivModUnique(x, 2 * p, q, 2 * r + x % 2);
  }

  /** Bit i of a bitwise operation. */
  lemma {:induction false} BitAt(op: BitOp, a: nat, b: nat, i: nat)
    ensures Bits(op, a, b) / Pow2(i) % 2 == Bit1(op, a / Pow2(i) % 2, b / Pow2(i) % 2)
    decreases i
  {
    BitsStep(op, a, b);
    if i == 0 {
      assert Pow2(0) == 1;
    } else {
      hide Bits, Pow2;
      Pow2Half(i);
      BitAt(op, a / 2, b / 2, i - 1);
      DivStep(a, Pow2(i - 1));
      DivStep(b, Pow2(i - 1));
      DivStep(Bits(op, a, b), Pow2(i - 1));
    }
  }

  lemma {:induction false} XorZero(a: nat, b: nat)
    ensures Bits(Xor, a, b) == 0 <==> a == b
    decreases a + b
  {
    if a != 0 || b != 0 { XorZero(a / 2, b / 2); }
  }

  // Shifts ------------------------------------------------------------------

  datatype ShiftOp = Shl | Shr | Sar

  function Shift64(op: ShiftOp, x: Word, n: nat): Word
  {
    match op
    case Shl => U64(x * Pow2(n))
    case Shr => U64(x / Pow2(n))
    case Sar => U64(S64(x) / Pow2(n))
  }

  /** A 32-bit shift; the upper half of the result is zero. */
  function Shift32(op: ShiftOp, x: Word, n: nat): Word
  {
    match op
    case Shl => U32(U32(x) * Pow2(n))
    case Shr => U32(U32(x) / Pow2(n))
    case Sar => U32(S32(x) / Pow2(n))
  }

  lemma ShiftZeroes(op: ShiftOp, x: Word, n: nat)
    ensures Shift64(op, 0, n) == 0 && Shift32(op, 0, n) == 0
    ensures Shift64(op, x, 0) == x
    ensures Shift32(op, x, 0) == U32(x)
  {
    assert 0 * Pow2(n) == 0 && 0 / Pow2(n) == 0;
    assert Pow2(0) == 1;
    assert x * 1 == x && x / 1 == x;
  }

  // Division truncating toward zero (C++ and x86 alike) -----------------------

  function Abs(x: int): nat { if x < 0 then -x else x }

  function TruncDiv(a: int, b: int): int
    requires b != 0
  {
    var q := Abs(a) / Abs(b);
    if (a < 0) != (b < 0) then -q else q
  }

  function TruncRem(a: int, b: int): int
    requires b != 0
  {
    var r := Abs(a) % Abs(b);
    if a < 0 then -r else r
  }

  /** Quotient and remainder recombine, and the remainder is small. */
  lemma TruncDivMod(a: int, b: int)
    requires b != 0
    ensures a == TruncDiv(a, b) * b + TruncRem(a, b)
    ensures Abs(TruncRem(a, b)) < Abs(b)
    ensures Abs(TruncDiv(a, b)) <= Abs(a)
    ensures Abs(b) >= 2 ==> 2 * Abs(TruncDiv(a, b)) <= Abs(a)
    ensures (a < 0) == (b < 0) ==> TruncDiv(a, b) >= 0
    ensures (a < 0) != (b < 0) ==> TruncDiv(a, b) <= 0
  {
    var x, y := Abs(a), Abs(b);
    TruncParts(a, b, x, y, x / y, x % y);
  }

  lemma TruncParts(a: int, b: int, x: nat, y: nat, q: nat, r: nat)
    requires b != 0 && x == Abs(a) && y == Abs(b) && x == y * q + r && r < y && q == x / y && r == x % y
    ensures a == TruncDiv(a, b) * b + TruncRem(a, b)
    ensures Abs(TruncRem(a, b)) < Abs(b)
    ensures Abs(TruncDiv(a, b)) <= Abs(a)
    ensures Abs(b) >= 2 ==> 2 * Abs(TruncDiv(a, b)) <= Abs(a)
    ensures (a < 0) == (b < 0) ==> TruncDiv(a, b) >= 0
    ensures (a < 0) != (b < 0) ==> TruncDiv(a, b) <= 0
  {
    MulMono(q, 1, y);
    if y >= 2 { MulMono(q, 2, y); }
    MulSigns(q, y);
  }

  lemma MulSigns(q: int, y: int)
    ensures (-q) * (-y) == q * y && (-q) * y == -(q * y) && q * (-y) == -(q * y)
  {
  }

  lemma MulMono(q: nat, m: nat, y: nat)
    requires m <= y
    ensures q * m <= q * y
  {
  }

  lemma SameMod(x: int, y: int, m: nat, k: int)
    requires m > 0 && x == y + m * k
    ensures x % m == y % m
  {
    DivModUnique(x, m, y / m + k, y % m) by {
      assert m * (y / m + k) == m * (y / m) + m * k;
    }
  }

  lemma DivTwice(x: nat, a: nat, b: nat)
    requires a > 0 && b > 0
    ensures x / (a * b) == x / a / b
  {
    var q, r := x / a, x % a;
    var k, t := q / b, q % b;
    var ab, at := a * b, a * t;
    assert x == ab * k + (at + r) by {
      assert q == b * k + t && x == a * q + r;
      assert a * q == a * (b * k) + a * t && a * (b * k) == a * b * k;
    }
    assert at + r < ab by {
      MulMono(a, t + 1, b);
      assert a * (t + 1) == at + a;
    }
    DivModUnique(x, ab, k, at + r);
  }
}
