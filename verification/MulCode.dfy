/** Code selection for multiply and divide (emit_m_r_to): RISC-V results, including
    division by zero and overflow, with no host divide that can fault. */
module MulCode {
  import opened Words
  import opened Guest
  import opened Host
  import opened Translators
  import opened AluCode

  predicate IsMul(op: MulOp) { op in {MUL, MULH, MULHU, MULHSU} }
  predicate IsRem(op: MulOp) { op in {REM, REMU} }
  predicate IsSignedDiv(op: MulOp) { op in {DIV, REM} }

  /** Two local jumps around an else part and a then part. */
  function IfElse(c: Cond, thn: seq<Op>, els: seq<Op>): seq<Op>
  {
    [SkipIf(c, |els| + 1)] + (els + ([SkipOver(|thn|)] + thn))
  }

  lemma {:induction false} ExecSkip(env: Env, code: seq<Op>, m: Machine)
    requires code != []
    ensures Exec(env, code, Skip(|code|, m)) == Run(m)
    decreases |code|
  {
    if |code| > 1 { ExecSkip(env, code[1..], m); }
  }

  lemma ExecJumpOver(env: Env, c: Cond, body: seq<Op>, m: Machine)
    requires m.flags.Compared? && body != []
    ensures Exec(env, [SkipIf(c, |body|)] + body, Run(m)) ==
            if Holds(c, m.flags.a, m.flags.b) then Run(m) else Exec(env, body, Run(m))
  {
    ExecAppend(env, [SkipIf(c, |body|)], body, Run(m));
    Exec1(env, SkipIf(c, |body|), Run(m));
    if Holds(c, m.flags.a, m.flags.b) { ExecSkip(env, body, m); }
  }

  lemma ExecSkipOver(env: Env, code: seq<Op>, m: Machine)
    requires code != []
    ensures Exec(env, [SkipOver(|code|)] + code, Run(m)) == Run(m)
  {
    ExecAppend(env, [SkipOver(|code|)], code, Run(m));
    Exec1(env, SkipOver(|code|), Run(m));
    ExecSkip(env, code, m);
  }

  lemma ExecIfElse(env: Env, c: Cond, thn: seq<Op>, els: seq<Op>, m: Machine)
    requires m.flags.Compared? && thn != []
    requires Exec(env, els, Run(m)).Run?
    ensures Exec(env, IfElse(c, thn, els), Run(m)) ==
            if Holds(c, m.flags.a, m.flags.b) then Exec(env, thn, Run(m)) else Exec(env, els, Run(m))
  {
    hide Exec, Do;
    var over := [SkipOver(|thn|)];
    if Holds(c, m.flags.a, m.flags.b) {
      assert IfElse(c, thn, els) == ([SkipIf(c, |els + over|)] + (els + over)) + thn;
      ExecAppend(env, [SkipIf(c, |els + over|)] + (els + over), thn, Run(m));
      ExecJumpOver(env, c, els + over, m);
    } else {
      ExecNotTaken(env, c, thn, els, m);
    }
  }

  lemma ExecNotTaken(env: Env, c: Cond, thn: seq<Op>, els: seq<Op>, m: Machine)
    requires m.flags.Compared? && thn != []
    requires Exec(env, els, Run(m)).Run? && !Holds(c, m.flags.a, m.flags.b)
    ensures Exec(env, IfElse(c, thn, els), Run(m)) == Exec(env, els, Run(m))
  {
    hide Exec, Do;
    var rest := [SkipOver(|thn|)] + thn;
    DoSkipIf(env, m, c, |els| + 1);
    ExecCons(env, SkipIf(c, |els| + 1), els + rest, Run(m));
    ExecAppend(env, els, rest, Run(m));
    ExecSkipOver(env, thn, Exec(env, els, Run(m)).m);
  }

  // Sources that are x0 --------------------------------------------------------

  /** rs2 is x0. */
  function NoDivisorCode(op: MulOp, word: bool, d: HReg, s1: HReg): seq<Op>
  {
    if IsMul(op) then Zero(d)
    else if !IsRem(op) then [MovImm(d, -1)]
    else if op == REM && word then (if d == s1 then [] else [Mov32(d, s1)]) + [Movsxd(d, d)]
    else MovUnless(d, s1)
  }

  lemma NoDivisorComputes(env: Env, m: Machine, op: MulOp, word: bool, d: HReg, s1: HReg)
    requires Pooled(d) && Pooled(s1) && (word ==> op in {MUL, DIV, DIVU, REM, REMU})
    ensures Computes(env, NoDivisorCode(op, word, d, s1), m, d, HandleM(op, word, m.regs[s1], 0))
  {
    hide Exec, Shift64, Shift32, Bits, TruncDiv, TruncRem;
    var a := m.regs[s1];
    if IsMul(op) {
      ZeroComputes(env, m, d);
      assert a * 0 == 0 && S64(a) * 0 == 0 && S32(a) * 0 == 0;
    } else if !IsRem(op) {
      Exec1(env, MovImm(d, -1), Run(m));
    } else if op == REM && word {
      if d == s1 {
        assert NoDivisorCode(op, word, d, s1) == [Movsxd(d, d)];
        Exec1(env, Movsxd(d, d), Run(m));
      } else {
        assert NoDivisorCode(op, word, d, s1) == [Mov32(d, s1), Movsxd(d, d)];
        Exec2(env, Mov32(d, s1), Movsxd(d, d), Run(m));
        assert a % M32 % M32 == a % M32;
      }
    } else {
      MovComputes(env, m, d, s1);
    }
  }

  /** 0 * y and 0 % y are zero for every y. */
  lemma ZeroDividend(op: MulOp, word: bool, b: Word)
    requires (word ==> op in {MUL, DIV, DIVU, REM, REMU}) && (IsMul(op) || IsRem(op))
    ensures HandleM(op, word, 0, b) == 0
  {
    assert 0 * b == 0 && 0 * S64(b) == 0 && 0 * S32(b) == 0;
    if op == REM && word && S32(b) != 0 { TruncDivMod(0, S32(b)); ZeroMod(Abs(S32(b))); }
    if op == REM && !word && b != 0 { ZeroMod(Abs(S64(b))); }
    if op == REMU && !word && b != 0 { ZeroMod(b); }
    if op == REMU && word && U32(b) != 0 { ZeroMod(U32(b)); }
  }

  lemma ZeroMod(b: int)
    requires b > 0
    ensures 0 % b == 0
  {
    DivModUnique(0, b, 0, 0);
  }

  // MUL ------------------------------------------------------------------------

  function MulLowCode(word: bool, d: HReg, s1: HReg, s2: HReg): seq<Op>
  {
    var s := if d == s1 then s2 else if d == s2 then s1 else s2;
    var pre := if d == s1 || d == s2 then [] else if word then [Mov32(d, s1)] else [Mov(d, s1)];
    pre + if word then [ImulRR32(d, s), Movsxd(d, d)] else [ImulRR(d, s)]
  }

  lemma MulLow32(a: Word, b: Word)
    ensures Sext32(U32(U32(a) * U32(b))) == Sext32(S32(a) * S32(b))
  {
    var ua, ub := U32(a), U32(b);
    var ea, eb := if ua < 0x8000_0000 then 0 else 1, if ub < 0x8000_0000 then 0 else 1;
    var k := ea * eb * M32 - ea * ub - eb * ua;
    assert S32(a) == ua - ea * M32 && S32(b) == ub - eb * M32;
    ProductShift(ua, ub, ea, eb);
    SameLow(S32(a) * S32(b), ua * ub, k);
    SameLow(U32(ua * ub), ua * ub, -(ua * ub / M32));
  }

  lemma ProductShift(ua: int, ub: int, ea: int, eb: int)
    ensures (ua - ea * M32) * (ub - eb * M32) == ua * ub + M32 * (ea * eb * M32 - ea * ub - eb * ua)
  {
    assert (ua - ea * M32) * (ub - eb * M32)
        == ua * ub - ua * (eb * M32) - (ea * M32) * ub + (ea * M32) * (eb * M32);
  }

  lemma MulLowComputes(env: Env, m: Machine, word: bool, d: HReg, s1: HReg, s2: HReg)
    requires Pooled(d) && Pooled(s1) && Pooled(s2)
    ensures Computes(env, MulLowCode(word, d, s1, s2), m, d, HandleM(MUL, word, m.regs[s1], m.regs[s2]))
  {
    hide Exec, Shift64, Shift32, Bits, Divide, TruncDiv, TruncRem;
    var a, b := m.regs[s1], m.regs[s2];
    var s := if d == s1 then s2 else if d == s2 then s1 else s2;
    if word {
      MulCommutes(U32(a), U32(b));
      MulLow32(a, b);
      if d == s1 || d == s2 {
        assert MulLowCode(word, d, s1, s2) == [ImulRR32(d, s), Movsxd(d, d)];
        Exec2(env, ImulRR32(d, s), Movsxd(d, d), Run(m));
      } else {
        MulLowMoved(env, m, d, s1, s2);
      }
    } else {
      MulCommutes(a, b);
      if d == s1 || d == s2 {
        assert MulLowCode(word, d, s1, s2) == [ImulRR(d, s)];
        Exec1(env, ImulRR(d, s), Run(m));
      } else {
        assert MulLowCode(word, d, s1, s2) == [Mov(d, s1), ImulRR(d, s)];
        Exec2(env, Mov(d, s1), ImulRR(d, s), Run(m));
      }
    }
  }

  lemma MulLowMoved(env: Env, m: Machine, d: HReg, s1: HReg, s2: HReg)
    requires Pooled(d) && Pooled(s1) && Pooled(s2) && d != s1 && d != s2
    ensures Computes(env, MulLowCode(true, d, s1, s2), m, d, Sext32(U32(U32(m.regs[s1]) * U32(m.regs[s2]))))
  {
    assert MulLowCode(true, d, s1, s2) == [Mov32(d, s1), ImulRR32(d, s2), Movsxd(d, d)];
    Exec3(env, Mov32(d, s1), ImulRR32(d, s2), Movsxd(d, d), Run(m));
    assert U32(U32(m.regs[s1])) == U32(m.regs[s1]);
  }

  lemma MulCommutes(a: int, b: int)
    ensures a * b == b * a
  {
  }

  // MULH, MULHU, MULHSU ------------------------------------------------------------

  function HighCode(op: MulOp, d: HReg, s1: HReg, s2: HReg): seq<Op>
  {
    if op == MULHSU then
      [Mov(RAX, s1), Mul(s2), Mov(RCX, s1), ShiftImm(Sar, RCX, 63)]
      + [Arith(AND64, RCX, s2), Arith(SUB64, RDX, RCX), Mov(d, RDX)]
    else [Mov(RAX, s1), if op == MULH then Imul(s2) else Mul(s2), Mov(d, RDX)]
  }

  /** The sign word of x selects y or zero. */
  lemma SignMask(x: Word, y: Word)
    ensures BitW(And, Shift64(Sar, x, 63), y) == if x >= 0x8000_0000_0000_0000 then y else 0
  {
    hide Bits, Pow2;
    Pow2At64();
    SignWord(x);
    BitsCommute(And, Shift64(Sar, x, 63), y);
    AndLow(y, 64);
    BitsZero(And, y);
    DivModUnique(y, M64, 0, y);
  }

  /** Shifting right by 63 spreads the sign over the word. */
  lemma SignWord(x: Word)
    ensures Shift64(Sar, x, 63) == if x >= 0x8000_0000_0000_0000 then M64 - 1 else 0
  {
    hide Pow2;
    Pow2At64();
    Pow2Half(64);
    if x >= 0x8000_0000_0000_0000 {
      DivModUnique(S64(x), 0x8000_0000_0000_0000, -1, x - 0x8000_0000_0000_0000);
    } else {
      DivModUnique(S64(x), 0x8000_0000_0000_0000, 0, x);
    }
  }

  /** signed(x) * y has the high word of x * y, less y when x is negative. */
  lemma MixedHigh(x: Word, y: Word)
    ensures U64(S64(x) * y % (M64 * M64) / M64) ==
            Sub(U64(x * y / M64), if x >= 0x8000_0000_0000_0000 then y else 0)
  {
    var p := x * y;
    HighBound(x, y);
    MixedParts(x, y, p, p / M64, p % M64);
  }

  lemma MixedParts(x: Word, y: Word, p: int, hi: int, lo: int)
    requires p == x * y && p == M64 * hi + lo && 0 <= lo < M64 && 0 <= hi < M64 && p / M64 == hi
    ensures U64(S64(x) * y % (M64 * M64) / M64) == Sub(U64(hi), if x >= 0x8000_0000_0000_0000 then y else 0)
  {
    hide U64, Sub, S64;
    SignedProduct(x, y);
    var h := if x >= 0x8000_0000_0000_0000 then hi - y else hi;
    assert S64(x) * y == M64 * h + lo;
    HighWord(h, lo);
    SubWraps(hi, y);
  }

  lemma SignedProduct(x: Word, y: Word)
    ensures S64(x) * y == x * y - (if x >= 0x8000_0000_0000_0000 then M64 * y else 0)
  {
    assert (x - M64) * y == x * y - M64 * y;
  }

  lemma SubWraps(hi: int, y: int)
    requires 0 <= hi < M64
    ensures U64(hi - y) == Sub(U64(hi), y) && U64(hi) == Sub(U64(hi), 0)
  {
  }

  lemma HighBound(x: Word, y: Word)
    ensures 0 <= x * y < M64 * M64 && 0 <= x * y / M64 < M64
  {
    assert 0 <= x * y;
    assert x * y <= x * M64 by { MulMono(x, y, M64); }
    DivBound(x * y, x);
  }

  lemma DivBound(p: int, x: Word)
    requires 0 <= p <= x * M64
    ensures 0 <= p / M64 <= x
  {
  }

  lemma HighWord(h: int, lo: int)
    requires 0 <= lo < M64 && -M64 < h < M64
    ensures U64((M64 * h + lo) % (M64 * M64) / M64) == U64(h)
  {
    if h >= 0 {
      assert (M64 * h + lo) % (M64 * M64) == M64 * h + lo;
      assert (M64 * h + lo) / M64 == h;
    } else {
      var g := h + M64;
      assert M64 * h + lo == M64 * g + lo - M64 * M64;
      assert (M64 * h + lo) % (M64 * M64) == M64 * g + lo;
      assert (M64 * g + lo) / M64 == g;
    }
  }

  lemma HighComputes(env: Env, m: Machine, op: MulOp, d: HReg, s1: HReg, s2: HReg)
    requires Pooled(d) && Pooled(s1) && Pooled(s2) && op in {MULH, MULHU, MULHSU}
    ensures Computes(env, HighCode(op, d, s1, s2), m, d, HandleM(op, false, m.regs[s1], m.regs[s2]))
  {
    hide Exec, Shift64, Shift32, Bits, Divide, TruncDiv, TruncRem;
    var x: int, y: int := m.regs[s1], m.regs[s2];
    if op == MULHSU {
      MixedHigh(x, y);
      MulStep(env, m, s1, s2, x * y);
      MixedComputes(env, m, d, s1, s2, x * y);
    } else {
      Exec3(env, Mov(RAX, s1), if op == MULH then Imul(s2) else Mul(s2), Mov(d, RDX), Run(m));
    }
  }

  /** The machine after `mov rax, s1; mul s2` with product p. */
  function Multiplied(m: Machine, p: int): Machine
  {
    m.(regs := m.regs[RAX := U64(p)][RDX := U64(p / M64)], flags := NoFlags)
  }

  lemma MulStep(env: Env, m: Machine, s1: HReg, s2: HReg, p: int)
    requires Pooled(s1) && Pooled(s2) && p == (m.regs[s1] as int) * (m.regs[s2] as int)
    ensures Step(env, Mul(s2), Set(m, RAX, m.regs[s1])) == Run(Multiplied(m, p))
  {
  }

  lemma MixedComputes(env: Env, m: Machine, d: HReg, s1: HReg, s2: HReg, p: int)
    requires Pooled(d) && Pooled(s1) && Pooled(s2)
    requires Step(env, Mul(s2), Set(m, RAX, m.regs[s1])) == Run(Multiplied(m, p))
    ensures Computes(env, HighCode(MULHSU, d, s1, s2), m, d,
                     Sub(U64(p / M64), if m.regs[s1] >= 0x8000_0000_0000_0000 then m.regs[s2] else 0))
  {
    hide Exec, Shift64, Shift32, Bits, Add, Divide;
    var m0 := Multiplied(m, p);
    var m1 := SetF(m0, RCX, Shift64(Sar, m.regs[s1], 63), NoFlags);
    var front := [Mov(RAX, s1), Mul(s2), Mov(RCX, s1), ShiftImm(Sar, RCX, 63)];
    var back := [Arith(AND64, RCX, s2), Arith(SUB64, RDX, RCX), Mov(d, RDX)];
    ExecAppend(env, front, back, Run(m));
    assert Exec(env, front, Run(m)) == Run(m1) by {
      Exec4(env, Mov(RAX, s1), Mul(s2), Mov(RCX, s1), ShiftImm(Sar, RCX, 63), Run(m));
    }
    Exec3(env, Arith(AND64, RCX, s2), Arith(SUB64, RDX, RCX), Mov(d, RDX), Run(m1));
    SignMask(m.regs[s1], m.regs[s2]);
  }

  // DIV, DIVU, REM, REMU --------------------------------------------------------------

  /** RCX := divisor, RAX := dividend, as 64-bit, sign- or zero-extended 32-bit values,
      and the flags of the divisor. */
  function DivSetup(op: MulOp, word: bool, s1: HReg, s2: HReg): seq<Op>
  {
    if !word then [Mov(RCX, s2), Mov(RAX, s1), Arith(OR64, RCX, RCX)]
    else if IsSignedDiv(op) then [Movsxd(RCX, s2), Movsxd(RAX, s1), Arith(OR64, RCX, RCX)]
    else [Mov32(RCX, s2), Mov32(RAX, s1), Arith(OR64, RCX, RCX)]
  }

  function ByZero(op: MulOp, word: bool, d: HReg, s1: HReg): seq<Op>
  {
    if !IsRem(op) then [MovImm(d, -1)]
    else if op == REMU && word then MovUnless(d, s1)
    else [Mov(d, RAX)]
  }

  function ByMinusOne(op: MulOp, word: bool, d: HReg): seq<Op>
  {
    if IsRem(op) then Zero(d)
    else if word then [Neg32(RAX), Movsxd(RAX, RAX), Mov(d, RAX)]
    else [Neg(RAX), Mov(d, RAX)]
  }

  /** Moves the quotient or the remainder to its destination. */
  function Result(op: MulOp, word: bool, d: HReg): seq<Op>
  {
    var r := if IsRem(op) then RDX else RAX;
    if word then [Mov32(d, r), Movsxd(d, d)] else [Mov(d, r)]
  }

  function SignedDivide(op: MulOp, word: bool, d: HReg): seq<Op>
  {
    (if word then [Cdq, Idiv32(RCX)] else [Cqo, Idiv(RCX)]) + Result(op, word, d)
  }

  function UnsignedDivide(op: MulOp, word: bool, d: HReg): seq<Op>
  {
    [Arith(XOR64, RDX, RDX), if word then Div32(RCX) else Div(RCX)] + Result(op, word, d)
  }

  function ByNonZero(op: MulOp, word: bool, d: HReg): seq<Op>
  {
    if IsSignedDiv(op) then
      [ArithImm(CMP64, RCX, -1)] + IfElse(NE, SignedDivide(op, word, d), ByMinusOne(op, word, d))
    else UnsignedDivide(op, word, d)
  }

  function DivCode(op: MulOp, word: bool, d: HReg, s1: HReg, s2: HReg): seq<Op>
  {
    DivSetup(op, word, s1, s2) + IfElse(NE, ByNonZero(op, word, d), ByZero(op, word, d, s1))
  }

  /** The operands as the setup leaves them. */
  function Operand64(op: MulOp, word: bool, v: Word): Word
  {
    if !word then v else if IsSignedDiv(op) then Sext32(v) else U32(v)
  }

  lemma SetupRuns(env: Env, m: Machine, op: MulOp, word: bool, d: HReg, s1: HReg, s2: HReg) returns (m1: Machine)
    requires Pooled(d) && Pooled(s1) && Pooled(s2)
    ensures Exec(env, DivSetup(op, word, s1, s2), Run(m)) == Run(m1)
    ensures m1 == m.(regs := m1.regs, flags := m1.flags)
    ensures forall r: HReg | r >= 2 :: m1.regs[r] == m.regs[r]
    ensures m1.regs[RCX] == Operand64(op, word, m.regs[s2]) && m1.regs[RAX] == Operand64(op, word, m.regs[s1])
    ensures m1.flags == Compared(m1.regs[RCX], 0)
  {
    hide Exec, Shift64, Shift32, Bits;
    var a := if !word then Mov(RCX, s2) else if IsSignedDiv(op) then Movsxd(RCX, s2) else Mov32(RCX, s2);
    var b := if !word then Mov(RAX, s1) else if IsSignedDiv(op) then Movsxd(RAX, s1) else Mov32(RAX, s1);
    assert DivSetup(op, word, s1, s2) == [a, b, Arith(OR64, RCX, RCX)];
    Exec3(env, a, b, Arith(OR64, RCX, RCX), Run(m));
    BitsSelf(Operand64(op, word, m.regs[s2]));
    m1 := Exec(env, DivSetup(op, word, s1, s2), Run(m)).m;
  }

  lemma ByZeroComputes(env: Env, m: Machine, op: MulOp, word: bool, d: HReg, s1: HReg)
    requires Pooled(d) && Pooled(s1) && op in {DIV, DIVU, REM, REMU}
    requires m.regs[RAX] == Operand64(op, word, m.regs[s1])
    ensures Computes(env, ByZero(op, word, d, s1), m, d, HandleM(op, word, m.regs[s1], 0))
  {
    if !IsRem(op) { Exec1(env, MovImm(d, -1), Run(m)); }
    else if op == REMU && word { MovComputes(env, m, d, s1); }
    else { Exec1(env, Mov(d, RAX), Run(m)); }
  }

  /** Quotient by -1 is negation, which wraps for the least value; remainder is zero. */
  lemma ByMinusOneComputes(env: Env, m: Machine, op: MulOp, word: bool, d: HReg, a: Word, b: Word)
    requires Pooled(d) && IsSignedDiv(op)
    requires m.regs[RAX] == Operand64(op, word, a) && Operand64(op, word, b) == M64 - 1
    ensures Computes(env, ByMinusOne(op, word, d), m, d, HandleM(op, word, a, b))
  {
    hide Exec, Shift64, Shift32, Bits, HandleM;
    MinusOneValue(op, word, a, b);
    if IsRem(op) {
      ZeroComputes(env, m, d);
    } else if word {
      Exec3(env, Neg32(RAX), Movsxd(RAX, RAX), Mov(d, RAX), Run(m));
      NegLow(a);
    } else {
      Exec2(env, Neg(RAX), Mov(d, RAX), Run(m));
    }
  }

  lemma NegLow(a: Word)
    ensures Sext32(U32(-(Sext32(a) as int))) == Sext32(-S32(a))
  {
    var s := S32(a);
    var u := Sext32(a);
    SameLow(U32(-u), -u, -(-u / M32));
    SameLow(-u, -s, if s < 0 then -M32 else 0);
  }

  lemma MinusOneValue(op: MulOp, word: bool, a: Word, b: Word)
    requires IsSignedDiv(op) && Operand64(op, word, b) == M64 - 1
    ensures HandleM(op, word, a, b) ==
            if IsRem(op) then 0 else if word then Sext32(-S32(a)) else Sub(0, a)
  {
    var n, k := if word then S32(a) else S64(a), if word then S32(b) else S64(b);
    assert k == -1;
    assert TruncDiv(n, k) == -n && TruncRem(n, k) == 0 by {
      DivModUnique(Abs(n), 1, Abs(n), 0);
    }
    if word && n == -0x8000_0000 { SameLow(-n, n, 1); }
  }

  lemma Sext32Parts(a: Word)
    ensures U32(Sext32(a)) == U32(a) && S32(Sext32(a)) == S32(a)
    ensures Sext32(a) == M64 - 1 <==> S32(a) == -1
    ensures Sext32(a) == 0 <==> S32(a) == 0
  {
    Truncates(S32(a));
  }

  lemma Truncates(x: int)
    ensures U64(x) % M32 == x % M32
  {
    SameRemainder(U64(x), x, -(x / M64 * M32));
  }

  lemma SameRemainder(x: int, y: int, k: int)
    requires x == y + M32 * k
    ensures x % M32 == y % M32
  {
  }

  /** The signed quotient of two in-range operands is in range unless it is MIN / -1. */
  lemma QuotientFits(n: int, k: int, half: nat)
    requires k != 0 && k != -1 && 0 - half <= n < half
    ensures 0 - half <= TruncDiv(n, k) < half
    ensures n == 0 ==> TruncDiv(n, k) == 0
  {
    TruncDivMod(n, k);
    if Abs(k) == 1 { DivModUnique(Abs(n), 1, Abs(n), 0); }
  }

  /** The divide itself, dividend sign-extended: no #DE, and the truncating results. */
  lemma IdivRuns(env: Env, m: Machine, word: bool, n: int, k: int) returns (m1: Machine)
    requires k != 0 && k != -1
    requires word ==> n == S32(m.regs[RAX]) && k == S32(m.regs[RCX])
    requires !word ==> n == S64(m.regs[RAX]) && k == S64(m.regs[RCX])
    ensures Exec(env, if word then [Cdq, Idiv32(RCX)] else [Cqo, Idiv(RCX)], Run(m)) == Run(m1)
    ensures Only(m, m1, RAX)
    ensures m1.regs[RAX] == (if word then U32(TruncDiv(n, k)) else U64(TruncDiv(n, k)))
    ensures m1.regs[RDX] == (if word then U32(TruncRem(n, k)) else U64(TruncRem(n, k)))
  {
    hide Exec, Do, TruncDiv, TruncRem, Divide;
    if word {
      var m0 := Set(m, RDX, if U32(m.regs[RAX]) >= 0x8000_0000 then M32 - 1 else 0);
      Exec2(env, Cdq, Idiv32(RCX), Run(m));
      DoIdiv32(env, m, m0);
      CdqDividend(m.regs[RAX]);
      QuotientFits(n, k, 0x8000_0000);
      DivideRuns(m0, n, k, -0x8000_0000, 0x7fff_ffff, false);
      m1 := m0.(flags := NoFlags, regs := m0.regs[RAX := U32(TruncDiv(n, k))][RDX := U32(TruncRem(n, k))]);
    } else {
      var m0 := Set(m, RDX, if m.regs[RAX] >= 0x8000_0000_0000_0000 then M64 - 1 else 0);
      Exec2(env, Cqo, Idiv(RCX), Run(m));
      DoIdiv(env, m, m0);
      QuotientFits(n, k, 0x8000_0000_0000_0000);
      DivideRuns(m0, n, k, -0x8000_0000_0000_0000, 0x7fff_ffff_ffff_ffff, true);
      m1 := m0.(flags := NoFlags, regs := m0.regs[RAX := U64(TruncDiv(n, k))][RDX := U64(TruncRem(n, k))]);
    }
  }

  lemma DoIdiv32(env: Env, m: Machine, m0: Machine)
    requires m0 == Set(m, RDX, if U32(m.regs[RAX]) >= 0x8000_0000 then M32 - 1 else 0)
    ensures Do(env, Cdq, Run(m)) == Run(m0)
    ensures Do(env, Idiv32(RCX), Run(m0)) ==
            Divide(m0, S32(m0.regs[RDX]) * M32 + U32(m0.regs[RAX]), S32(m0.regs[RCX]), -0x8000_0000, 0x7fff_ffff, true,
                   false)
  {
    hide Divide;
  }

  lemma DoIdiv(env: Env, m: Machine, m0: Machine)
    requires m0 == Set(m, RDX, if m.regs[RAX] >= 0x8000_0000_0000_0000 then M64 - 1 else 0)
    ensures Do(env, Cqo, Run(m)) == Run(m0)
    ensures Do(env, Idiv(RCX), Run(m0)) ==
            Divide(m0, S64(m0.regs[RDX]) * M64 + m0.regs[RAX], S64(m0.regs[RCX]), -0x8000_0000_0000_0000,
                   0x7fff_ffff_ffff_ffff, true, true)
  {
    hide Divide;
  }

  lemma DivideRuns(m: Machine, n: int, k: int, lo: int, hi: int, wide: bool)
    requires k != 0 && lo <= TruncDiv(n, k) <= hi
    ensures Divide(m, n, k, lo, hi, true, wide) ==
            Run(m.(flags := NoFlags,
                   regs := if wide then m.regs[RAX := U64(TruncDiv(n, k))][RDX := U64(TruncRem(n, k))]
                           else m.regs[RAX := U32(TruncDiv(n, k))][RDX := U32(TruncRem(n, k))]))
  {
  }

  lemma CdqDividend(a: Word)
    ensures S32(if U32(a) >= 0x8000_0000 then M32 - 1 else 0) * M32 + U32(a) == S32(a)
  {
  }

  lemma ResultComputes(env: Env, m: Machine, op: MulOp, word: bool, d: HReg, v: int)
    requires Pooled(d)
    requires m.regs[if IsRem(op) then RDX else RAX] == if word then U32(v) else U64(v)
    ensures Computes(env, Result(op, word, d), m, d, if word then Sext32(v) else U64(v))
  {
    hide Exec, Shift64, Shift32, Bits;
    var r := if IsRem(op) then RDX else RAX;
    if word {
      Exec2(env, Mov32(d, r), Movsxd(d, d), Run(m));
      SameLow(U32(v), v, -(v / M32));
      assert U32(v) % M32 == U32(v);
    } else {
      Exec1(env, Mov(d, r), Run(m));
    }
  }

  /** What a divide with a divisor other than zero (and, signed, other than -1) yields. */
  function Quotient(op: MulOp, word: bool, n: int, k: int): Word
    requires k != 0
  {
    var v := match op
      case DIV => TruncDiv(n, k)
      case REM => TruncRem(n, k)
      case DIVU => n / k
      case _ => n % k;
    if word then Sext32(v) else U64(v)
  }

  /** An operand's value as the divide reads it. */
  function Reading(op: MulOp, word: bool, a: Word): int
  {
    if IsSignedDiv(op) then (if word then S32(a) else S64(a)) else (if word then U32(a) else a)
  }

  lemma QuotientMatches(op: MulOp, word: bool, a: Word, b: Word)
    requires op in {DIV, DIVU, REM, REMU}
    requires Reading(op, word, b) != 0 && !(IsSignedDiv(op) && Reading(op, word, b) == -1)
    ensures HandleM(op, word, a, b) == Quotient(op, word, Reading(op, word, a), Reading(op, word, b))
  {
    var n, k := Reading(op, word, a), Reading(op, word, b);
    if IsSignedDiv(op) {
      QuotientFits(n, k, 0x8000_0000_0000_0000);
    } else if n == 0 {
      DivModUnique(0, k, 0, 0);
    }
  }

  lemma SignedDivideComputes(env: Env, m: Machine, op: MulOp, word: bool, d: HReg, a: Word, b: Word)
    requires Pooled(d) && IsSignedDiv(op)
    requires m.regs[RAX] == Operand64(op, word, a) && m.regs[RCX] == Operand64(op, word, b)
    requires Reading(op, word, b) != 0 && Reading(op, word, b) != -1
    ensures Computes(env, SignedDivide(op, word, d), m, d,
                     Quotient(op, word, Reading(op, word, a), Reading(op, word, b)))
  {
    hide Exec, Do, Result, TruncDiv, TruncRem;
    if word { Sext32Parts(a); Sext32Parts(b); }
    var n, k := Reading(op, word, a), Reading(op, word, b);
    var m1 := IdivRuns(env, m, word, n, k);
    AfterDivide(env, m, m1, if word then [Cdq, Idiv32(RCX)] else [Cqo, Idiv(RCX)], op, word, d,
                if IsRem(op) then TruncRem(n, k) else TruncDiv(n, k));
  }

  lemma DivStep64(env: Env, m: Machine, word: bool, q: Word, r: Word)
    requires m.regs[RCX] != 0 && m.regs[RDX] == 0
    requires word ==> m.regs[RCX] < M32 && m.regs[RAX] < M32 && q < M32 && r < M32
    requires q == m.regs[RAX] / m.regs[RCX] && r == m.regs[RAX] % m.regs[RCX]
    ensures Step(env, if word then Div32(RCX) else Div(RCX), m)
         == Run(m.(regs := m.regs[RAX := q][RDX := r], flags := NoFlags))
  {
    hide Divide;
    var n: int, k: int := m.regs[RAX], m.regs[RCX];
    if word {
      assert U32(m.regs[RDX]) * M32 + U32(n) == n && U32(k) == k && U32(q) == q && U32(r) == r;
      UnsignedRuns(m, n, k, M32 - 1, false);
    } else {
      assert m.regs[RDX] * M64 + n == n && U64(q) == q && U64(r) == r;
      UnsignedRuns(m, n, k, M64 - 1, true);
    }
  }

  lemma UnsignedRuns(m: Machine, n: int, k: int, hi: int, wide: bool)
    requires k > 0 && 0 <= n / k <= hi
    ensures var q, r := if wide then U64(n / k) else U32(n / k), if wide then U64(n % k) else U32(n % k);
      Divide(m, n, k, 0, hi, false, wide) == Run(m.(regs := m.regs[RAX := q][RDX := r], flags := NoFlags))
  {
  }

  lemma DivSmaller(n: nat, k: nat)
    requires k > 0
    ensures 0 <= n / k <= n && 0 <= n % k < k && n % k <= n
  {
    ModBound(n, k);
    assert n == k * (n / k) + n % k;
    assert n / k >= 0;
    MulMono(n / k, 1, k);
    assert k * (n / k) == (n / k) * k;
  }

  lemma UnsignedDivideComputes(env: Env, m: Machine, op: MulOp, word: bool, d: HReg, a: Word, b: Word)
    requires Pooled(d) && op in {DIVU, REMU}
    requires m.regs[RAX] == Operand64(op, word, a) && m.regs[RCX] == Operand64(op, word, b)
    requires Reading(op, word, b) != 0
    ensures Computes(env, UnsignedDivide(op, word, d), m, d,
                     Quotient(op, word, Reading(op, word, a), Reading(op, word, b)))
  {
    var n, k := m.regs[RAX], m.regs[RCX];
    DivSmaller(n, k);
    DivStep64(env, Cleared(m), word, n / k, n % k);
    UnsignedDivideRuns(env, m, op, word, d, n / k, n % k);
  }

  /** The machine after `xor rdx, rdx`. */
  function Cleared(m: Machine): Machine { m.(regs := m.regs[RDX := 0], flags := Compared(0, 0)) }

  lemma UnsignedDivideRuns(env: Env, m: Machine, op: MulOp, word: bool, d: HReg, q: Word, r: Word)
    requires Pooled(d) && (word ==> q < M32 && r < M32)
    requires Step(env, if word then Div32(RCX) else Div(RCX), Cleared(m))
          == Run(m.(regs := m.regs[RAX := q][RDX := r], flags := NoFlags))
    ensures var v := if IsRem(op) then r else q;
            Computes(env, UnsignedDivide(op, word, d), m, d, if word then Sext32(v) else U64(v))
  {
    hide Exec, Shift64, Shift32, Bits, Divide, Result;
    var m1 := m.(regs := m.regs[RAX := q][RDX := r], flags := NoFlags);
    var xor, div := Arith(XOR64, RDX, RDX), if word then Div32(RCX) else Div(RCX);
    assert Exec(env, [xor, div], Run(m)) == Run(m1) by {
      Exec2(env, xor, div, Run(m));
      BitsSelf(m.regs[RDX]);
    }
    AfterDivide(env, m, m1, [xor, div], op, word, d, if IsRem(op) then r else q);
  }

  lemma AfterDivide(env: Env, m: Machine, m1: Machine, pre: seq<Op>, op: MulOp, word: bool, d: HReg, v: int)
    requires Pooled(d) && Exec(env, pre, Run(m)) == Run(m1) && Only(m, m1, RAX)
    requires m1.regs[if IsRem(op) then RDX else RAX] == if word then U32(v) else U64(v)
    ensures Computes(env, pre + Result(op, word, d), m, d, if word then Sext32(v) else U64(v))
  {
    hide Exec, Do, Result;
    ExecAppend(env, pre, Result(op, word, d), Run(m));
    ResultComputes(env, m1, op, word, d, v);
  }

  lemma ByNonZeroComputes(env: Env, m: Machine, op: MulOp, word: bool, d: HReg, a: Word, b: Word)
    requires Pooled(d) && op in {DIV, DIVU, REM, REMU}
    requires m.regs[RAX] == Operand64(op, word, a) && m.regs[RCX] == Operand64(op, word, b)
    requires m.regs[RCX] != 0
    ensures Computes(env, ByNonZero(op, word, d), m, d, HandleM(op, word, a, b))
  {
    hide Exec, HandleM, ByMinusOne, UnsignedDivide, Quotient, Operand64, Reading;
    ReadingOf(op, word, b);
    if IsSignedDiv(op) {
      var cmp := ArithImm(CMP64, RCX, -1);
      var m1 := Step(env, cmp, m).m;
      var thn, els := SignedDivide(op, word, d), ByMinusOne(op, word, d);
      ExecCons(env, cmp, IfElse(NE, thn, els), Run(m));
      MinusOneRuns(env, m1, op, word, d);
      ExecIfElse(env, NE, thn, els, m1);
      if m.regs[RCX] == M64 - 1 {
        ByMinusOneComputes(env, m1, op, word, d, a, b);
      } else {
        SignedDivideComputes(env, m1, op, word, d, a, b);
        QuotientMatches(op, word, a, b);
      }
    } else {
      UnsignedDivideComputes(env, m, op, word, d, a, b);
      QuotientMatches(op, word, a, b);
    }
  }

  lemma ReadingOf(op: MulOp, word: bool, b: Word)
    ensures Operand64(op, word, b) == 0 <==> Reading(op, word, b) == 0
    ensures IsSignedDiv(op) ==> (Operand64(op, word, b) == M64 - 1 <==> Reading(op, word, b) == -1)
  {
    if word { Sext32Parts(b); }
  }

  lemma MinusOneRuns(env: Env, m: Machine, op: MulOp, word: bool, d: HReg)
    ensures Exec(env, ByMinusOne(op, word, d), Run(m)).Run?
  {
    if IsRem(op) { ZeroComputes(env, m, d); }
    else if word { Exec3(env, Neg32(RAX), Movsxd(RAX, RAX), Mov(d, RAX), Run(m)); }
    else { Exec2(env, Neg(RAX), Mov(d, RAX), Run(m)); }
  }

  /** Division and remainder, for every dividend, divisor and aliasing: the code never
      faults and leaves in `d` what the handler writes to rd. */
  lemma DivComputes(env: Env, m: Machine, op: MulOp, word: bool, d: HReg, s1: HReg, s2: HReg)
    requires Pooled(d) && Pooled(s1) && Pooled(s2) && op in {DIV, DIVU, REM, REMU}
    ensures Computes(env, DivCode(op, word, d, s1, s2), m, d, HandleM(op, word, m.regs[s1], m.regs[s2]))
  {
    hide Exec, Do, HandleM, ByZero, DivSetup, IfElse, UnsignedDivide, SignedDivide;
    assert ByNonZero(op, word, d) != [] by { NonZeroEmits(op, word, d); }
    var a, b := m.regs[s1], m.regs[s2];
    var thn, els := ByNonZero(op, word, d), ByZero(op, word, d, s1);
    var m1 := SetupRuns(env, m, op, word, d, s1, s2);
    ExecAppend(env, DivSetup(op, word, s1, s2), IfElse(NE, thn, els), Run(m));
    ByZeroComputes(env, m1, op, word, d, s1);
    ExecIfElse(env, NE, thn, els, m1);
    if m1.regs[RCX] != 0 {
      ByNonZeroComputes(env, m1, op, word, d, a, b);
    } else {
      ZeroDivisor(op, word, a, b);
    }
  }

  lemma NonZeroEmits(op: MulOp, word: bool, d: HReg)
    ensures ByNonZero(op, word, d) != []
  {
  }

  lemma ZeroDivisor(op: MulOp, word: bool, a: Word, b: Word)
    requires op in {DIV, DIVU, REM, REMU} && Operand64(op, word, b) == 0
    ensures HandleM(op, word, a, b) == HandleM(op, word, a, 0)
  {
    if word { Sext32Parts(b); }
  }

  /** emit_m_r_to's general path. */
  function MCode(op: MulOp, word: bool, d: HReg, s1: HReg, s2: HReg): seq<Op>
  {
    if op == MUL then MulLowCode(word, d, s1, s2)
    else if IsMul(op) then HighCode(op, d, s1, s2)
    else DivCode(op, word, d, s1, s2)
  }

  lemma MCodeComputes(env: Env, m: Machine, op: MulOp, word: bool, d: HReg, s1: HReg, s2: HReg)
    requires Pooled(d) && Pooled(s1) && Pooled(s2)
    requires word ==> op in {MUL, DIV, DIVU, REM, REMU}
    ensures Computes(env, MCode(op, word, d, s1, s2), m, d, HandleM(op, word, m.regs[s1], m.regs[s2]))
  {
    hide Exec, HandleM, Computes, MulLowCode, HighCode, DivCode;
    if op == MUL {
      MulLowComputes(env, m, word, d, s1, s2);
    } else if IsMul(op) {
      HighComputes(env, m, op, d, s1, s2);
    } else {
      DivComputes(env, m, op, word, d, s1, s2);
    }
  }
}
