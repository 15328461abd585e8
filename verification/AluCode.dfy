/** Code selection for the register and immediate forms (emit_r_to, emit_i_to), and
    its correctness for every aliasing of the destination with the sources. */
module AluCode {
  import opened Words
  import opened Guest
  import opened Host
  import opened Translators

  /** Allocator-pool registers: never RAX, RCX or RDX. */
  predicate Pooled(r: HReg) { r >= 3 }

  /** `m'` differs from `m` in register `d`, the scratch registers and the flags only. */
  ghost predicate Only(m: Machine, m': Machine, d: HReg)
  {
    && m'.gpr == m.gpr && m'.ram == m.ram
    && m'.entry == m.entry && m'.exit == m.exit && m'.budget == m.budget
    && forall r: HReg | r >= 3 && r != d :: m'.regs[r] == m.regs[r]
  }

  /** The code runs to its end and leaves `v` in `d`, disturbing nothing else. */
  ghost predicate Computes(env: Env, code: seq<Op>, m: Machine, d: HReg, v: Word)
  {
    var st := Exec(env, code, Run(m));
    st.Run? && Only(m, st.m, d) && st.m.regs[d] == v
  }

  /** (int32_t) casts on the way into the emitter's immediates. */
  function Int32(imm: int): int { S32(imm) }

  lemma Int32Small(imm: int)
    requires -0x8000_0000 <= imm < 0x8000_0000
    ensures Int32(imm) == imm
  {
  }

  function Zero(d: HReg): seq<Op> { [Arith(XOR64, d, d)] }

  function MovUnless(d: HReg, s: HReg): seq<Op> { if d == s then [] else [Mov(d, s)] }

  function BitArith(op: AluOp): ArithOp { if op == XOR then XOR64 else if op == OR then OR64 else AND64 }

  /** The body of emit_r_to's switch.  r1 and r2 say whether the source is not x0. */
  function RCode(op: AluOp, word: bool, r1: bool, r2: bool, d: HReg, s1: HReg, s2: HReg): seq<Op>
  {
    if op == ADD then AddCode(r1, r2, d, s1, s2)
    else if op == SUB then SubCode(r1, r2, d, s1, s2)
    else if op == XOR || op == OR || op == AND then BitCode(op, r1, r2, d, s1, s2)
    else if op == SLL || op == SRL || op == SRA then ShiftCode(op, word, r1, r2, d, s1, s2)
    else LessCode(op, r1, r2, d, s1, s2)
  }

  function AddCode(r1: bool, r2: bool, d: HReg, s1: HReg, s2: HReg): seq<Op>
  {
    if !r1 && !r2 then Zero(d)
    else if !r1 then MovUnless(d, s2)
    else if !r2 then MovUnless(d, s1)
    else if d == s1 then [Arith(ADD64, d, s2)]
    else if d == s2 then [Arith(ADD64, d, s1)]
    else [Mov(d, s1), Arith(ADD64, d, s2)]
  }

  function SubCode(r1: bool, r2: bool, d: HReg, s1: HReg, s2: HReg): seq<Op>
  {
    if !r1 && !r2 then Zero(d)
    else if !r2 then MovUnless(d, s1)
    else if !r1 then
      if d == s2 then [Mov(RCX, s2), Neg(RCX), Mov(d, RCX)]
      else [Arith(XOR64, d, d), Arith(SUB64, d, s2)]
    else if d == s1 then [Arith(SUB64, d, s2)]
    else if d == s2 then [Mov(RCX, s1), Arith(SUB64, RCX, s2), Mov(d, RCX)]
    else [Mov(d, s1), Arith(SUB64, d, s2)]
  }

  function BitCode(op: AluOp, r1: bool, r2: bool, d: HReg, s1: HReg, s2: HReg): seq<Op>
  {
    if !r1 && !r2 then Zero(d)
    else if !r1 then (if op == AND then Zero(d) else MovUnless(d, s2))
    else if !r2 then (if op == AND then Zero(d) else MovUnless(d, s1))
    else if d == s1 then [Arith(BitArith(op), d, s2)]
    else if d == s2 then [Arith(BitArith(op), d, s1)]
    else [Mov(d, s1), Arith(BitArith(op), d, s2)]
  }

  function ShiftCode(op: AluOp, word: bool, r1: bool, r2: bool, d: HReg, s1: HReg, s2: HReg): seq<Op>
  {
    if !r1 && !r2 then Zero(d)
    else if !r2 then MovUnless(d, s1)
    else if !r1 then Zero(d)
    else [Mov(RCX, s2)] + MovUnless(d, s1) + [if word then ShiftCl32(ShiftOf(op), d) else ShiftCl(ShiftOf(op), d)]
  }

  /** t := (p c q) as 0 or 1. */
  function CompareCode(c: Cond, p: HReg, q: HReg, t: HReg): seq<Op>
  {
    [Arith(CMP64, p, q), SetCc(c, t), Movzx8(t, t)]
  }

  function LessCode(op: AluOp, r1: bool, r2: bool, d: HReg, s1: HReg, s2: HReg): seq<Op>
  {
    var c := if op == SLT then L else B;
    if !r1 && !r2 then Zero(d)
    else if !r1 then
      if d == s2 then Zero(RCX) + CompareCode(c, RCX, s2, RCX) + [Mov(d, RCX)]
      else Zero(d) + CompareCode(c, d, s2, d)
    else if !r2 then
      if d == s1 then Zero(RCX) + CompareCode(c, s1, RCX, RCX) + [Mov(d, RCX)]
      else Zero(d) + CompareCode(c, s1, d, d)
    else CompareCode(c, s1, s2, d)
  }

  lemma ZeroComputes(env: Env, m: Machine, d: HReg)
    ensures Computes(env, Zero(d), m, d, 0)
  {
    Exec1(env, Arith(XOR64, d, d), Run(m));
    BitsSelf(m.regs[d]);
  }

  lemma MovComputes(env: Env, m: Machine, d: HReg, s: HReg)
    ensures Computes(env, MovUnless(d, s), m, d, m.regs[s])
  {
    if d != s { Exec1(env, Mov(d, s), Run(m)); }
  }

  lemma AddComputes(env: Env, m: Machine, r1: bool, r2: bool, d: HReg, s1: HReg, s2: HReg)
    requires Pooled(d) && Pooled(s1) && Pooled(s2)
    ensures Computes(env, AddCode(r1, r2, d, s1, s2), m, d,
                     Add(if r1 then m.regs[s1] else 0, if r2 then m.regs[s2] else 0))
  {
    hide Exec, Shift64, Shift32, Bits, Divide;
    if !r1 && !r2 { ZeroComputes(env, m, d); }
    else if !r1 { MovComputes(env, m, d, s2); }
    else if !r2 { MovComputes(env, m, d, s1); }
    else if d == s1 { Exec1(env, Arith(ADD64, d, s2), Run(m)); }
    else if d == s2 { Exec1(env, Arith(ADD64, d, s1), Run(m)); }
    else { Exec2(env, Mov(d, s1), Arith(ADD64, d, s2), Run(m)); }
  }

  lemma SubComputes(env: Env, m: Machine, r1: bool, r2: bool, d: HReg, s1: HReg, s2: HReg)
    requires Pooled(d) && Pooled(s1) && Pooled(s2)
    ensures Computes(env, SubCode(r1, r2, d, s1, s2), m, d,
                     Sub(if r1 then m.regs[s1] else 0, if r2 then m.regs[s2] else 0))
  {
    hide Exec, Shift64, Shift32, Bits, Divide;
    if !r1 && !r2 { ZeroComputes(env, m, d); }
    else if !r2 { MovComputes(env, m, d, s1); }
    else if !r1 {
      if d == s2 { Exec3(env, Mov(RCX, s2), Neg(RCX), Mov(d, RCX), Run(m)); }
      else {
        Exec2(env, Arith(XOR64, d, d), Arith(SUB64, d, s2), Run(m));
        BitsSelf(m.regs[d]);
      }
    }
    else if d == s1 { Exec1(env, Arith(SUB64, d, s2), Run(m)); }
    else if d == s2 { Exec3(env, Mov(RCX, s1), Arith(SUB64, RCX, s2), Mov(d, RCX), Run(m)); }
    else { Exec2(env, Mov(d, s1), Arith(SUB64, d, s2), Run(m)); }
  }

  lemma BitComputes(env: Env, m: Machine, op: AluOp, r1: bool, r2: bool, d: HReg, s1: HReg, s2: HReg)
    requires Pooled(d) && Pooled(s1) && Pooled(s2) && op in {XOR, OR, AND}
    ensures Computes(env, BitCode(op, r1, r2, d, s1, s2), m, d,
                     BitW(BitOpOf(op), if r1 then m.regs[s1] else 0, if r2 then m.regs[s2] else 0))
  {
    hide Exec, Shift64, Shift32, Bits, Divide;
    var a, b := m.regs[s1], m.regs[s2];
    var o := BitOpOf(op);
    if !r1 && !r2 {
      BitsZero(o, 0);
      ZeroComputes(env, m, d);
    } else if !r1 {
      BitsCommute(o, b, 0);
      BitsZero(o, b);
      if op == AND { ZeroComputes(env, m, d); } else { MovComputes(env, m, d, s2); }
    } else if !r2 {
      BitsZero(o, a);
      if op == AND { ZeroComputes(env, m, d); } else { MovComputes(env, m, d, s1); }
    } else if d == s1 {
      Exec1(env, Arith(BitArith(op), d, s2), Run(m));
    } else if d == s2 {
      Exec1(env, Arith(BitArith(op), d, s1), Run(m));
      BitsCommute(o, a, b);
    } else {
      Exec2(env, Mov(d, s1), Arith(BitArith(op), d, s2), Run(m));
    }
  }

  /** The value before sign extension: its low half decides the W form. */
  lemma ShiftComputes(env: Env, m: Machine, op: AluOp, word: bool, r1: bool, r2: bool, d: HReg, s1: HReg, s2: HReg)
    returns (v: Word)
    requires Pooled(d) && Pooled(s1) && Pooled(s2) && op in {SLL, SRL, SRA}
    ensures Computes(env, ShiftCode(op, word, r1, r2, d, s1, s2), m, d, v)
    ensures var a, b := if r1 then m.regs[s1] else 0, if r2 then m.regs[s2] else 0;
            if word then Sext32(v) == Sext32(Shift32(ShiftOf(op), a, b % 32)) else v == Shift64(ShiftOf(op), a, b % 64)
  {
    hide Exec, Shift64, Shift32, Bits, Divide;
    var code := ShiftCode(op, word, r1, r2, d, s1, s2);
    if !r1 {
      v := 0;
      ZeroComputes(env, m, d);
      ShiftZeroes(ShiftOf(op), 0, if r2 then m.regs[s2] % 64 else 0);
      ShiftZeroes(ShiftOf(op), 0, if r2 then m.regs[s2] % 32 else 0);
    } else if !r2 {
      v := m.regs[s1];
      MovComputes(env, m, d, s1);
      ShiftZeroes(ShiftOf(op), v, 0);
      assert v % M32 % M32 == v % M32;
    } else {
      var last := if word then ShiftCl32(ShiftOf(op), d) else ShiftCl(ShiftOf(op), d);
      v := if word then Shift32(ShiftOf(op), m.regs[s1], m.regs[s2] % 32)
           else Shift64(ShiftOf(op), m.regs[s1], m.regs[s2] % 64);
      if d == s1 {
        assert code == [Mov(RCX, s2), last];
        Exec2(env, Mov(RCX, s2), last, Run(m));
      } else {
        assert code == [Mov(RCX, s2), Mov(d, s1), last];
        Exec3(env, Mov(RCX, s2), Mov(d, s1), last, Run(m));
      }
    }
  }

  lemma CompareComputes(env: Env, m: Machine, c: Cond, p: HReg, q: HReg, t: HReg)
    ensures Computes(env, CompareCode(c, p, q, t), m, t, if Holds(c, m.regs[p], m.regs[q]) then 1 else 0)
  {
    hide Exec, Shift64, Shift32, Bits, Divide;
    Exec3(env, Arith(CMP64, p, q), SetCc(c, t), Movzx8(t, t), Run(m));
    LowByte(m.regs[t], if Holds(c, m.regs[p], m.regs[q]) then 1 else 0);
  }

  lemma LowByte(x: Word, b: int)
    requires 0 <= b < 256
    ensures (x - x % 256 + b) % 256 == b
  {
  }

  /** Clearing t first makes a compare with t a compare with zero. */
  lemma CompareZeroed(env: Env, m: Machine, c: Cond, p: HReg, q: HReg, t: HReg)
    ensures Computes(env, Zero(t) + CompareCode(c, p, q, t), m, t,
                     if Holds(c, if p == t then 0 else m.regs[p], if q == t then 0 else m.regs[q]) then 1 else 0)
  {
    ExecAppend(env, Zero(t), CompareCode(c, p, q, t), Run(m));
    Exec1(env, Arith(XOR64, t, t), Run(m));
    BitsSelf(m.regs[t]);
    CompareComputes(env, Exec(env, Zero(t), Run(m)).m, c, p, q, t);
  }

  lemma CompareVia(env: Env, m: Machine, c: Cond, p: HReg, q: HReg, d: HReg)
    requires Pooled(d)
    ensures Computes(env, Zero(RCX) + CompareCode(c, p, q, RCX) + [Mov(d, RCX)], m, d,
                     if Holds(c, if p == RCX then 0 else m.regs[p], if q == RCX then 0 else m.regs[q]) then 1 else 0)
  {
    var pre := Zero(RCX) + CompareCode(c, p, q, RCX);
    CompareZeroed(env, m, c, p, q, RCX);
    ExecAppend(env, pre, [Mov(d, RCX)], Run(m));
    Exec1(env, Mov(d, RCX), Exec(env, pre, Run(m)));
  }

  lemma LessComputes(env: Env, m: Machine, op: AluOp, r1: bool, r2: bool, d: HReg, s1: HReg, s2: HReg)
    requires Pooled(d) && Pooled(s1) && Pooled(s2) && op in {SLT, SLTU}
    ensures Computes(env, LessCode(op, r1, r2, d, s1, s2), m, d,
                     HandleR(op, false, if r1 then m.regs[s1] else 0, if r2 then m.regs[s2] else 0))
  {
    hide Exec, Shift64, Shift32, Bits, Divide, Computes, CompareCode;
    var c := if op == SLT then L else B;
    if !r1 && !r2 {
      ZeroComputes(env, m, d);
    } else if !r1 {
      if d == s2 { CompareVia(env, m, c, RCX, s2, d); } else { CompareZeroed(env, m, c, d, s2, d); }
    } else if !r2 {
      if d == s1 { CompareVia(env, m, c, s1, RCX, d); } else { CompareZeroed(env, m, c, s1, d, d); }
    } else {
      CompareComputes(env, m, c, s1, s2, d);
    }
  }

  /** emit_r_to after its operands are in registers: switch plus sign extension. */
  function RFull(op: AluOp, word: bool, r1: bool, r2: bool, d: HReg, s1: HReg, s2: HReg): seq<Op>
  {
    RCode(op, word, r1, r2, d, s1, s2) + if word then [Movsxd(d, d)] else []
  }

  /** For every operation and every aliasing, the code leaves in `d` what the handler
      writes to rd, an x0 source counting as zero. */
  lemma RFullComputes(env: Env, m: Machine, op: AluOp, word: bool, r1: bool, r2: bool, d: HReg, s1: HReg, s2: HReg)
    requires Pooled(d) && Pooled(s1) && Pooled(s2)
    requires word ==> op in {ADD, SUB, SLL, SRL, SRA}
    ensures Computes(env, RFull(op, word, r1, r2, d, s1, s2), m, d,
                     HandleR(op, word, if r1 then m.regs[s1] else 0, if r2 then m.regs[s2] else 0))
  {
    hide Exec, Computes, RCode, HandleR, Sext32;
    var code := RCode(op, word, r1, r2, d, s1, s2);
    var v := RCodeComputes(env, m, op, word, r1, r2, d, s1, s2);
    if word {
      ThenSext(env, code, m, d, v);
    } else {
      assert code + [] == code;
    }
  }

  lemma ThenSext(env: Env, code: seq<Op>, m: Machine, d: HReg, v: Word)
    requires Computes(env, code, m, d, v)
    ensures Computes(env, code + [Movsxd(d, d)], m, d, Sext32(v))
  {
    ExecAppend(env, code, [Movsxd(d, d)], Run(m));
    Exec1(env, Movsxd(d, d), Exec(env, code, Run(m)));
  }

  lemma RCodeComputes(env: Env, m: Machine, op: AluOp, word: bool, r1: bool, r2: bool, d: HReg, s1: HReg, s2: HReg)
    returns (v: Word)
    requires Pooled(d) && Pooled(s1) && Pooled(s2)
    requires word ==> op in {ADD, SUB, SLL, SRL, SRA}
    ensures Computes(env, RCode(op, word, r1, r2, d, s1, s2), m, d, v)
    ensures HandleR(op, word, if r1 then m.regs[s1] else 0, if r2 then m.regs[s2] else 0) ==
            if word then Sext32(v) else v
  {
    hide Exec, Computes, AddCode, SubCode, BitCode, ShiftCode, LessCode, Shift64, Shift32, BitW, Sext32, S64;
    if op in {SLL, SRL, SRA} {
      v := ShiftComputes(env, m, op, word, r1, r2, d, s1, s2);
    } else if op in {ADD, SUB} {
      v := SumComputes(env, m, op, word, r1, r2, d, s1, s2);
    } else {
      v := HandleR(op, false, if r1 then m.regs[s1] else 0, if r2 then m.regs[s2] else 0);
      if op in {XOR, OR, AND} {
        BitComputes(env, m, op, r1, r2, d, s1, s2);
      } else {
        LessComputes(env, m, op, r1, r2, d, s1, s2);
      }
    }
  }

  lemma SumComputes(env: Env, m: Machine, op: AluOp, word: bool, r1: bool, r2: bool, d: HReg, s1: HReg, s2: HReg)
    returns (v: Word)
    requires Pooled(d) && Pooled(s1) && Pooled(s2) && op in {ADD, SUB}
    ensures Computes(env, RCode(op, word, r1, r2, d, s1, s2), m, d, v)
    ensures HandleR(op, word, if r1 then m.regs[s1] else 0, if r2 then m.regs[s2] else 0) ==
            if word then Sext32(v) else v
  {
    hide Exec, Computes, AddCode, SubCode, BitCode, ShiftCode, LessCode, Shift64, Shift32, BitW, S64;
    var a, b := if r1 then m.regs[s1] else 0, if r2 then m.regs[s2] else 0;
    if word { WordForms(a, b); }
    if op == ADD {
      v := Add(a, b);
      AddComputes(env, m, r1, r2, d, s1, s2);
    } else {
      v := Sub(a, b);
      SubComputes(env, m, r1, r2, d, s1, s2);
    }
  }

  // emit_i_to -------------------------------------------------------------------

  function CompareImmCode(c: Cond, p: HReg, imm: int, t: HReg): seq<Op>
  {
    [ArithImm(CMP64, p, Int32(imm)), SetCc(c, t), Movzx8(t, t)]
  }

  function ICode(op: AluOp, word: bool, r1: bool, d: HReg, s1: HReg, imm: int): seq<Op>
  {
    if op == ADD then
      if !r1 then [MovImm(d, Int32(imm))]
      else MovUnless(d, s1) + [ArithImm(ADD64, d, Int32(imm))]
    else if op == XOR || op == OR || op == AND then
      if !r1 then (if op == AND then Zero(d) else [MovImm(d, Int32(imm))])
      else MovUnless(d, s1) + [ArithImm(BitArith(op), d, Int32(imm))]
    else if op == SLL || op == SRL || op == SRA then
      if !r1 then Zero(d)
      else MovUnless(d, s1) + [if word then ShiftImm32(ShiftOf(op), d, imm % 64)
                               else ShiftImm(ShiftOf(op), d, imm % 64)]
    else
      var c := if op == SLT then L else B;
      if !r1 && imm == 0 then Zero(d)
      else if !r1 then Zero(d) + CompareImmCode(c, d, imm, d)
      else CompareImmCode(c, s1, imm, d)
  }

  function IFull(op: AluOp, word: bool, r1: bool, d: HReg, s1: HReg, imm: int): seq<Op>
  {
    ICode(op, word, r1, d, s1, imm) + if word then [Movsxd(d, d)] else []
  }

  /** A move followed by one operation on the destination. */
  lemma MovThen(env: Env, m: Machine, d: HReg, s: HReg, op: Op, v: Word)
    requires Computes(env, [op], Set(m, d, m.regs[s]), d, v)
    ensures Computes(env, MovUnless(d, s) + [op], m, d, v)
  {
    if d == s {
      assert MovUnless(d, s) + [op] == [op];
      assert Set(m, d, m.regs[s]) == m;
    } else {
      ExecAppend(env, MovUnless(d, s), [op], Run(m));
      Exec1(env, Mov(d, s), Run(m));
    }
  }

  lemma CompareImmComputes(env: Env, m: Machine, c: Cond, p: HReg, imm: int, t: HReg)
    requires SmallImm(imm)
    ensures Computes(env, CompareImmCode(c, p, imm, t), m, t, if Holds(c, m.regs[p], U64(imm)) then 1 else 0)
  {
    hide Exec, Shift64, Shift32, Bits, Divide;
    Int32Small(imm);
    Exec3(env, ArithImm(CMP64, p, imm), SetCc(c, t), Movzx8(t, t), Run(m));
    LowByte(m.regs[t], if Holds(c, m.regs[p], U64(imm)) then 1 else 0);
  }

  lemma SmallSigned(imm: int)
    requires SmallImm(imm)
    ensures S64(U64(imm)) == imm
  {
  }

  lemma LessImmComputes(env: Env, m: Machine, op: AluOp, r1: bool, d: HReg, s1: HReg, imm: int)
    requires Pooled(d) && Pooled(s1) && op in {SLT, SLTU} && SmallImm(imm)
    ensures Computes(env, ICode(op, false, r1, d, s1, imm), m, d,
                     HandleI(op, false, if r1 then m.regs[s1] else 0, imm))
  {
    hide Exec, Shift64, Shift32, Bits, Divide;
    var c := if op == SLT then L else B;
    SmallSigned(imm);
    if !r1 && imm == 0 {
      ZeroComputes(env, m, d);
    } else if !r1 {
      ExecAppend(env, Zero(d), CompareImmCode(c, d, imm, d), Run(m));
      ZeroComputes(env, m, d);
      CompareImmComputes(env, Exec(env, Zero(d), Run(m)).m, c, d, imm, d);
    } else {
      CompareImmComputes(env, m, c, s1, imm, d);
    }
  }

  lemma ICodeComputes(env: Env, m: Machine, op: AluOp, word: bool, r1: bool, d: HReg, s1: HReg, imm: int)
    returns (v: Word)
    requires Pooled(d) && Pooled(s1) && SmallImm(imm)
    requires op != SUB && (word ==> op in {ADD, SLL, SRL, SRA})
    requires op in {SLL, SRL, SRA} ==> 0 <= imm < (if word then 32 else 64)
    ensures Computes(env, ICode(op, word, r1, d, s1, imm), m, d, v)
    ensures HandleI(op, word, if r1 then m.regs[s1] else 0, imm) == if word then Sext32(v) else v
  {
    hide Exec, Shift64, Shift32, Bits, Divide, Computes, CompareImmCode;
    var a := if r1 then m.regs[s1] else 0;
    Int32Small(imm);
    if op == SLT || op == SLTU {
      v := HandleI(op, false, a, imm);
      LessImmComputes(env, m, op, r1, d, s1, imm);
    } else if op == ADD {
      v := Add(a, U64(imm));
      if word { WordForms(a, U64(imm)); }
      AddImmComputes(env, m, word, r1, d, s1, imm);
    } else if op in {SLL, SRL, SRA} {
      v := ShiftImmComputes(env, m, op, word, r1, d, s1, imm);
    } else {
      v := BitImmComputes(env, m, op, r1, d, s1, imm);
    }
  }

  lemma AddImmComputes(env: Env, m: Machine, word: bool, r1: bool, d: HReg, s1: HReg, imm: int)
    requires Pooled(d) && Pooled(s1) && SmallImm(imm)
    ensures Computes(env, ICode(ADD, word, r1, d, s1, imm), m, d, Add(if r1 then m.regs[s1] else 0, U64(imm)))
  {
    hide Exec, Shift64, Shift32, Bits, Divide;
    Int32Small(imm);
    if r1 {
      Exec1(env, ArithImm(ADD64, d, imm), Run(Set(m, d, m.regs[s1])));
      MovThen(env, m, d, s1, ArithImm(ADD64, d, imm), Add(m.regs[s1], U64(imm)));
    } else {
      Exec1(env, MovImm(d, imm), Run(m));
    }
  }

  lemma ShiftImmComputes(env: Env, m: Machine, op: AluOp, word: bool, r1: bool, d: HReg, s1: HReg, imm: int)
    returns (v: Word)
    requires Pooled(d) && Pooled(s1) && op in {SLL, SRL, SRA}
    requires 0 <= imm < (if word then 32 else 64)
    ensures Computes(env, ICode(op, word, r1, d, s1, imm), m, d, v)
    ensures var a := if r1 then m.regs[s1] else 0;
            v == if word then Shift32(ShiftOf(op), a, imm) else Shift64(ShiftOf(op), a, imm)
  {
    if r1 {
      assert imm % 64 == imm && (word ==> imm % 32 == imm);
      var last := if word then ShiftImm32(ShiftOf(op), d, imm) else ShiftImm(ShiftOf(op), d, imm);
      ShiftImmStep(env, Set(m, d, m.regs[s1]), ShiftOf(op), word, d, imm);
      v := if word then Shift32(ShiftOf(op), m.regs[s1], imm) else Shift64(ShiftOf(op), m.regs[s1], imm);
      MovThen(env, m, d, s1, last, v);
    } else {
      v := 0;
      ShiftZeroes(ShiftOf(op), 0, imm);
      ZeroComputes(env, m, d);
    }
  }

  lemma ShiftImmStep(env: Env, m: Machine, sh: ShiftOp, word: bool, d: HReg, n: nat)
    requires n % 64 == n && (word ==> n % 32 == n)
    ensures Computes(env, [if word then ShiftImm32(sh, d, n) else ShiftImm(sh, d, n)], m, d,
                     if word then Shift32(sh, m.regs[d], n) else Shift64(sh, m.regs[d], n))
  {
    Exec1(env, if word then ShiftImm32(sh, d, n) else ShiftImm(sh, d, n), Run(m));
  }

  lemma BitImmComputes(env: Env, m: Machine, op: AluOp, r1: bool, d: HReg, s1: HReg, imm: int)
    returns (v: Word)
    requires Pooled(d) && Pooled(s1) && op in {XOR, OR, AND} && SmallImm(imm)
    ensures Computes(env, ICode(op, false, r1, d, s1, imm), m, d, v)
    ensures v == BitW(BitOpOf(op), if r1 then m.regs[s1] else 0, U64(imm))
  {
    Int32Small(imm);
    v := BitW(BitOpOf(op), if r1 then m.regs[s1] else 0, U64(imm));
    if r1 {
      var last := ArithImm(BitArith(op), d, imm);
      Exec1(env, last, Run(Set(m, d, m.regs[s1])));
      MovThen(env, m, d, s1, last, v);
    } else {
      BitsCommute(BitOpOf(op), U64(imm), 0);
      BitsZero(BitOpOf(op), U64(imm));
      if op == AND { ZeroComputes(env, m, d); } else { Exec1(env, MovImm(d, imm), Run(m)); }
    }
  }

  /** The immediate forms leave in `d` what the handler writes to rd. */
  lemma IFullComputes(env: Env, m: Machine, op: AluOp, word: bool, r1: bool, d: HReg, s1: HReg, imm: int)
    requires Pooled(d) && Pooled(s1) && SmallImm(imm)
    requires op != SUB && (word ==> op in {ADD, SLL, SRL, SRA})
    requires op in {SLL, SRL, SRA} ==> 0 <= imm < (if word then 32 else 64)
    ensures Computes(env, IFull(op, word, r1, d, s1, imm), m, d,
                     HandleI(op, word, if r1 then m.regs[s1] else 0, imm))
  {
    hide Exec, Computes, ICode, HandleI, Sext32;
    var code := ICode(op, word, r1, d, s1, imm);
    var v := ICodeComputes(env, m, op, word, r1, d, s1, imm);
    if word {
      ThenSext(env, code, m, d, v);
    } else {
      assert code + [] == code;
    }
  }

  /** emit_u_to's AUIPC: entry_pc plus the block offset plus the immediate. */
  lemma PcRelativeComputes(env: Env, m: Machine, d: HReg, imm: int, off: nat)
    requires Pooled(d) && off < 0x1000 && -0x8000_0000 <= imm < 0x8000_0000 && imm % 0x1000 == 0
    ensures Computes(env, [LoadOp(d, CtxEntry), ArithImm(ADD64, d, Int32(imm + off))], m, d, Add(m.entry, imm + off))
  {
    assert Int32(imm + off) == imm + off by { PcRelativeFits(imm, off); }
    EntryPlus(env, m, d, imm + off);
  }

  lemma PcRelativeFits(imm: int, off: nat)
    requires off < 0x1000 && -0x8000_0000 <= imm < 0x8000_0000 && imm % 0x1000 == 0
    ensures Int32(imm + off) == imm + off
  {
  }

  /** d := entry_pc + delta. */
  lemma EntryPlus(env: Env, m: Machine, d: HReg, delta: int)
    ensures Computes(env, [LoadOp(d, CtxEntry), ArithImm(ADD64, d, delta)], m, d, Add(m.entry, delta))
  {
    hide Exec, Do;
    DoLoadCtx(env, m, d);
    DoArithImm(env, Set(m, d, m.entry), ADD64, d, delta);
    Exec2(env, LoadOp(d, CtxEntry), ArithImm(ADD64, d, delta), Run(m));
    AddWraps(m.entry, delta);
  }

  lemma AddWraps(x: int, y: int)
    ensures Add(x, U64(y)) == Add(x, y)
  {
  }
}
