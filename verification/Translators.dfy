/** The mapping from decoded instructions to emitter calls (rv64i.cpp, rv64m.cpp and
    rv64c.cpp), and the meaning of each call. */
module Translators {
  import opened Words
  import opened Guest
  import opened Host

  datatype Action =
    | Nothing
    | AluR(rd: Reg, rs1: Reg, rs2: Reg, op: AluOp, word: bool)
    | AluI(rd: Reg, rs1: Reg, imm: int, op: AluOp, word: bool)
    | MulR(rd: Reg, rs1: Reg, rs2: Reg, mop: MulOp, word: bool)
    | Upper(rd: Reg, imm: int)
    | PcRelative(rd: Reg, imm: int)
    | MemLoad(rd: Reg, rs1: Reg, imm: int, width: nat, signed: bool)
    | MemStore(rs1: Reg, imm: int, rs2: Reg, width: nat)
    | CondExit(rs1: Reg, rs2: Reg, cond: Cond, imm: int, align: bool)
    | CondExitZero(rs: Reg, cond: Cond, imm: int)
    | Jump(link: Reg, rs1: Reg, imm: int, align: bool, fromRs1: bool)

  /** What the emitter demands of its callers: a destination other than x0 for the
      register forms, and immediates that fit the host's sign-extended 32 bits. */
  predicate ActionOk(a: Action)
  {
    match a
    case Nothing => true
    case AluR(rd, _, _, op, w) => rd != 0 && (w ==> op in {ADD, SUB, SLL, SRL, SRA})
    case AluI(rd, _, imm, op, w) =>
      && rd != 0 && op != SUB && (w ==> op in {ADD, SLL, SRL, SRA})
      && SmallImm(imm)
      && (op in {SLL, SRL, SRA} ==> 0 <= imm < (if w then 32 else 64))
    case MulR(rd, _, _, op, w) => rd != 0 && (w ==> op in {MUL, DIV, DIVU, REM, REMU})
    case Upper(rd, imm) => rd != 0 && -0x8000_0000 <= imm < 0x8000_0000
    case PcRelative(rd, imm) => rd != 0 && -0x8000_0000 <= imm < 0x8000_0000 && imm % 0x1000 == 0
    case MemLoad(_, _, imm, n, _) => SmallImm(imm) && n in {1, 2, 4, 8}
    case MemStore(_, imm, _, n) => SmallImm(imm) && n in {1, 2, 4, 8}
    case CondExit(_, _, _, imm, _) => SmallImm(imm)
    case CondExitZero(_, _, imm) => SmallImm(imm)
    case Jump(_, _, imm, align, fromRs1) => SmallImm(imm) && !(align && fromRs1)
  }

  predicate SmallImm(imm: int) { -0x20_0000 <= imm < 0x20_0000 }

  /** The x86 condition of each branch's taken side. */
  function CondOf(op: BranchOp): Cond
  {
    match op
    case BEQ => E case BNE => NE case BLT => L case BGE => GE case BLTU => B case BGEU => AE
  }

  /** alu_r, alu_i, alu_u and m_op emit nothing when rd is x0. */
  function Unless0(rd: Reg, a: Action): Action { if rd == 0 then Nothing else a }

  function Translated(d: Decoded): Action
    requires Registered(d)
  {
    var i := d.inst;
    var c1: Reg := 8 + CRs1(i);
    match d.op
    case OpR(op, w) => Unless0(Rd(i), AluR(Rd(i), Rs1(i), Rs2(i), op, w))
    case OpI(op, w) => Unless0(Rd(i), AluI(Rd(i), Rs1(i), ImmOf(op, w, i), op, w))
    case OpM(op, w) => Unless0(Rd(i), MulR(Rd(i), Rs1(i), Rs2(i), op, w))
    case Load(n, sg) => MemLoad(Rd(i), Rs1(i), ImmI(i), n, sg)
    case Store(n) => MemStore(Rs1(i), ImmS(i), Rs2(i), n)
    case Branch(op) => CondExit(Rs1(i), Rs2(i), CondOf(op), ImmB(i), true)
    case Jal => Jump(Rd(i), 0, ImmJ(i), true, false)
    case Jalr => Jump(Rd(i), Rs1(i), ImmI(i), false, true)
    case Lui => Unless0(Rd(i), Upper(Rd(i), ImmU(i)))
    case Auipc => Unless0(Rd(i), PcRelative(Rd(i), ImmU(i)))
    case CNop => Nothing
    case CAddi4spn => AluI(8 + CRd(i), 2, CImm4spn(i), ADD, false)
    case CAddi => Unless0(Rd(i), AluI(Rd(i), Rd(i), CImmSigned(i), ADD, false))
    case CAddiw => Unless0(Rd(i), AluI(Rd(i), Rd(i), CImmSigned(i), ADD, true))
    case CLi => Unless0(Rd(i), AluI(Rd(i), 0, CImmSigned(i), ADD, false))
    case CLuiAddi16sp =>
      if Rd(i) == 2 then AluI(2, 2, CImm16sp(i), ADD, false)
      else Unless0(Rd(i), AluI(Rd(i), 0, CImmSigned(i) * 0x1000, ADD, false))
    case CSlli => Unless0(Rd(i), AluI(Rd(i), Rd(i), CImmArith(i), SLL, false))
    case CSrli => AluI(c1, c1, CImmArith(i), SRL, false)
    case CSrai => AluI(c1, c1, CImmArith(i), SRA, false)
    case CAndi => AluI(c1, c1, CImmSigned(i), AND, false)
    case CAlu(op, w) => AluR(c1, c1, 8 + CRd(i), op, w)
    case CMv => Unless0(Rd(i), AluR(Rd(i), 0, CRs2(i), ADD, false))
    case CAdd => Unless0(Rd(i), AluR(Rd(i), Rd(i), CRs2(i), ADD, false))
    case CLoad(n) => MemLoad(8 + CRd(i), c1, if n == 4 then CImmLw(i) else CImmLd(i), n, true)
    case CStore(n) => MemStore(c1, if n == 4 then CImmLw(i) else CImmLd(i), 8 + CRd(i), n)
    case CLoadSp(n) => MemLoad(Rd(i), 2, if n == 4 then CImmLwsp(i) else CImmLdsp(i), n, true)
    case CStoreSp(n) => MemStore(2, if n == 4 then CImmSwsp(i) else CImmSdsp(i), CRs2(i), n)
    case CJ => Jump(0, 0, CImmJ(i), false, false)
    case CBeqz => CondExitZero(c1, E, CImmB(i))
    case CBnez => CondExitZero(c1, NE, CImmB(i))
    case CJr => Jump(0, Rd(i), 0, false, true)
    case CJalr => Jump(1, Rd(i), 0, false, true)
  }

  /** The guest-level effect each emitter call is meant to have. */
  function Perform(env: Env, s: State, a: Action, size: nat): Result
    requires EnvOk(env) && |s.ram| == env.ramSize && ActionOk(a)
  {
    var x := s.x;
    match a
    case Nothing => Next(s.(pc := Add(s.pc, size)))
    case AluR(rd, rs1, rs2, op, w) => SetReg(s, rd, HandleR(op, w, x[rs1], x[rs2]), size)
    case AluI(rd, rs1, imm, op, w) => SetReg(s, rd, HandleI(op, w, x[rs1], imm), size)
    case MulR(rd, rs1, rs2, op, w) => SetReg(s, rd, HandleM(op, w, x[rs1], x[rs2]), size)
    case Upper(rd, imm) => SetReg(s, rd, U64(imm), size)
    case PcRelative(rd, imm) => SetReg(s, rd, Add(s.pc, imm), size)
    case MemLoad(rd, rs1, imm, n, sg) => DoLoad(env, s, rd, Add(x[rs1], imm), n, sg, size)
    case MemStore(rs1, imm, rs2, n) => DoStore(env, s, Add(x[rs1], imm), n, x[rs2], size)
    case CondExit(rs1, rs2, c, imm, align) =>
      if Holds(c, x[rs1], x[rs2]) then
        var target := Add(s.pc, imm);
        if align && target % 2 != 0 then Yield else Next(s.(pc := target))
      else Next(s.(pc := Add(s.pc, size)))
    case CondExitZero(rs, c, imm) =>
      Next(s.(pc := Add(s.pc, if Holds(c, x[rs], 0) then imm else size)))
    case Jump(link, rs1, imm, align, fromRs1) =>
      var target := if fromRs1 then BitW(And, Add(x[rs1], imm), M64 - 2) else Add(s.pc, imm);
      if align && target % 2 != 0 then Yield
      else Next(s.(pc := target, x := Write(x, link, Add(s.pc, size))))
  }

  lemma TranslatedOk(d: Decoded)
    requires Registered(d)
    ensures ActionOk(Translated(d))
  {
    if !IsCompressed(d.op) {
      TranslatedBaseOk(d);
    } else if IsCompressedAlu(d.op) {
      TranslatedCAluOk(d);
    }
  }

  lemma TranslatedBaseOk(d: Decoded)
    requires Registered(d) && !IsCompressed(d.op)
    ensures ActionOk(Translated(d))
  {
    if d.op.Lui? || d.op.Auipc? { ImmURange(d.inst); }
  }

  lemma ImmURange(i: nat)
    ensures -0x8000_0000 <= ImmU(i) < 0x8000_0000 && ImmU(i) % 0x1000 == 0
  {
    var v := i % M32 - i % 0x1000;
    assert i % 0x1000 == i % M32 % 0x1000;
    assert v % 0x1000 == 0 && 0 <= v < M32;
  }

  lemma TranslatedCAluOk(d: Decoded)
    requires Registered(d) && IsCompressedAlu(d.op)
    ensures ActionOk(Translated(d))
  {
  }

  lemma EvenMask(y: Word)
    ensures BitW(And, y, M64 - 2) % 2 == 0
  {
    BitsStep(And, y, M64 - 2);
  }

  lemma CrFields(i: nat)
    ensures Rd(i) % 8 == CRs1(i)
  {
    var f := i / 0x80;
    assert f % 32 == f / 8 % 4 * 8 + f % 8;
  }

  lemma WriteZero(x: Gprs, v: Word)
    requires x[0] == 0
    ensures Write(x, 0, v) == x
  {
  }

  /** Every translator asks the emitter for exactly what the handler does. */
  lemma TranslatedMatchesHandler(env: Env, s: State, d: Decoded)
    requires EnvOk(env) && |s.ram| == env.ramSize && Registered(d) && s.x[0] == 0
    ensures ActionOk(Translated(d))
    ensures Perform(env, s, Translated(d), Size(d)) == Handle(env, s, d)
  {
    hide Perform, Translated, HandleBase, HandleCAlu, HandleCMem, EnvOk, ActionOk, Registered;
    TranslatedOk(d);
    if !IsCompressed(d.op) {
      MatchesBase(env, s, d);
    } else if IsCompressedAlu(d.op) {
      MatchesCAlu(env, s, d);
    } else {
      MatchesCMem(env, s, d);
    }
  }

  lemma MatchesBase(env: Env, s: State, d: Decoded)
    requires EnvOk(env) && |s.ram| == env.ramSize && Registered(d) && s.x[0] == 0
    requires !IsCompressed(d.op) && ActionOk(Translated(d))
    ensures Perform(env, s, Translated(d), 4) == HandleBase(env, s, d)
  {
    hide Shift64, Shift32, BitW, Sext32, EnvOk, HandleR, HandleI, HandleM, ImmI, ImmS, ImmB, ImmU, ImmJ, DoLoad,
         DoStore;
    if d.op.Jalr? { EvenMask(Add(s.x[Rs1(d.inst)], ImmI(d.inst))); }
  }

  lemma MatchesCAlu(env: Env, s: State, d: Decoded)
    requires EnvOk(env) && |s.ram| == env.ramSize && Registered(d) && s.x[0] == 0
    requires IsCompressedAlu(d.op) && ActionOk(Translated(d))
    ensures Perform(env, s, Translated(d), 2) == HandleCAlu(s, d)
  {
    hide Perform, HandleCAlu, EnvOk, Translated, ActionOk;
    if d.op.CAlu? || d.op.CSlli? || d.op.CSrli? || d.op.CSrai? || d.op.CAndi? {
      MatchesCReg(env, s, d);
    } else {
      MatchesCImm(env, s, d);
    }
  }

  lemma MatchesCReg(env: Env, s: State, d: Decoded)
    requires EnvOk(env) && |s.ram| == env.ramSize && Registered(d)
    requires d.op.CAlu? || d.op.CSlli? || d.op.CSrli? || d.op.CSrai? || d.op.CAndi?
    requires s.x[0] == 0 && ActionOk(Translated(d))
    ensures Perform(env, s, Translated(d), 2) == HandleCAlu(s, d)
  {
    hide Perform, Translated, HandleCAlu, EnvOk, ActionOk, Registered;
    if d.op.CAlu? { MatchesCTwo(env, s, d); } else { MatchesCShift(env, s, d); }
  }

  lemma MatchesCTwo(env: Env, s: State, d: Decoded)
    requires EnvOk(env) && |s.ram| == env.ramSize && Registered(d) && d.op.CAlu? && ActionOk(Translated(d))
    ensures Perform(env, s, Translated(d), 2) == HandleCAlu(s, d)
  {
    hide Sext32, EnvOk, HandleR, Add, Sub, CRd, CRs1, Rd;
    CrFields(d.inst);
    MatchesCAluValue(d.op.rop, d.op.word, s.x[8 + CRs1(d.inst)], s.x[8 + CRd(d.inst)]);
  }

  lemma MatchesCShift(env: Env, s: State, d: Decoded)
    requires EnvOk(env) && |s.ram| == env.ramSize && Registered(d) && ActionOk(Translated(d))
    requires d.op.CSlli? || d.op.CSrli? || d.op.CSrai? || d.op.CAndi?
    requires s.x[0] == 0
    ensures Perform(env, s, Translated(d), 2) == HandleCAlu(s, d)
  {
    hide Perform, Translated, HandleCAlu, EnvOk, ActionOk, Registered;
    if d.op.CSrli? {
      MatchesCSrli(env, s, d);
    } else {
      MatchesCOther(env, s, d);
    }
  }

  lemma MatchesCSrli(env: Env, s: State, d: Decoded)
    requires EnvOk(env) && |s.ram| == env.ramSize && Registered(d) && ActionOk(Translated(d)) && d.op.CSrli?
    ensures Perform(env, s, Translated(d), 2) == HandleCAlu(s, d)
  {
    hide Shift64, Shift32, BitW, Sext32, EnvOk, HandleR, Add, CImmSigned, CImmArith, CRs1, Rd, Write;
    CrFields(d.inst);
    CSrliField(d.inst);
  }

  lemma MatchesCOther(env: Env, s: State, d: Decoded)
    requires EnvOk(env) && |s.ram| == env.ramSize && Registered(d) && ActionOk(Translated(d)) && s.x[0] == 0
    requires d.op.CSlli? || d.op.CSrai? || d.op.CAndi?
    ensures Perform(env, s, Translated(d), 2) == HandleCAlu(s, d)
  {
    hide Shift64, Shift32, BitW, Sext32, EnvOk, HandleR, Add, CImmSigned, CImmArith, CRs1, Rd;
    CrFields(d.inst);
  }

  lemma MatchesCAluValue(op: AluOp, w: bool, a: Word, b: Word)
    requires if w then op in {SUB, ADD} else op in {SUB, XOR, OR, AND}
    ensures HandleR(op, w, a, b) ==
            if w then (if op == SUB then Sext32(Sub(a, b)) else Sext32(Add(a, b))) else HandleR(op, false, a, b)
  {
    WordForms(a, b);
  }

  lemma MatchesCImm(env: Env, s: State, d: Decoded)
    requires EnvOk(env) && |s.ram| == env.ramSize && Registered(d) && s.x[0] == 0
    requires IsCompressedAlu(d.op) && ActionOk(Translated(d))
    requires !(d.op.CAlu? || d.op.CSlli? || d.op.CSrli? || d.op.CSrai? || d.op.CAndi?)
    ensures Perform(env, s, Translated(d), 2) == HandleCAlu(s, d)
  {
    hide Shift64, Shift32, BitW, Sext32, EnvOk, CImmSigned, CImm4spn, CImm16sp, CRs1, CRd;
    var imm := CImmSigned(d.inst);
    if d.op.CAddiw? {
      WordForms(s.x[Rd(d.inst)], U64(imm));
    } else if d.op.CLi? {
      AddZero(U64(imm));
    } else if d.op.CMv? {
      AddZero(s.x[CRs2(d.inst)]);
    } else if d.op.CLuiAddi16sp? {
      UpperForm(imm);
    } else if d.op.CAddi4spn? {
      U64Small(CImm4spn(d.inst));
    }
  }

  lemma U64Small(v: nat)
    requires v < M64
    ensures U64(v) == v
  {
  }

  lemma AddZero(b: Word)
    ensures Add(0, b) == b && Add(b, 0) == b
  {
  }

  lemma UpperForm(imm: int)
    requires -32 <= imm < 32
    ensures Add(0, U64(imm * 0x1000)) == U64(U64(imm) * 0x1000)
  {
  }

  /** 32-bit sums and differences may be taken before or after truncation. */
  lemma WordForms(a: Word, b: Word)
    ensures Sext32(Add(a, b)) == Sext32(U32(a) + U32(b)) == Sext32(U32(a) + b)
    ensures Sext32(Sub(a, b)) == Sext32(U32(a) - U32(b))
  {
    SameLow(Add(a, b), U32(a) + U32(b), 0 - (a + b) / M64 * M32 + a / M32 + b / M32);
    SameLow(U32(a) + b, U32(a) + U32(b), b / M32);
    SameLow(Sub(a, b), U32(a) - U32(b), 0 - (a - b) / M64 * M32 + a / M32 - b / M32);
  }

  lemma SameLow(x: int, y: int, k: int)
    requires x == y + M32 * k
    ensures Sext32(x) == Sext32(y)
  {
    assert (y + M32 * k) % M32 == y % M32;
  }

  lemma MatchesCMem(env: Env, s: State, d: Decoded)
    requires EnvOk(env) && |s.ram| == env.ramSize && Registered(d) && s.x[0] == 0
    requires IsCompressed(d.op) && !IsCompressedAlu(d.op) && ActionOk(Translated(d))
    ensures Perform(env, s, Translated(d), 2) == HandleCMem(env, s, d)
  {
    hide Shift64, Shift32, BitW, Sext32, EnvOk, DoLoad, DoStore, CImmLw, CImmLd, CImmLwsp, CImmLdsp, CImmSwsp,
         CImmSdsp, CImmJ, CImmB;
    if d.op.CJ? || d.op.CBeqz? || d.op.CBnez? || d.op.CJr? || d.op.CJalr? {
      CrFields(d.inst);
      AddZero(s.x[Rd(d.inst)]);
      WriteZero(s.x, Add(s.pc, 2));
    }
  }
}
