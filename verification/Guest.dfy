/** The interpreter handlers for RV64I, RV64M and RV64C: the reference semantics of
    the guest instructions.  Each case follows its `exec_*` handler. */
module Guest {
  import opened Words
  import opened Options
  import opened TlbEntries

  type Gprs = s: seq<Word> | |s| == 32 witness seq(32, _ => 0)
  type Reg = r: int | 0 <= r < 32
  type Ram = seq<Byte>

  /** What stays fixed while a block runs: the TLB, the key it is read with, whether
      translation is off (machine mode or a bare satp), whether satp selects a paging mode,
      and where guest RAM lies in guest physical and in host addresses. */
  datatype Env = Env(
    tlb: seq<Entry>,
    tlbBase: Word,
    generation: Word,
    asid: Asid,
    mode: Privilege,
    mxr: bool,
    sum: bool,
    identity: bool,
    paging: bool,
    ramBase: Word,
    ramSize: nat,
    hostRam: Word)

  predicate EnvOk(env: Env)
  {
    && |env.tlb| == SIZE
    && env.tlbBase + SIZE * 64 <= M64
    && env.hostRam + env.ramSize <= M64
    && env.ramBase + env.ramSize <= M64
    && (env.identity || env.paging)
    && forall i | 0 <= i < SIZE :: ResidentOk(env, env.tlb[i])
  }

  /** Holds of every entry of the current generation, whichever mode filled it. */
  predicate ResidentOk(env: Env, e: Entry)
  {
    e.generation == env.generation ==>
      && WellFormed(e)
      && HostMapped(e, env.ramBase, env.ramSize, env.hostRam)
  }

  /** General registers, pc and RAM.  x0 is zero between instructions, because both
      `tick` and `run_block` clear GPR[0] before every handler. */
  datatype State = State(pc: Word, x: Gprs, ram: Ram)

  /** `Yield` is a trap, a page walk, a device access or a page-crossing access:
      whatever the handler does beyond a TLB hit on RAM. */
  datatype Result = Next(state: State) | Yield

  // Memory --------------------------------------------------------------------

  function LoadLE(ram: Ram, at: nat, n: nat): (v: nat)
    requires at + n <= |ram|
    ensures v < Pow2(8 * n)
    decreases n
  {
    if n == 0 then 0 else
      assert Pow2(8 * n) == 256 * Pow2(8 * (n - 1)) by { assert Pow2(8) == 256; Pow2Adds(8, 8 * (n - 1)); }
      ram[at] + 256 * LoadLE(ram, at + 1, n - 1)
  }

  function StoreLE(ram: Ram, at: nat, n: nat, v: nat): (r: Ram)
    requires at + n <= |ram|
    ensures |r| == |ram|
    decreases n
  {
    if n == 0 then ram else StoreLE(ram[at := v % 256], at + 1, n - 1, v / 256)
  }

  /** MMU::translate on the paths that do not walk the page table. */
  function Translate(env: Env, va: Word, access: Access): Option<Word>
    requires EnvOk(env)
  {
    if env.identity then Some(va)
    else Lookup(env.tlb, env.generation, va, access, env.asid, env.mode, env.mxr, env.sum)
  }

  /** The RAM offset an access of `width` bytes reaches, if MMIO serves it from DRAM
      in one piece. */
  function DramOffset(env: Env, va: Word, access: Access, width: nat): (r: Option<nat>)
    requires EnvOk(env)
    ensures r.Some? ==> r.value + width <= env.ramSize
  {
    if env.paging && va % 0x1000 + width > 0x1000 then None
    else match Translate(env, va, access)
      case None => None
      case Some(pa) =>
        if env.ramBase <= pa && pa + width <= env.ramBase + env.ramSize then Some(pa - env.ramBase) else None
  }

  // Instructions ----------------------------------------------------------------

  datatype AluOp = ADD | SUB | XOR | OR | AND | SLL | SRL | SRA | SLT | SLTU
  datatype MulOp = MUL | MULH | MULHU | MULHSU | DIV | DIVU | REM | REMU
  datatype BranchOp = BEQ | BNE | BLT | BGE | BLTU | BGEU

  datatype Insn =
    | OpR(rop: AluOp, word: bool)
    | OpI(iop: AluOp, word: bool)
    | OpM(mop: MulOp, word: bool)
    | Load(width: nat, signed: bool)
    | Store(width: nat)
    | Branch(bop: BranchOp)
    | Jal | Jalr | Lui | Auipc
    | CNop | CAddi4spn | CAddi | CAddiw | CLi | CLuiAddi16sp
    | CSlli | CSrli | CSrai | CAndi
    | CAlu(rop: AluOp, word: bool)
    | CMv | CAdd
    | CLoad(width: nat) | CStore(width: nat)
    | CLoadSp(width: nat) | CStoreSp(width: nat)
    | CJ | CBeqz | CBnez | CJr | CJalr

  /** One decoded instruction: its handler and its raw encoding. */
  datatype Decoded = Decoded(op: Insn, inst: nat)

  predicate IsCompressed(op: Insn)
  {
    !(op.OpR? || op.OpI? || op.OpM? || op.Load? || op.Store? || op.Branch? || op.Jal? || op.Jalr? || op.Lui?
      || op.Auipc?)
  }

  function Size(d: Decoded): nat { if IsCompressed(d.op) then 2 else 4 }

  function Rd(inst: nat): Reg { inst / 0x80 % 32 }
  function Rs1(inst: nat): Reg { inst / 0x8000 % 32 }
  function Rs2(inst: nat): Reg { inst / 0x100000 % 32 }
  function CRd(inst: nat): Reg { inst / 4 % 8 }
  function CRs1(inst: nat): Reg { inst / 0x80 % 8 }
  function CRs2(inst: nat): Reg { inst / 4 % 32 }

  /** The combinations the instruction tables register.  C.SRLI is the one handler that
      uses the whole rd field, so its pattern's zero bits 11:10 matter. */
  predicate Registered(d: Decoded)
  {
    match d.op
    case OpR(op, w) => w ==> op in {ADD, SUB, SLL, SRL, SRA}
    case OpI(op, w) => op != SUB && (w ==> op in {ADD, SLL, SRL, SRA})
    case OpM(op, w) => w ==> op in {MUL, DIV, DIVU, REM, REMU}
    case Load(n, s) => n in {1, 2, 4, 8} && (n == 8 ==> s)
    case Store(n) => n in {1, 2, 4, 8}
    case CAlu(op, w) => if w then op in {SUB, ADD} else op in {SUB, XOR, OR, AND}
    case CLoad(n) => n in {4, 8}
    case CStore(n) => n in {4, 8}
    case CLoadSp(n) => n in {4, 8}
    case CStoreSp(n) => n in {4, 8}
    case CSrli => d.inst / 0x400 % 4 == 0
    case _ => true
  }

  // Immediates (decode.hpp): the signed value; the decoders' fields are disjoint, so
  // their bitwise or is a sum.

  function ImmI(inst: nat): int { Signed(inst / 0x100000, 0x800) }
  function ImmS(inst: nat): int { Signed(inst / 0x80 % 32 + inst / 0x2000000 % 0x80 * 32, 0x800) }
  function ImmB(inst: nat): int
  {
    Signed(inst / 0x100 % 16 * 2 + inst / 0x2000000 % 64 * 32 + inst / 0x80 % 2 * 0x800
           + inst / 0x80000000 % 2 * 0x1000, 0x1000)
  }
  function ImmU(inst: nat): int { S32(inst % M32 - inst % 0x1000) }
  function ImmJ(inst: nat): int
  {
    Signed(inst / 0x200000 % 0x400 * 2 + inst / 0x100000 % 2 * 0x800 + inst / 0x1000 % 0x100 * 0x1000
           + inst / 0x80000000 % 2 * 0x100000, 0x100000)
  }
  function Shamt(inst: nat): nat { inst / 0x100000 % 32 }
  function Shamt64(inst: nat): nat { inst / 0x100000 % 64 }
  function CImmSigned(inst: nat): (r: int)
    ensures -32 <= r < 32
  {
    Signed(CImmArith(inst), 32)
  }
  function CImmArith(inst: nat): nat { inst / 4 % 32 + inst / 0x1000 % 2 * 32 }
  function CImm4spn(inst: nat): (r: nat)
    ensures r < 1024
  {
    inst / 0x80 % 16 * 64 + inst / 0x800 % 4 * 16 + inst / 0x20 % 2 * 8 + inst / 0x40 % 2 * 4
  }
  function CImm16sp(inst: nat): int
  {
    Signed(inst / 0x40 % 2 * 16 + inst / 4 % 2 * 32 + inst / 0x20 % 2 * 64 + inst / 8 % 4 * 128
           + inst / 0x1000 % 2 * 512, 512)
  }
  function CImmLw(inst: nat): nat { inst / 0x40 % 2 * 4 + inst / 0x400 % 8 * 8 + inst / 0x20 % 2 * 64 }
  function CImmLd(inst: nat): nat { inst / 0x40 % 2 * 128 + inst / 0x400 % 8 * 8 + inst / 0x20 % 2 * 64 }
  function CImmLwsp(inst: nat): nat { inst / 0x10 % 8 * 4 + inst / 0x1000 % 2 * 32 + inst / 4 % 4 * 64 }
  function CImmLdsp(inst: nat): nat
  {
    inst / 0x20 % 4 * 8 + inst / 0x1000 % 2 * 32 + inst / 4 % 4 * 64 + inst / 0x10 % 2 * 256
  }
  function CImmSwsp(inst: nat): nat { inst / 0x200 % 16 * 4 + inst / 0x80 % 2 * 64 + inst / 0x100 % 2 * 128 }
  function CImmSdsp(inst: nat): nat
  {
    inst / 0x400 % 8 * 8 + inst / 0x80 % 2 * 64 + inst / 0x100 % 2 * 128 + inst / 0x200 % 2 * 256
  }
  function CImmJ(inst: nat): int
  {
    Signed(inst / 8 % 8 * 2 + inst / 0x800 % 2 * 16 + inst / 4 % 2 * 32 + inst / 0x80 % 2 * 64 + inst / 0x40 % 2 * 128
           + inst / 0x200 % 4 * 256 + inst / 0x100 % 2 * 1024 + inst / 0x1000 % 2 * 2048, 2048)
  }
  function CImmB(inst: nat): int
  {
    Signed(inst / 8 % 4 * 2 + inst / 0x400 % 4 * 8 + inst / 4 % 2 * 32 + inst / 0x20 % 4 * 64
           + inst / 0x1000 % 2 * 256, 256)
  }

  /** The two's complement reading of a field whose sign bit weighs `half`. */
  function Signed(v: nat, half: nat): (r: int)
    requires half > 0
    ensures 0 - half <= r < half
  {
    var l := v % (2 * half);
    if l < half then l else l - 2 * half
  }

  // Handlers ------------------------------------------------------------------------

  function ShiftOf(op: AluOp): ShiftOp
  {
    if op == SLL then Shl else if op == SRL then Shr else Sar
  }

  function BitOpOf(op: AluOp): BitOp
  {
    if op == XOR then Xor else if op == OR then Or else And
  }

  /** exec_ADD .. exec_SLTU; exec_ADDW .. exec_SRAW. */
  function HandleR(op: AluOp, word: bool, a: Word, b: Word): Word
    requires word ==> op in {ADD, SUB, SLL, SRL, SRA}
  {
    if word then
      if op == ADD then Sext32(U32(a) + U32(b))
      else if op == SUB then Sext32(U32(a) - U32(b))
      else Sext32(Shift32(ShiftOf(op), a, b % 32))
    else
      match op
      case ADD => Add(a, b)
      case SUB => Sub(a, b)
      case SLT => if S64(a) < S64(b) then 1 else 0
      case SLTU => if a < b then 1 else 0
      case SLL => Shift64(Shl, a, b % 64)
      case SRL => Shift64(Shr, a, b % 64)
      case SRA => Shift64(Sar, a, b % 64)
      case _ => BitW(BitOpOf(op), a, b)
  }

  /** exec_ADDI .. exec_SLTIU; exec_ADDIW .. exec_SRAIW.  `imm` is the signed
      immediate, or the shift amount for the shifts. */
  function HandleI(op: AluOp, word: bool, a: Word, imm: int): Word
    requires op != SUB && (word ==> op in {ADD, SLL, SRL, SRA})
    requires op in {SLL, SRL, SRA} ==> 0 <= imm < (if word then 32 else 64)
  {
    if word then
      if op == ADD then Sext32(U32(a) + U64(imm)) else Sext32(Shift32(ShiftOf(op), a, imm))
    else
      if op == ADD then Add(a, U64(imm))
      else if op == SLT then (if S64(a) < imm then 1 else 0)
      else if op == SLTU then (if a < U64(imm) then 1 else 0)
      else if op in {SLL, SRL, SRA} then Shift64(ShiftOf(op), a, imm)
      else BitW(BitOpOf(op), a, U64(imm))
  }

  /** exec_MUL .. exec_REMU and their W forms. */
  function HandleM(op: MulOp, word: bool, a: Word, b: Word): Word
    requires word ==> op in {MUL, DIV, DIVU, REM, REMU}
  {
    if word then
      match op
      case MUL => Sext32(S32(a) * S32(b))
      case DIV =>
        if S32(b) == 0 then M64 - 1
        else if S32(a) == 0 then 0
        else if S32(a) == -0x8000_0000 && S32(b) == -1 then U64(S32(a))
        else Sext32(TruncDiv(S32(a), S32(b)))
      case DIVU =>
        if U32(b) == 0 then M64 - 1
        else if U32(a) == 0 then 0
        else Sext32(U32(a) / U32(b))
      case REM =>
        if S32(b) == 0 then U64(S32(a))
        else if S32(a) == -0x8000_0000 && S32(b) == -1 then 0
        else Sext32(TruncRem(S32(a), S32(b)))
      case _ =>
        if U32(b) == 0 then a else Sext32(U32(a) % U32(b))
    else
      match op
      case MUL => U64(a * b)
      case MULH => U64(S64(a) * S64(b) / M64)
      case MULHU => U64(a * b / M64)
      case MULHSU => U64(S64(a) * b % (M64 * M64) / M64)
      case DIV =>
        if b == 0 then M64 - 1
        else if a == 0 then 0
        else if a == 0x8000_0000_0000_0000 && b == M64 - 1 then a
        else U64(TruncDiv(S64(a), S64(b)))
      case DIVU =>
        if b == 0 then M64 - 1 else if a == 0 then 0 else U64(a / b)
      case REM =>
        if b == 0 then a
        else if a == 0x8000_0000_0000_0000 && b == M64 - 1 then 0
        else U64(TruncRem(S64(a), S64(b)))
      case REMU =>
        if b == 0 then a else U64(a % b)
  }

  predicate Taken(op: BranchOp, a: Word, b: Word)
  {
    match op
    case BEQ => a == b
    case BNE => a != b
    case BLT => S64(a) < S64(b)
    case BGE => S64(a) >= S64(b)
    case BLTU => a < b
    case BGEU => a >= b
  }

  function Write(x: Gprs, rd: Reg, v: Word): Gprs { x[rd := v][0 := 0] }

  /** Writes rd and falls through. */
  function SetReg(s: State, rd: Reg, v: Word, size: nat): (r: Result)
    ensures r.Next? && r.state.ram == s.ram && r.state.x[0] == 0
  {
    Next(s.(pc := Add(s.pc, size), x := Write(s.x, rd, v)))
  }

  /** A loaded value as the handler's C type leaves it in the register. */
  function Extend(v: nat, width: nat, signed: bool): Word
    requires v < Pow2(8 * width)
    requires width in {1, 2, 4, 8}
  {
    assert Pow2(8) == 0x100 && Pow2(16) == 0x1_0000;
    Pow2At64();
    match width
    case 1 => if signed && v >= 0x80 then U64(v - 0x100) else v
    case 2 => if signed && v >= 0x8000 then U64(v - 0x1_0000) else v
    case 4 => if signed && v >= 0x8000_0000 then U64(v - M32) else v
    case _ => v
  }

  function DoLoad(env: Env, s: State, rd: Reg, va: Word, width: nat, signed: bool, size: nat): Result
    requires EnvOk(env) && |s.ram| == env.ramSize && width in {1, 2, 4, 8}
  {
    match DramOffset(env, va, LOAD, width)
    case None => Yield
    case Some(at) => SetReg(s, rd, Extend(LoadLE(s.ram, at, width), width, signed), size)
  }

  function DoStore(env: Env, s: State, va: Word, width: nat, v: Word, size: nat): Result
    requires EnvOk(env) && |s.ram| == env.ramSize
  {
    match DramOffset(env, va, STORE, width)
    case None => Yield
    case Some(at) => Next(s.(pc := Add(s.pc, size), ram := StoreLE(s.ram, at, width, v)))
  }

  /** The I-type immediate a handler sees: a shift amount for the shifts. */
  function ImmOf(op: AluOp, word: bool, inst: nat): int
  {
    if op in {SLL, SRL, SRA} then (if word then Shamt(inst) else Shamt64(inst)) else ImmI(inst)
  }

  /** The 32-bit handlers. */
  function HandleBase(env: Env, s: State, d: Decoded): Result
    requires EnvOk(env) && |s.ram| == env.ramSize && Registered(d) && !IsCompressed(d.op)
  {
    var i := d.inst;
    var x := s.x;
    match d.op
    case OpR(op, w) => SetReg(s, Rd(i), HandleR(op, w, x[Rs1(i)], x[Rs2(i)]), 4)
    case OpI(op, w) => SetReg(s, Rd(i), HandleI(op, w, x[Rs1(i)], ImmOf(op, w, i)), 4)
    case OpM(op, w) => SetReg(s, Rd(i), HandleM(op, w, x[Rs1(i)], x[Rs2(i)]), 4)
    case Load(n, sg) => DoLoad(env, s, Rd(i), Add(x[Rs1(i)], ImmI(i)), n, sg, 4)
    case Store(n) => DoStore(env, s, Add(x[Rs1(i)], ImmS(i)), n, x[Rs2(i)], 4)
    case Branch(op) =>
      if Taken(op, x[Rs1(i)], x[Rs2(i)]) then
        var target := Add(s.pc, ImmB(i));
        if target % 2 != 0 then Yield else Next(s.(pc := target))
      else Next(s.(pc := Add(s.pc, 4)))
    case Jal =>
      var target := Add(s.pc, ImmJ(i));
      if target % 2 != 0 then Yield else Next(s.(pc := target, x := Write(x, Rd(i), Add(s.pc, 4))))
    case Jalr =>
      var target := BitW(And, Add(x[Rs1(i)], ImmI(i)), M64 - 2);
      if target % 2 != 0 then Yield else Next(s.(pc := target, x := Write(x, Rd(i), Add(s.pc, 4))))
    case Lui => SetReg(s, Rd(i), U64(ImmU(i)), 4)
    case Auipc => SetReg(s, Rd(i), Add(s.pc, ImmU(i)), 4)
  }

  predicate IsCompressedAlu(op: Insn)
  {
    || op.CNop? || op.CAddi4spn? || op.CAddi? || op.CAddiw? || op.CLi? || op.CLuiAddi16sp?
    || op.CSlli? || op.CSrli? || op.CSrai? || op.CAndi? || op.CAlu? || op.CMv? || op.CAdd?
  }

  lemma CSrliField(inst: nat)
    requires inst / 0x400 % 4 == 0
    ensures Rd(inst) < 8
  {
    var f := inst / 0x80;
    assert f / 8 == inst / 0x400;
    assert f % 32 == f / 8 % 4 * 8 + f % 8;
  }

  /** The compressed register-to-register handlers: the register written and its value. */
  function HandleCAlu(s: State, d: Decoded): Result
    requires Registered(d) && IsCompressedAlu(d.op)
  {
    var i := d.inst;
    var x := s.x;
    var c1: Reg := 8 + Rd(i) % 8;
    match d.op
    case CNop => Next(s.(pc := Add(s.pc, 2)))
    case CAddi4spn => SetReg(s, 8 + CRd(i), Add(x[2], CImm4spn(i)), 2)
    case CAddi => SetReg(s, Rd(i), Add(x[Rd(i)], U64(CImmSigned(i))), 2)
    case CAddiw => SetReg(s, Rd(i), Sext32(Add(x[Rd(i)], U64(CImmSigned(i)))), 2)
    case CLi => SetReg(s, Rd(i), U64(CImmSigned(i)), 2)
    case CLuiAddi16sp =>
      if Rd(i) == 2 then SetReg(s, 2, Add(x[2], U64(CImm16sp(i))), 2)
      else SetReg(s, Rd(i), U64(U64(CImmSigned(i)) * 0x1000), 2)
    case CSlli => SetReg(s, Rd(i), Shift64(Shl, x[Rd(i)], CImmArith(i)), 2)
    case CSrli =>
      CSrliField(i);
      SetReg(s, 8 + Rd(i), Shift64(Shr, x[8 + Rd(i)], CImmArith(i)), 2)
    case CSrai => SetReg(s, c1, Shift64(Sar, x[c1], CImmArith(i)), 2)
    case CAndi => SetReg(s, c1, BitW(And, x[c1], U64(CImmSigned(i))), 2)
    case CAlu(op, w) =>
      var b := x[8 + CRd(i)];
      SetReg(s, c1, if w then (if op == SUB then Sext32(Sub(x[c1], b)) else Sext32(Add(x[c1], b)))
                    else HandleR(op, false, x[c1], b), 2)
    case CMv => SetReg(s, Rd(i), x[CRs2(i)], 2)
    case CAdd => SetReg(s, Rd(i), Add(x[Rd(i)], x[CRs2(i)]), 2)
  }

  /** The compressed memory and control handlers. */
  function HandleCMem(env: Env, s: State, d: Decoded): Result
    requires EnvOk(env) && |s.ram| == env.ramSize && Registered(d)
    requires IsCompressed(d.op) && !IsCompressedAlu(d.op)
  {
    var i := d.inst;
    var x := s.x;
    var c1: Reg := 8 + Rd(i) % 8;
    match d.op
    case CLoad(n) =>
      DoLoad(env, s, 8 + CRd(i), Add(x[8 + CRs1(i)], if n == 4 then CImmLw(i) else CImmLd(i)), n, true, 2)
    case CStore(n) => DoStore(env, s, Add(x[8 + CRs1(i)], if n == 4 then CImmLw(i) else CImmLd(i)), n, x[8 + CRd(i)], 2)
    case CLoadSp(n) => DoLoad(env, s, Rd(i), Add(x[2], if n == 4 then CImmLwsp(i) else CImmLdsp(i)), n, true, 2)
    case CStoreSp(n) => DoStore(env, s, Add(x[2], if n == 4 then CImmSwsp(i) else CImmSdsp(i)), n, x[CRs2(i)], 2)
    case CJ => Next(s.(pc := Add(s.pc, CImmJ(i))))
    case CBeqz => Next(s.(pc := Add(s.pc, if x[c1] == 0 then CImmB(i) else 2)))
    case CBnez => Next(s.(pc := Add(s.pc, if x[c1] != 0 then CImmB(i) else 2)))
    case CJr => Next(s.(pc := BitW(And, x[Rd(i)], M64 - 2)))
    case CJalr => Next(s.(pc := BitW(And, x[Rd(i)], M64 - 2), x := Write(x, 1, Add(s.pc, 2))))
  }

  /** One interpreter step on one decoded instruction. */
  function Handle(env: Env, s: State, d: Decoded): Result
    requires EnvOk(env) && |s.ram| == env.ramSize && Registered(d)
  {
    if !IsCompressed(d.op) then HandleBase(env, s, d)
    else if IsCompressedAlu(d.op) then HandleCAlu(s, d)
    else HandleCMem(env, s, d)
  }

  /** A step keeps the size of RAM and leaves x0 zero. */
  lemma HandleShape(env: Env, s: State, d: Decoded)
    requires EnvOk(env) && |s.ram| == env.ramSize && Registered(d) && s.x[0] == 0
    ensures Shaped(env, Handle(env, s, d))
  {
    hide EnvOk, HandleBase, HandleCAlu, HandleCMem, Shaped, Registered;
    if !IsCompressed(d.op) {
      BaseShape(env, s, d);
    } else if IsCompressedAlu(d.op) {
      CAluShape(env, s, d);
    } else {
      CMemShape(env, s, d);
    }
  }

  ghost predicate Shaped(env: Env, r: Result) { r.Next? ==> |r.state.ram| == env.ramSize && r.state.x[0] == 0 }

  lemma BaseShape(env: Env, s: State, d: Decoded)
    requires EnvOk(env) && |s.ram| == env.ramSize && Registered(d) && s.x[0] == 0 && !IsCompressed(d.op)
    ensures Shaped(env, HandleBase(env, s, d))
  {
    hide EnvOk, HandleR, HandleI, HandleM, Bits, DramOffset, LoadLE, StoreLE, Extend, ImmOf, ImmI, ImmS, ImmB, ImmU,
         ImmJ;
  }

  lemma CAluShape(env: Env, s: State, d: Decoded)
    requires |s.ram| == env.ramSize && Registered(d) && s.x[0] == 0 && IsCompressedAlu(d.op)
    ensures Shaped(env, HandleCAlu(s, d))
  {
    hide HandleR, Shift64, Bits, Sext32, CImmSigned, CImm4spn, CImm16sp, CImmArith, SetReg;
  }

  lemma CMemShape(env: Env, s: State, d: Decoded)
    requires EnvOk(env) && |s.ram| == env.ramSize && Registered(d) && s.x[0] == 0
    requires IsCompressed(d.op) && !IsCompressedAlu(d.op)
    ensures Shaped(env, HandleCMem(env, s, d))
  {
    hide EnvOk, Bits, DramOffset, LoadLE, StoreLE, Extend, CImmLw, CImmLd, CImmLwsp, CImmLdsp, CImmSwsp, CImmSdsp,
         CImmJ, CImmB;
  }
}
