/** The x86-64 host operations the emitter uses, as operations on registers, flags,
    the hart context, the GPR file in memory, guest RAM and the TLB entry array. */
module Host {
  import opened Words
  import opened Options
  import opened TlbEntries
  import opened Guest

  type HReg = r: int | 0 <= r < 16
  type Regs = s: seq<Word> | |s| == 16 witness seq(16, _ => 0)

  const RAX: HReg := 0
  const RCX: HReg := 1
  const RDX: HReg := 2

  /** The flags of the last flag-setting operation, as a comparison of two words.
      `test`, `and`, `or` and `xor` set the flags of a comparison of their result
      with zero.  After an operation whose flags the emitter never reads there are
      none, and reading them is a fault. */
  datatype Flags = NoFlags | Compared(a: Word, b: Word)

  datatype Cond = E | NE | L | GE | B | AE

  function Invert(c: Cond): Cond
  {
    match c
    case E => NE case NE => E case L => GE case GE => L case B => AE case AE => B
  }

  predicate Holds(c: Cond, a: Word, b: Word)
  {
    match c
    case E => a == b
    case NE => a != b
    case L => S64(a) < S64(b)
    case GE => S64(a) >= S64(b)
    case B => a < b
    case AE => a >= b
  }

  /** Registers, flags and the memory a block may write: the GPR file, RAM, and the
      context's entry_pc, exit_pc and chain_budget. */
  datatype Machine = Machine(regs: Regs, flags: Flags, gpr: Gprs, ram: Ram, entry: Word, exit: Word, budget: int)

  /** 64-bit memory operands: context fields through R12, TLB entry fields through RCX. */
  datatype Operand = CtxEntry | CtxTlbGen | CtxTlbBase | CtxAsid | TlbField(field: Field)
  datatype Field = MaskInv | VBase | Generation | HostPtr | Asid | Perm | Global

  datatype ArithOp = ADD64 | SUB64 | OR64 | AND64 | XOR64 | CMP64

  datatype Op =
    | Mov(d: HReg, s: HReg)
    | Mov32(d: HReg, s: HReg)
    | MovImm(d: HReg, imm: int)
    | Lea(d: HReg, s: HReg, imm: int)
    | Movsxd(d: HReg, s: HReg)
    | Movzx8(d: HReg, s: HReg)
    | SetCc(c: Cond, d: HReg)
    | Arith(op: ArithOp, d: HReg, s: HReg)
    | ArithImm(op: ArithOp, d: HReg, imm: int)
    | And32Imm(d: HReg, imm: int)
    | Cmp32Imm(d: HReg, imm: int)
    | Neg(d: HReg)
    | Neg32(d: HReg)
    | ShiftImm(sh: ShiftOp, d: HReg, n: nat)
    | ShiftImm32(sh: ShiftOp, d: HReg, n: nat)
    | ShiftCl(sh: ShiftOp, d: HReg)
    | ShiftCl32(sh: ShiftOp, d: HReg)
    | Mul(s: HReg)
    | Imul(s: HReg)
    | ImulRR(d: HReg, s: HReg)
    | ImulRR32(d: HReg, s: HReg)
    | Cqo | Cdq
    | Div(s: HReg) | Div32(s: HReg) | Idiv(s: HReg) | Idiv32(s: HReg)
    | Test(a: HReg, b: HReg)
    | TestImm(a: HReg, imm: int)
    | LoadGpr(d: HReg, v: Reg)
    | StoreGpr(v: Reg, s: HReg)
    | LoadOp(d: HReg, m: Operand)
    | ArithMem(op: ArithOp, d: HReg, m: Operand)
    | CmpMem(m: Operand, s: HReg)
    | TestMem(m: Operand)
    | LoadRam(d: HReg, a: HReg, width: nat, signed: bool)
    | StoreRam(a: HReg, s: HReg, width: nat)
    | SetExit(s: HReg)
    | SetEntry(s: HReg)
    | SubBudget(n: nat)
    | SkipIf(c: Cond, n: nat)
    | SkipOver(n: nat)
    | MissIf(c: Cond, site: nat)
    | MissAlways(site: nat)
    | Tail(exit: nat)

  /** Execution is a left fold.  A forward jump over n operations leaves the fold
      skipping; a jump to a miss stub and an exit tail end it. */
  datatype Status =
    | Run(m: Machine)
    | Skip(n: nat, m: Machine)
    | Missed(site: nat, m: Machine)
    | Left(exit: nat, m: Machine)
    | Fault

  function Set(m: Machine, d: HReg, v: Word): Machine { m.(regs := m.regs[d := v]) }

  function SetF(m: Machine, d: HReg, v: Word, f: Flags): Machine { m.(regs := m.regs[d := v], flags := f) }

  /** The TLB entry at a host address, if the address is that of an entry. */
  function EntryAt(env: Env, addr: Word): Option<Entry>
  {
    var off := addr - env.tlbBase;
    if off < 0 || off % 64 != 0 || off / 64 >= |env.tlb| then None else Some(env.tlb[off / 64])
  }

  function FieldOf(e: Entry, f: Field): Word
  {
    match f
    case MaskInv => e.maskInv
    case VBase => e.vbase
    case Generation => e.generation
    case HostPtr => e.hostPtr
    case Asid => U64(e.asid)
    case Perm => e.perm
    case Global => if e.global then 1 else 0
  }

  /** The value a memory operand reads, unless RCX addresses no entry of the array. */
  function Read(env: Env, m: Machine, op: Operand): Option<Word>
  {
    match op
    case CtxEntry => Some(m.entry)
    case CtxTlbGen => Some(env.generation)
    case CtxTlbBase => Some(env.tlbBase)
    case CtxAsid => Some(U64(env.asid))
    case TlbField(f) => (match EntryAt(env, m.regs[RCX]) case None => None case Some(e) => Some(FieldOf(e, f)))
  }

  function ArithValue(op: ArithOp, a: Word, b: Word): Word
  {
    match op
    case ADD64 => Add(a, b)
    case SUB64 => Sub(a, b)
    case OR64 => BitW(Or, a, b)
    case AND64 => BitW(And, a, b)
    case XOR64 => BitW(Xor, a, b)
    case CMP64 => a
  }

  function ArithFlags(op: ArithOp, a: Word, b: Word): Flags
  {
    match op
    case ADD64 => NoFlags
    case SUB64 => Compared(a, b)
    case CMP64 => Compared(a, b)
    case _ => Compared(ArithValue(op, a, b), 0)
  }

  function DoArith(m: Machine, op: ArithOp, d: HReg, b: Word): Machine
  {
    SetF(m, d, ArithValue(op, m.regs[d], b), ArithFlags(op, m.regs[d], b))
  }

  /** The RAM offset a host address stands for. */
  function RamAt(env: Env, m: Machine, a: Word, width: nat): (r: Option<nat>)
    ensures r.Some? ==> r.value + width <= |m.ram|
  {
    if a < env.hostRam || a - env.hostRam + width > |m.ram| then None else Some(a - env.hostRam)
  }

  /** Division: a quotient that does not fit, or a zero divisor, raises #DE. */
  function Divide(m: Machine, n: int, d: int, lo: int, hi: int, signed: bool, wide: bool): Status
  {
    if d == 0 then Fault
    else
      var q := if signed then TruncDiv(n, d) else n / d;
      var r := if signed then TruncRem(n, d) else n % d;
      if q < lo || q > hi then Fault
      else if wide then Run(m.(regs := m.regs[RAX := U64(q)][RDX := U64(r)], flags := NoFlags))
      else Run(m.(regs := m.regs[RAX := U32(q)][RDX := U32(r)], flags := NoFlags))
  }

  function LoadFrom(env: Env, m: Machine, d: HReg, a: Word, w: nat, signed: bool): Status
  {
    if w !in {1, 2, 4, 8} then Fault
    else
      match RamAt(env, m, a, w)
      case None => Fault
      case Some(at) => Run(Set(m, d, Extend(LoadLE(m.ram, at, w), w, signed)))
  }

  function Step(env: Env, op: Op, m: Machine): Status
  {
    var r := m.regs;
    match op
    case Mov(d, s) => Run(Set(m, d, r[s]))
    case Mov32(d, s) => Run(Set(m, d, U32(r[s])))
    case MovImm(d, imm) => Run(Set(m, d, U64(imm)))
    case Lea(d, s, imm) => Run(Set(m, d, Add(r[s], imm)))
    case Movsxd(d, s) => Run(Set(m, d, Sext32(r[s])))
    case Movzx8(d, s) => Run(Set(m, d, r[s] % 256))
    case SetCc(c, d) =>
      if m.flags.NoFlags? then Fault
      else Run(Set(m, d, r[d] - r[d] % 256 + (if Holds(c, m.flags.a, m.flags.b) then 1 else 0)))
    case Arith(o, d, s) => Run(DoArith(m, o, d, r[s]))
    case ArithImm(o, d, imm) => Run(DoArith(m, o, d, U64(imm)))
    case And32Imm(d, imm) => var v := BitW(And, U32(r[d]), U32(imm)); Run(SetF(m, d, v, Compared(v, 0)))
    case Cmp32Imm(d, imm) => Run(m.(flags := Compared(U32(r[d]), U32(imm))))
    case Neg(d) => Run(SetF(m, d, Sub(0, r[d]), NoFlags))
    case Neg32(d) => Run(SetF(m, d, U32(-(r[d] as int)), NoFlags))
    case ShiftImm(sh, d, n) => Run(SetF(m, d, Shift64(sh, r[d], n % 64), NoFlags))
    case ShiftImm32(sh, d, n) => Run(SetF(m, d, Shift32(sh, r[d], n % 32), NoFlags))
    case ShiftCl(sh, d) => Run(SetF(m, d, Shift64(sh, r[d], r[RCX] % 64), NoFlags))
    case ShiftCl32(sh, d) => Run(SetF(m, d, Shift32(sh, r[d], r[RCX] % 32), NoFlags))
    case Mul(s) =>
      var p := (r[RAX] as int) * (r[s] as int);
      Run(m.(regs := r[RAX := U64(p)][RDX := U64(p / M64)], flags := NoFlags))
    case Imul(s) =>
      var p := S64(r[RAX]) * S64(r[s]);
      Run(m.(regs := r[RAX := U64(p)][RDX := U64(p / M64)], flags := NoFlags))
    case ImulRR(d, s) => Run(SetF(m, d, U64((r[d] as int) * (r[s] as int)), NoFlags))
    case ImulRR32(d, s) => Run(SetF(m, d, U32(U32(r[d]) * U32(r[s])), NoFlags))
    case Cqo => Run(Set(m, RDX, if r[RAX] >= 0x8000_0000_0000_0000 then M64 - 1 else 0))
    case Cdq => Run(Set(m, RDX, if U32(r[RAX]) >= 0x8000_0000 then M32 - 1 else 0))
    case Div(s) => Divide(m, r[RDX] * M64 + r[RAX], r[s], 0, M64 - 1, false, true)
    case Div32(s) => Divide(m, U32(r[RDX]) * M32 + U32(r[RAX]), U32(r[s]), 0, M32 - 1, false, false)
    case Idiv(s) => Divide(m, S64(r[RDX]) * M64 + r[RAX], S64(r[s]), -0x8000_0000_0000_0000, 0x7fff_ffff_ffff_ffff,
                           true, true)
    case Idiv32(s) => Divide(m, S32(r[RDX]) * M32 + U32(r[RAX]), S32(r[s]), -0x8000_0000, 0x7fff_ffff, true, false)
    case Test(a, b) => Run(m.(flags := Compared(BitW(And, r[a], r[b]), 0)))
    case TestImm(a, imm) => Run(m.(flags := Compared(BitW(And, r[a], U64(imm)), 0)))
    case LoadGpr(d, v) => Run(Set(m, d, m.gpr[v]))
    case StoreGpr(v, s) => Run(m.(gpr := m.gpr[v := r[s]]))
    case LoadOp(d, mem) => (match Read(env, m, mem) case None => Fault case Some(v) => Run(Set(m, d, v)))
    case ArithMem(o, d, mem) => (match Read(env, m, mem) case None => Fault case Some(v) => Run(DoArith(m, o, d, v)))
    case CmpMem(mem, s) =>
      (match Read(env, m, mem)
       case None => Fault
       case Some(v) => Run(m.(flags := Compared(v, r[s]))))
    case TestMem(mem) => (match Read(env, m, mem) case None => Fault case Some(v) => Run(m.(flags := Compared(v, 0))))
    case LoadRam(d, a, w, sg) => LoadFrom(env, m, d, r[a], w, sg)
    case StoreRam(a, s, w) =>
      (match RamAt(env, m, r[a], w)
       case None => Fault
       case Some(at) => Run(m.(ram := StoreLE(m.ram, at, w, r[s]))))
    case SetExit(s) => Run(m.(exit := r[s]))
    case SetEntry(s) => Run(m.(entry := r[s]))
    case SubBudget(n) => Run(m.(budget := m.budget - n, flags := NoFlags))
    case SkipIf(c, n) =>
      if m.flags.NoFlags? then Fault
      else if n > 0 && Holds(c, m.flags.a, m.flags.b) then Skip(n, m) else Run(m)
    case SkipOver(n) => if n > 0 then Skip(n, m) else Run(m)
    case MissIf(c, site) =>
      if m.flags.NoFlags? then Fault
      else if Holds(c, m.flags.a, m.flags.b) then Missed(site, m) else Run(m)
    case MissAlways(site) => Missed(site, m)
    case Tail(exit) => Left(exit, m)
  }

  function Do(env: Env, op: Op, st: Status): Status
  {
    match st
    case Run(m) => Step(env, op, m)
    case Skip(n, m) => if n <= 1 then Run(m) else Skip(n - 1, m)
    case _ => st
  }

  function Exec(env: Env, code: seq<Op>, st: Status): Status
  {
    if code == [] then st else Exec(env, code[1..], Do(env, code[0], st))
  }

  lemma {:induction false} ExecAppend(env: Env, a: seq<Op>, b: seq<Op>, st: Status)
    ensures Exec(env, a + b, st) == Exec(env, b, Exec(env, a, st))
  {
    if a == [] {
      assert a + b == b;
    } else {
      assert (a + b)[1..] == a[1..] + b;
      ExecAppend(env, a[1..], b, Do(env, a[0], st));
    }
  }

  lemma {:induction false} ExecLeft(env: Env, code: seq<Op>, k: nat, m: Machine)
    ensures Exec(env, code, Left(k, m)) == Left(k, m)
    decreases |code|
  {
    if code != [] { ExecLeft(env, code[1..], k, m); }
  }

  lemma ExecCons(env: Env, a: Op, rest: seq<Op>, st: Status)
    ensures Exec(env, [a] + rest, st) == Exec(env, rest, Do(env, a, st))
  {
    assert ([a] + rest)[1..] == rest;
  }

  lemma Exec1(env: Env, a: Op, st: Status)
    ensures Exec(env, [a], st) == Do(env, a, st)
  {
    assert [a][1..] == [];
  }

  lemma Exec2(env: Env, a: Op, b: Op, st: Status)
    ensures Exec(env, [a, b], st) == Do(env, b, Do(env, a, st))
  {
    assert [a, b][1..] == [b];
    Exec1(env, b, Do(env, a, st));
  }

  lemma Exec3(env: Env, a: Op, b: Op, c: Op, st: Status)
    ensures Exec(env, [a, b, c], st) == Do(env, c, Do(env, b, Do(env, a, st)))
  {
    assert [a, b, c][1..] == [b, c];
    Exec2(env, b, c, Do(env, a, st));
  }

  lemma Exec4(env: Env, a: Op, b: Op, c: Op, d: Op, st: Status)
    ensures Exec(env, [a, b, c, d], st) == Do(env, d, Do(env, c, Do(env, b, Do(env, a, st))))
  {
    assert [a, b, c, d][1..] == [b, c, d];
    Exec3(env, b, c, d, Do(env, a, st));
  }

  lemma Exec5(env: Env, a: Op, b: Op, c: Op, d: Op, e: Op, st: Status)
    ensures Exec(env, [a, b, c, d, e], st) == Do(env, e, Do(env, d, Do(env, c, Do(env, b, Do(env, a, st)))))
  {
    assert [a, b, c, d, e][1..] == [b, c, d, e];
    Exec4(env, b, c, d, e, Do(env, a, st));
  }

  /** Overwriting a register forgets its earlier value. */
  lemma Overwrite(m: Machine, d: HReg, a: Word, b: Word, f: Flags, g: Flags)
    ensures Set(Set(m, d, a), d, b) == Set(m, d, b)
    ensures SetF(Set(m, d, a), d, b, g) == SetF(m, d, b, g)
    ensures SetF(SetF(m, d, a, f), d, b, g) == SetF(m, d, b, g)
    ensures Set(m, d, a).regs[d] == a && SetF(m, d, a, f).regs[d] == a
  {
    assert m.regs[d := a][d := b] == m.regs[d := b];
  }

  // One-step facts, stated so that proofs can chain them without unfolding Step.

  lemma DoLoadField(env: Env, m: Machine, e: Entry, d: HReg, f: Field)
    requires EntryAt(env, m.regs[RCX]) == Some(e)
    ensures Do(env, LoadOp(d, TlbField(f)), Run(m)) == Run(Set(m, d, FieldOf(e, f)))
  {
  }

  lemma DoArithField(env: Env, m: Machine, e: Entry, op: ArithOp, d: HReg, f: Field)
    requires EntryAt(env, m.regs[RCX]) == Some(e)
    ensures Do(env, ArithMem(op, d, TlbField(f)), Run(m)) == Run(DoArith(m, op, d, FieldOf(e, f)))
  {
  }

  lemma DoCmpField(env: Env, m: Machine, e: Entry, f: Field, s: HReg)
    requires EntryAt(env, m.regs[RCX]) == Some(e)
    ensures Do(env, CmpMem(TlbField(f), s), Run(m)) == Run(m.(flags := Compared(FieldOf(e, f), m.regs[s])))
  {
  }

  lemma DoTestField(env: Env, m: Machine, e: Entry, f: Field)
    requires EntryAt(env, m.regs[RCX]) == Some(e)
    ensures Do(env, TestMem(TlbField(f)), Run(m)) == Run(m.(flags := Compared(FieldOf(e, f), 0)))
  {
  }

  lemma DoLoadCtx(env: Env, m: Machine, d: HReg)
    ensures Do(env, LoadOp(d, CtxAsid), Run(m)) == Run(Set(m, d, U64(env.asid)))
    ensures Do(env, LoadOp(d, CtxEntry), Run(m)) == Run(Set(m, d, m.entry))
    ensures Do(env, ArithMem(CMP64, d, CtxTlbGen), Run(m)) == Run(DoArith(m, CMP64, d, env.generation))
    ensures Do(env, ArithMem(ADD64, d, CtxTlbBase), Run(m)) == Run(DoArith(m, ADD64, d, env.tlbBase))
  {
  }

  lemma DoMov(env: Env, m: Machine, d: HReg, s: HReg)
    ensures Do(env, Mov(d, s), Run(m)) == Run(Set(m, d, m.regs[s]))
  {
  }

  lemma DoShiftImm(env: Env, m: Machine, sh: ShiftOp, d: HReg, n: nat)
    requires n < 64
    ensures Do(env, ShiftImm(sh, d, n), Run(m)) == Run(SetF(m, d, Shift64(sh, m.regs[d], n), NoFlags))
  {
  }

  lemma DoArithReg(env: Env, m: Machine, op: ArithOp, d: HReg, s: HReg)
    ensures Do(env, Arith(op, d, s), Run(m)) == Run(DoArith(m, op, d, m.regs[s]))
  {
  }

  lemma DoArithImm(env: Env, m: Machine, op: ArithOp, d: HReg, imm: int)
    ensures Do(env, ArithImm(op, d, imm), Run(m)) == Run(DoArith(m, op, d, U64(imm)))
  {
  }

  lemma DoMissIf(env: Env, m: Machine, c: Cond, site: nat)
    requires m.flags.Compared?
    ensures Do(env, MissIf(c, site), Run(m)) == if Holds(c, m.flags.a, m.flags.b) then Missed(site, m) else Run(m)
  {
  }

  lemma DoSkipIf(env: Env, m: Machine, c: Cond, n: nat)
    requires m.flags.Compared? && n > 0
    ensures Do(env, SkipIf(c, n), Run(m)) == if Holds(c, m.flags.a, m.flags.b) then Skip(n, m) else Run(m)
  {
  }

  lemma DoSetExit(env: Env, m: Machine, s: HReg)
    ensures Do(env, SetExit(s), Run(m)) == Run(m.(exit := m.regs[s]))
    ensures Do(env, SetEntry(s), Run(m)) == Run(m.(entry := m.regs[s]))
  {
  }

  lemma DoLeave(env: Env, m: Machine, n: nat, k: nat)
    ensures Do(env, SubBudget(n), Run(m)) == Run(m.(budget := m.budget - n, flags := NoFlags))
    ensures Do(env, Tail(k), Run(m)) == Left(k, m)
  {
  }

  lemma DoTestImm(env: Env, m: Machine, a: HReg, imm: int)
    ensures Do(env, TestImm(a, imm), Run(m)) == Run(m.(flags := Compared(BitW(And, m.regs[a], U64(imm)), 0)))
  {
  }

  lemma DoLoadRam(env: Env, m: Machine, d: HReg, a: HReg, width: nat, signed: bool)
    ensures Do(env, LoadRam(d, a, width, signed), Run(m)) == LoadFrom(env, m, d, m.regs[a], width, signed)
  {
    hide LoadFrom, Divide;
  }

  lemma LoadFromHost(env: Env, m: Machine, d: HReg, a: Word, width: nat, signed: bool, at: nat)
    requires width in {1, 2, 4, 8} && at + width <= |m.ram| && a == env.hostRam + at
    ensures LoadFrom(env, m, d, a, width, signed) == Run(Set(m, d, Extend(LoadLE(m.ram, at, width), width, signed)))
  {
    hide Extend, LoadLE;
  }
}
