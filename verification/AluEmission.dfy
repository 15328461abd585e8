/** From code that computes a value to an instruction implemented: the proofs behind
    emit_r_to, emit_i_to, emit_u_to and emit_m_r_to. */
module AluEmission {
  import opened Words
  import opened Guest
  import opened Host
  import opened Translators
  import opened AluCode
  import opened MulCode
  import opened RegisterCache
  import opened Outcomes

  /** Register v is cached in host register r and holds its guest value. */
  ghost predicate Loaded(vr: VRegs, v: Reg, r: HReg, skip: int)
  {
    vr[v].slot >= 0 && r == Pool(vr[v].slot) && v != skip
  }

  /** The destination is cached in d; `skip` is it when its copy is still meaningless. */
  ghost predicate Target(vr: VRegs, rd: Reg, d: HReg, skip: int)
  {
    rd != 0 && vr[rd].slot >= 0 && d == Pool(vr[rd].slot) && (skip == -1 || skip == rd)
  }

  function Written(vr: VRegs, rd: Reg): VRegs { vr[rd := VReg(vr[rd].slot, true)] }

  /** The obligation at one machine: the code computes what the action writes to rd. */
  ghost predicate ComputesAction(env: Env, vr: VRegs, skip: int, alu: seq<Op>, rd: Reg, d: HReg, a: Action, size: nat,
                                 m1: Machine, s: State)
    requires EnvOk(env) && |s.ram| == env.ramSize && ActionOk(a)
  {
    exists val: Word :: Computes(env, alu, m1, d, val) && Perform(env, s, a, size) == SetReg(s, rd, val, size)
  }

  lemma FinishAction(env: Env, vr: VRegs, hr: Slots, skip: int, alloc: seq<Op>, alu: seq<Op>, rd: Reg, d: HReg,
                     misses: seq<MissSite>, exits: nat, a: Action, size: nat, idx: nat, off: nat, m: Machine, s: State)
    requires EnvOk(env) && |s.ram| == env.ramSize && ActionOk(a) && CacheOk(vr, hr) && Target(vr, rd, d, skip)
    requires m.ram == s.ram && s.pc == Add(m.entry, off)
    requires KeepsAt(env, alloc, vr, skip, m, s.x)
    requires ComputesAction(env, vr, skip, alu, rd, d, a, size, Exec(env, alloc, Run(m)).m, s)
    ensures Outcome(env, Written(vr, rd), misses, exits, a, size, idx, off, m, s, Exec(env, alloc + alu, Run(m)))
  {
    hide Exec, Perform, EnvOk, CacheOk, ActionOk, Computes, Rep, Outcome;
    var m1 := Exec(env, alloc, Run(m)).m;
    var val: Word :| Computes(env, alu, m1, d, val) && Perform(env, s, a, size) == SetReg(s, rd, val, size);
    FinishAlu(env, vr, hr, skip, alloc, alu, rd, val, misses, exits, a, size, idx, off, m, s);
  }

  lemma RImplements(p: Policy, vr0: VRegs, alloc: seq<Op>, vr: VRegs, hr: Slots, skip: int, misses: seq<MissSite>,
                    exits: nat, a: Action, d: HReg, s1: HReg, s2: HReg, size: nat, idx: nat, off: nat)
    requires a.AluR? && ActionOk(a) && CacheOk(vr, hr) && Keeps(vr0, alloc, vr, skip)
    requires Target(vr, a.rd, d, skip) && Pooled(s1) && Pooled(s2)
    requires a.rs1 != 0 ==> Loaded(vr, a.rs1, s1, skip)
    requires a.rs2 != 0 ==> Loaded(vr, a.rs2, s2, skip)
    ensures Implements(p, vr0, alloc + RFull(a.op, a.word, a.rs1 != 0, a.rs2 != 0, d, s1, s2), Written(vr, a.rd),
                       misses, exits, a, size, idx, off)
  {
    hide Exec, RFull, HandleR, EnvOk, Outcome, Computes;
    var alu := RFull(a.op, a.word, a.rs1 != 0, a.rs2 != 0, d, s1, s2);
    forall env: Env, m: Machine, s: State | EnvOk(env) && Suits(env, p) && Agrees(env, vr0, m, s, off)
      ensures Outcome(env, Written(vr, a.rd), misses, exits, a, size, idx, off, m, s, Exec(env, alloc + alu, Run(m)))
    {
      assert KeepsAt(env, alloc, vr, skip, m, s.x);
      var m1 := Exec(env, alloc, Run(m)).m;
      RFullComputes(env, m1, a.op, a.word, a.rs1 != 0, a.rs2 != 0, d, s1, s2);
      assert Computes(env, alu, m1, d, HandleR(a.op, a.word, s.x[a.rs1], s.x[a.rs2]));
      FinishAction(env, vr, hr, skip, alloc, alu, a.rd, d, misses, exits, a, size, idx, off, m, s);
    }
  }

  lemma IImplements(p: Policy, vr0: VRegs, alloc: seq<Op>, vr: VRegs, hr: Slots, skip: int, misses: seq<MissSite>,
                    exits: nat, a: Action, d: HReg, s1: HReg, size: nat, idx: nat, off: nat)
    requires a.AluI? && ActionOk(a) && CacheOk(vr, hr) && Keeps(vr0, alloc, vr, skip)
    requires Target(vr, a.rd, d, skip) && Pooled(s1)
    requires a.rs1 != 0 ==> Loaded(vr, a.rs1, s1, skip)
    ensures Implements(p, vr0, alloc + IFull(a.op, a.word, a.rs1 != 0, d, s1, a.imm), Written(vr, a.rd),
                       misses, exits, a, size, idx, off)
  {
    hide Exec, IFull, HandleI, EnvOk, Outcome, Computes;
    var alu := IFull(a.op, a.word, a.rs1 != 0, d, s1, a.imm);
    forall env: Env, m: Machine, s: State | EnvOk(env) && Suits(env, p) && Agrees(env, vr0, m, s, off)
      ensures Outcome(env, Written(vr, a.rd), misses, exits, a, size, idx, off, m, s, Exec(env, alloc + alu, Run(m)))
    {
      assert KeepsAt(env, alloc, vr, skip, m, s.x);
      var m1 := Exec(env, alloc, Run(m)).m;
      IFullComputes(env, m1, a.op, a.word, a.rs1 != 0, d, s1, a.imm);
      assert Computes(env, alu, m1, d, HandleI(a.op, a.word, s.x[a.rs1], a.imm));
      FinishAction(env, vr, hr, skip, alloc, alu, a.rd, d, misses, exits, a, size, idx, off, m, s);
    }
  }

  function UCode(a: Action, d: HReg, off: nat): seq<Op>
    requires a.Upper? || a.PcRelative?
  {
    if a.Upper? then [MovImm(d, a.imm)] else [LoadOp(d, CtxEntry), ArithImm(ADD64, d, Int32(a.imm + off))]
  }

  lemma UImplements(p: Policy, vr0: VRegs, alloc: seq<Op>, vr: VRegs, hr: Slots, skip: int, misses: seq<MissSite>,
                    exits: nat, a: Action, d: HReg, size: nat, idx: nat, off: nat)
    requires a.Upper? || a.PcRelative?
    requires ActionOk(a) && CacheOk(vr, hr) && Keeps(vr0, alloc, vr, skip) && off < 0x1000
    requires Target(vr, a.rd, d, skip)
    ensures Implements(p, vr0, alloc + UCode(a, d, off), Written(vr, a.rd), misses, exits, a, size, idx, off)
  {
    hide Exec, UCode, EnvOk, Outcome, Computes;
    forall env: Env, m: Machine, s: State | EnvOk(env) && Suits(env, p) && Agrees(env, vr0, m, s, off)
      ensures Outcome(env, Written(vr, a.rd), misses, exits, a, size, idx, off, m, s,
                      Exec(env, alloc + UCode(a, d, off), Run(m)))
    {
      assert KeepsAt(env, alloc, vr, skip, m, s.x);
      var m1 := Exec(env, alloc, Run(m)).m;
      UComputes(env, m1, a, d, off);
      AddAdd(m.entry, off, a.imm);
      FinishAction(env, vr, hr, skip, alloc, UCode(a, d, off), a.rd, d, misses, exits, a, size, idx, off, m, s);
    }
  }

  lemma UComputes(env: Env, m: Machine, a: Action, d: HReg, off: nat)
    requires (a.Upper? || a.PcRelative?) && ActionOk(a) && Pooled(d) && off < 0x1000
    ensures Computes(env, UCode(a, d, off), m, d, if a.Upper? then U64(a.imm) else Add(m.entry, off + a.imm))
  {
    if a.Upper? {
      Exec1(env, MovImm(d, a.imm), Run(m));
    } else {
      PcRelativeComputes(env, m, d, a.imm, off);
    }
  }

  /** Which of emit_m_r_to's three paths is taken, and its code. */
  function MFull(a: Action, d: HReg, s1: HReg, s2: HReg): seq<Op>
    requires a.MulR?
  {
    if a.rs2 == 0 then NoDivisorCode(a.mop, a.word, d, s1)
    else if a.rs1 == 0 && (IsMul(a.mop) || IsRem(a.mop)) then Zero(d)
    else MCode(a.mop, a.word, d, s1, s2)
  }

  /** rs1 is read on every path except those whose result does not depend on it. */
  predicate ReadsFirst(a: Action)
    requires a.MulR?
  {
    if a.rs2 == 0 then IsRem(a.mop) else !(a.rs1 == 0 && (IsMul(a.mop) || IsRem(a.mop)))
  }

  predicate ReadsSecond(a: Action)
    requires a.MulR?
  {
    a.rs2 != 0 && ReadsFirst(a)
  }

  lemma DivisorIsZero(op: MulOp, word: bool, a: Word, b: Word)
    requires !IsRem(op) && (word ==> op in {MUL, DIV, DIVU, REM, REMU})
    ensures HandleM(op, word, a, 0) == HandleM(op, word, b, 0)
  {
    assert a * 0 == 0 && S64(a) * 0 == 0 && S32(a) * 0 == 0;
    assert b * 0 == 0 && S64(b) * 0 == 0 && S32(b) * 0 == 0;
  }

  lemma MFullComputes(env: Env, m: Machine, a: Action, d: HReg, s1: HReg, s2: HReg, x: Gprs)
    requires a.MulR? && ActionOk(a) && Pooled(d) && Pooled(s1) && Pooled(s2) && x[0] == 0
    requires ReadsFirst(a) ==> m.regs[s1] == x[a.rs1]
    requires ReadsSecond(a) ==> m.regs[s2] == x[a.rs2]
    ensures Computes(env, MFull(a, d, s1, s2), m, d, HandleM(a.mop, a.word, x[a.rs1], x[a.rs2]))
  {
    hide HandleM, Exec, Computes, NoDivisorCode, MCode;
    if a.rs2 == 0 {
      NoDivisorComputes(env, m, a.mop, a.word, d, s1);
      if !IsRem(a.mop) { DivisorIsZero(a.mop, a.word, m.regs[s1], x[a.rs1]); }
    } else if a.rs1 == 0 && (IsMul(a.mop) || IsRem(a.mop)) {
      ZeroComputes(env, m, d);
      ZeroDividend(a.mop, a.word, x[a.rs2]);
    } else {
      MCodeComputes(env, m, a.mop, a.word, d, s1, s2);
    }
  }

  lemma MImplements(p: Policy, vr0: VRegs, alloc: seq<Op>, vr: VRegs, hr: Slots, skip: int, misses: seq<MissSite>,
                    exits: nat, a: Action, d: HReg, s1: HReg, s2: HReg, size: nat, idx: nat, off: nat)
    requires a.MulR? && ActionOk(a) && CacheOk(vr, hr) && Keeps(vr0, alloc, vr, skip)
    requires Target(vr, a.rd, d, skip) && Pooled(s1) && Pooled(s2)
    requires ReadsFirst(a) ==> Loaded(vr, a.rs1, s1, skip)
    requires ReadsSecond(a) ==> Loaded(vr, a.rs2, s2, skip)
    ensures Implements(p, vr0, alloc + MFull(a, d, s1, s2), Written(vr, a.rd), misses, exits, a, size, idx, off)
  {
    hide Exec, MFull, HandleM, EnvOk, Outcome, Computes, ReadsFirst;
    var alu := MFull(a, d, s1, s2);
    forall env: Env, m: Machine, s: State | EnvOk(env) && Suits(env, p) && Agrees(env, vr0, m, s, off)
      ensures Outcome(env, Written(vr, a.rd), misses, exits, a, size, idx, off, m, s, Exec(env, alloc + alu, Run(m)))
    {
      assert KeepsAt(env, alloc, vr, skip, m, s.x);
      var m1 := Exec(env, alloc, Run(m)).m;
      MFullComputes(env, m1, a, d, s1, s2, s.x);
      assert Computes(env, alu, m1, d, HandleM(a.mop, a.word, s.x[a.rs1], s.x[a.rs2]));
      FinishAction(env, vr, hr, skip, alloc, alu, a.rd, d, misses, exits, a, size, idx, off, m, s);
    }
  }

  lemma NothingImplements(p: Policy, vr: VRegs, misses: seq<MissSite>, exits: nat, size: nat, idx: nat, off: nat)
    ensures Implements(p, vr, [], vr, misses, exits, Nothing, size, idx, off)
  {
    forall env: Env, m: Machine, s: State | EnvOk(env) && Suits(env, p) && Agrees(env, vr, m, s, off)
      ensures Outcome(env, vr, misses, exits, Nothing, size, idx, off, m, s, Exec(env, [], Run(m)))
    {
      AddAdd(m.entry, off, size);
    }
  }
}
