/** Block exits: chain tails, conditional exits and jumps. */
module ExitEmission {
  import opened Words
  import opened Guest
  import opened Host
  import opened Translators
  import opened AluCode
  import opened MulCode
  import opened InlineTlb
  import opened RegisterCache
  import opened Outcomes
  import opened AluEmission

  /** The exit pc in RAX is committed, the slice of the budget charged, and the chain
      tail of exit k entered. */
  function TailCode(count: nat, k: nat): seq<Op> { [SetExit(RAX), SetEntry(RAX), SubBudget(count), Tail(k)] }

  function TargetCode(delta: int): seq<Op> { [LoadOp(RAX, CtxEntry), ArithImm(ADD64, RAX, Int32(delta))] }

  function EvenCode(align: bool, site: nat): seq<Op> { if align then [TestImm(RAX, 1), MissIf(NE, site)] else [] }

  function TakenCode(delta: int, align: bool, site: nat, count: nat, k: nat): seq<Op>
  {
    TargetCode(delta) + EvenCode(align, site) + TailCode(count, k)
  }

  function LeaveCode(delta: int, count: nat, k: nat): seq<Op> { TargetCode(delta) + TailCode(count, k) }

  /** Everything is in memory and only scratch registers matter. */
  ghost predicate Flushed(vr: VRegs, m: Machine, s: State)
  {
    AllClean(vr) && Rep(vr, m, s.x, -1) && m.ram == s.ram
  }

  lemma TailLeaves(env: Env, vr: VRegs, m: Machine, s: State, pc: Word, count: nat, k: nat)
    requires Flushed(vr, m, s) && m.regs[RAX] == pc
    ensures var st := Exec(env, TailCode(count, k), Run(m));
            st.Left? && st.exit == k && ExitOk(m, st.m, s.(pc := pc), count)
  {
    hide Exec, Do;
    Exec4(env, SetExit(RAX), SetEntry(RAX), SubBudget(count), Tail(k), Run(m));
    var m1 := m.(exit := pc);
    var m2 := m1.(entry := pc);
    DoSetExit(env, m, RAX);
    DoSetExit(env, m1, RAX);
    DoLeave(env, m2, count, k);
    DoLeave(env, m2.(budget := m2.budget - count, flags := NoFlags), count, k);
  }

  lemma TargetRuns(env: Env, vr: VRegs, m: Machine, s: State, delta: int)
    requires Flushed(vr, m, s) && -0x40_0000 <= delta < 0x40_0000
    ensures var st := Exec(env, TargetCode(delta), Run(m));
            && st.Run? && st.m.regs[RAX] == Add(m.entry, delta)
            && Flushed(vr, st.m, s) && SameContext(m, st.m)
  {
    hide Exec;
    Int32Small(delta);
    EntryPlus(env, m, RAX, delta);
  }

  lemma AlignRuns(env: Env, vr: VRegs, m: Machine, s: State, align: bool, site: nat)
    requires Flushed(vr, m, s)
    ensures var st := Exec(env, EvenCode(align, site), Run(m));
            && (if align && m.regs[RAX] % 2 != 0 then st.Missed? && st.site == site else st.Run?)
            && st.m.regs == m.regs && Flushed(vr, st.m, s) && SameContext(m, st.m)
  {
    hide Exec, Do;
    if align {
      Exec2(env, TestImm(RAX, 1), MissIf(NE, site), Run(m));
      DoTestImm(env, m, RAX, 1);
      DoMissIf(env, m.(flags := Compared(BitW(And, m.regs[RAX], 1), 0)), NE, site);
      AndOne(m.regs[RAX]);
    } else {
      ExecNone(env, m);
    }
  }

  /** The taken side of a branch, or the body of a direct jump. */
  ghost predicate Departs(m: Machine, s: State, target: Word, align: bool, misses: seq<MissSite>, site: nat, count: nat,
                          k: nat, st: Status)
  {
    if align && target % 2 != 0 then
      && st.Missed? && st.site == site && site < |misses|
      && Precise(misses[site], st.m, s) && SameContext(m, st.m)
    else
      st.Left? && st.exit == k && ExitOk(m, st.m, s.(pc := target), count)
  }

  /** With nothing dirty, a miss has nothing to commit. */
  lemma CleanPrecise(vr: VRegs, m: Machine, s: State, site: MissSite)
    requires Flushed(vr, m, s) && site.dirty == []
    ensures Precise(site, m, s)
  {
  }

  /** Once the target is in RAX: check it, then leave. */
  lemma DepartsFrom(env: Env, vr: VRegs, m: Machine, s: State, target: Word, align: bool, misses: seq<MissSite>,
                    site: nat, count: nat, k: nat)
    requires Flushed(vr, m, s) && m.regs[RAX] == target
    requires align ==> site < |misses| && misses[site].dirty == []
    ensures Departs(m, s, target, align, misses, site, count, k,
                    Exec(env, EvenCode(align, site) + TailCode(count, k), Run(m)))
  {
    hide Exec, TailCode, EvenCode, Flushed, ExitOk, Precise;
    ExecAppend(env, EvenCode(align, site), TailCode(count, k), Run(m));
    AlignRuns(env, vr, m, s, align, site);
    var st := Exec(env, EvenCode(align, site), Run(m));
    if align && target % 2 != 0 {
      ExecMissed(env, TailCode(count, k), site, st.m);
      CleanPrecise(vr, st.m, s, misses[site]);
    } else {
      TailLeaves(env, vr, st.m, s, target, count, k);
      ExitFrom(m, st.m, Exec(env, TailCode(count, k), st).m, s.(pc := target), count);
    }
  }

  lemma ExitFrom(m: Machine, m1: Machine, m': Machine, s': State, count: nat)
    requires SameContext(m, m1) && ExitOk(m1, m', s', count)
    ensures ExitOk(m, m', s', count)
  {
  }

  lemma TakenDeparts(env: Env, vr: VRegs, m: Machine, s: State, off: nat, imm: int, align: bool, misses: seq<MissSite>,
                     site: nat, count: nat, k: nat)
    requires Flushed(vr, m, s) && s.pc == Add(m.entry, off) && off <= 0x1000 && SmallImm(imm)
    requires align ==> site < |misses| && misses[site].dirty == []
    ensures Departs(m, s, Add(s.pc, imm), align, misses, site, count, k,
                    Exec(env, TakenCode(off + imm, align, site, count, k), Run(m)))
  {
    hide Exec, TailCode, EvenCode, TargetCode, Flushed, ExitOk, Precise;
    var rest := EvenCode(align, site) + TailCode(count, k);
    assert TakenCode(off + imm, align, site, count, k) == TargetCode(off + imm) + rest;
    ExecAppend(env, TargetCode(off + imm), rest, Run(m));
    TargetRuns(env, vr, m, s, off + imm);
    AddAdd(m.entry, off, imm);
    var m1 := Exec(env, TargetCode(off + imm), Run(m)).m;
    DepartsFrom(env, vr, m1, s, Add(s.pc, imm), align, misses, site, count, k);
    var st := Exec(env, rest, Run(m1));
    if st.Left? { ExitFrom(m, m1, st.m, s.(pc := Add(s.pc, imm)), count); }
  }

  lemma LeaveDeparts(env: Env, vr: VRegs, m: Machine, s: State, off: nat, delta: int, count: nat, k: nat)
    requires Flushed(vr, m, s) && s.pc == Add(m.entry, off) && off <= 0x1000 && SmallImm(delta)
    ensures var st := Exec(env, LeaveCode(off + delta, count, k), Run(m));
            st.Left? && st.exit == k && ExitOk(m, st.m, s.(pc := Add(s.pc, delta)), count)
  {
    hide Exec, TailCode, EvenCode, TargetCode, Flushed, ExitOk, Precise;
    TakenDeparts(env, vr, m, s, off, delta, false, [], 0, count, k);
    NoAlign(off + delta, count, k);
  }

  lemma NoAlign(delta: int, count: nat, k: nat)
    ensures TakenCode(delta, false, 0, count, k) == LeaveCode(delta, count, k)
  {
    assert TargetCode(delta) + [] == TargetCode(delta);
  }

  // Conditional exits ------------------------------------------------------------------

  /** The action is a branch on `a c b` to pc + imm. */
  ghost predicate Branches(env: Env, s: State, act: Action, size: nat, c: Cond, a: Word, b: Word, imm: int, align: bool)
    requires EnvOk(env) && |s.ram| == env.ramSize && ActionOk(act)
  {
    Perform(env, s, act, size) ==
    if !Holds(c, a, b) then Next(s.(pc := Add(s.pc, size)))
    else if align && Add(s.pc, imm) % 2 != 0 then Yield
    else Next(s.(pc := Add(s.pc, imm)))
  }

  /** Superblock form: the taken side leaves, the other side goes on inline. */
  function SuperCode(cmp: Op, c: Cond, taken: seq<Op>): seq<Op>
  {
    [cmp] + ([SkipIf(Invert(c), |taken|)] + taken)
  }

  /** Final form: both sides leave. */
  function FinalCode(cmp: Op, c: Cond, fall: seq<Op>, taken: seq<Op>): seq<Op>
  {
    [cmp] + (([SkipIf(c, |fall|)] + fall) + taken)
  }

  /** The operands are loaded, everything is flushed, and cmp compares a with b. */
  ghost predicate Compares(env: Env, alloc: seq<Op>, vr: VRegs, m: Machine, s: State, off: nat, cmp: Op, a: Word,
                           b: Word)
  {
    && AllClean(vr) && KeepsAt(env, alloc, vr, -1, m, s.x)
    && m.ram == s.ram && |s.ram| == env.ramSize && s.pc == Add(m.entry, off)
    && var m1 := Exec(env, alloc, Run(m)).m;
       Do(env, cmp, Run(m1)) == Run(m1.(flags := Compared(a, b)))
  }

  lemma ComparesFlushed(env: Env, alloc: seq<Op>, vr: VRegs, m: Machine, s: State, off: nat, cmp: Op, a: Word, b: Word,
                        f: seq<Op>)
    requires Compares(env, alloc, vr, m, s, off, cmp, a, b)
    ensures Exec(env, alloc, Run(m)).Run?
    ensures var m2 := Exec(env, alloc, Run(m)).m.(flags := Compared(a, b));
            && Flushed(vr, m2, s) && SameContext(m, m2) && s.pc == Add(m2.entry, off)
            && Exec(env, alloc + ([cmp] + f), Run(m)) == Exec(env, f, Run(m2))
  {
    hide Exec, Do;
    ExecAppend(env, alloc, [cmp] + f, Run(m));
    ExecCons(env, cmp, f, Exec(env, alloc, Run(m)));
  }

  lemma InvertHolds(c: Cond, a: Word, b: Word)
    ensures Holds(Invert(c), a, b) == !Holds(c, a, b)
  {
  }

  lemma TakenEmits(delta: int, align: bool, site: nat, count: nat, k: nat)
    ensures TakenCode(delta, align, site, count, k) != [] && LeaveCode(delta, count, k) != []
  {
  }

  lemma TakenOutcome(env: Env, vr': VRegs, misses: seq<MissSite>, exits: nat, act: Action, size: nat, idx: nat,
                     off: nat, m: Machine, s: State, c: Cond, a: Word, b: Word, imm: int, align: bool, site: nat,
                     k: nat, m2: Machine, st: Status)
    requires EnvOk(env) && |s.ram| == env.ramSize && ActionOk(act)
    requires Branches(env, s, act, size, c, a, b, imm, align) && Holds(c, a, b) && k < exits
    requires align ==> site < |misses| && misses[site] == MissSite(idx, off, [])
    requires SameContext(m, m2) && Departs(m2, s, Add(s.pc, imm), align, misses, site, idx + 1, k, st)
    ensures Outcome(env, vr', misses, exits, act, size, idx, off, m, s, st)
  {
    hide Perform, EnvOk, ActionOk, Agrees, Precise, ExitOk;
    if st.Left? { ExitFrom(m, m2, st.m, s.(pc := Add(s.pc, imm)), idx + 1); }
  }

  lemma SuperOutcome(env: Env, alloc: seq<Op>, vr: VRegs, misses: seq<MissSite>, exits: nat, act: Action, size: nat,
                     idx: nat, off: nat, m: Machine, s: State, cmp: Op, c: Cond, a: Word, b: Word, imm: int,
                     align: bool, site: nat, k: nat)
    requires EnvOk(env) && |s.ram| == env.ramSize && ActionOk(act)
    requires Compares(env, alloc, vr, m, s, off, cmp, a, b) && off < 0x1000 && SmallImm(imm)
    requires Branches(env, s, act, size, c, a, b, imm, align) && k < exits
    requires align ==> site < |misses| && misses[site] == MissSite(idx, off, [])
    ensures Outcome(env, vr, misses, exits, act, size, idx, off, m, s,
                    Exec(env, alloc + SuperCode(cmp, c, TakenCode(off + imm, align, site, idx + 1, k)), Run(m)))
  {
    hide Exec, Do, TakenCode, Perform, EnvOk, ActionOk, Precise, ExitOk, Departs, Compares, Rep, Holds;
    var taken := TakenCode(off + imm, align, site, idx + 1, k);
    ComparesFlushed(env, alloc, vr, m, s, off, cmp, a, b, [SkipIf(Invert(c), |taken|)] + taken);
    var m2 := Exec(env, alloc, Run(m)).m.(flags := Compared(a, b));
    TakenEmits(off + imm, align, site, idx + 1, k);
    ExecJumpOver(env, Invert(c), taken, m2);
    InvertHolds(c, a, b);
    if Holds(c, a, b) {
      TakenDeparts(env, vr, m2, s, off, imm, align, misses, site, idx + 1, k);
      TakenOutcome(env, vr, misses, exits, act, size, idx, off, m, s, c, a, b, imm, align, site, k, m2,
                   Exec(env, taken, Run(m2)));
    } else {
      AddAdd(m.entry, off, size);
    }
  }

  lemma FinalOutcome(env: Env, alloc: seq<Op>, vr: VRegs, misses: seq<MissSite>, exits: nat, act: Action, size: nat,
                     idx: nat, off: nat, m: Machine, s: State, cmp: Op, c: Cond, a: Word, b: Word, imm: int,
                     align: bool, site: nat, k: nat)
    requires EnvOk(env) && |s.ram| == env.ramSize && ActionOk(act)
    requires Compares(env, alloc, vr, m, s, off, cmp, a, b) && off < 0x1000 && SmallImm(imm) && SmallImm(size)
    requires Branches(env, s, act, size, c, a, b, imm, align) && k + 1 < exits
    requires align ==> site < |misses| && misses[site] == MissSite(idx, off, [])
    ensures Outcome(env, vr, misses, exits, act, size, idx, off, m, s,
                    Exec(env, alloc + FinalCode(cmp, c, LeaveCode(off + size, idx + 1, k),
                                                TakenCode(off + imm, align, site, idx + 1, k + 1)), Run(m)))
    ensures !Exec(env, alloc + FinalCode(cmp, c, LeaveCode(off + size, idx + 1, k),
                                         TakenCode(off + imm, align, site, idx + 1, k + 1)), Run(m)).Run?
  {
    hide Exec, Do, TakenCode, LeaveCode, Perform, EnvOk, ActionOk, Precise, Compares, Rep, Holds;
    var taken := TakenCode(off + imm, align, site, idx + 1, k + 1);
    var fall := LeaveCode(off + size, idx + 1, k);
    ComparesFlushed(env, alloc, vr, m, s, off, cmp, a, b, ([SkipIf(c, |fall|)] + fall) + taken);
    var m2 := Exec(env, alloc, Run(m)).m.(flags := Compared(a, b));
    TakenEmits(off + size, align, site, idx + 1, k);
    ExecAppend(env, [SkipIf(c, |fall|)] + fall, taken, Run(m2));
    ExecJumpOver(env, c, fall, m2);
    if Holds(c, a, b) {
      TakenDeparts(env, vr, m2, s, off, imm, align, misses, site, idx + 1, k + 1);
      TakenOutcome(env, vr, misses, exits, act, size, idx, off, m, s, c, a, b, imm, align, site, k + 1, m2,
                   Exec(env, taken, Run(m2)));
    } else {
      LeaveDeparts(env, vr, m2, s, off, size, idx + 1, k);
      ExecLeft(env, taken, k, Exec(env, fall, Run(m2)).m);
    }
  }

  /** Two registers compared, or one tested against itself. */
  function CompareOp(a: Action, s1: HReg, s2: HReg): Op
  {
    if a.CondExit? then Arith(CMP64, s1, s2) else Test(s1, s1)
  }

  ghost predicate OperandsLoaded(vr: VRegs, a: Action, s1: HReg, s2: HReg)
  {
    || (a.CondExit? && Loaded(vr, a.rs1, s1, -1) && Loaded(vr, a.rs2, s2, -1))
    || (a.CondExitZero? && Loaded(vr, a.rs, s1, -1))
  }

  lemma CompareRuns(env: Env, alloc: seq<Op>, vr: VRegs, act: Action, s1: HReg, s2: HReg, size: nat, off: nat,
                    m: Machine, s: State)
    returns (a: Word, b: Word)
    requires EnvOk(env) && |s.ram| == env.ramSize && ActionOk(act) && OperandsLoaded(vr, act, s1, s2)
    requires AllClean(vr) && KeepsAt(env, alloc, vr, -1, m, s.x) && m.ram == s.ram && s.pc == Add(m.entry, off)
    ensures Compares(env, alloc, vr, m, s, off, CompareOp(act, s1, s2), a, b)
    ensures Branches(env, s, act, size, act.cond, a, b, act.imm, act.CondExit? && act.align)
  {
    hide Exec, EnvOk;
    var m1 := Exec(env, alloc, Run(m)).m;
    if act.CondExit? {
      a, b := s.x[act.rs1], s.x[act.rs2];
      CompareStep(env, m1, s1, s2);
    } else {
      a, b := s.x[act.rs], 0;
      TestStep(env, m1, s1);
    }
  }

  lemma CompareStep(env: Env, m: Machine, s1: HReg, s2: HReg)
    ensures Do(env, Arith(CMP64, s1, s2), Run(m)) == Run(m.(flags := Compared(m.regs[s1], m.regs[s2])))
  {
    assert m.regs[s1 := m.regs[s1]] == m.regs;
  }

  lemma TestStep(env: Env, m: Machine, s: HReg)
    ensures Do(env, Test(s, s), Run(m)) == Run(m.(flags := Compared(m.regs[s], 0)))
  {
    BitsSelf(m.regs[s]);
  }

  lemma SuperImplements(p: Policy, vr0: VRegs, alloc: seq<Op>, vr: VRegs, misses: seq<MissSite>, exits: nat,
                        act: Action, s1: HReg, s2: HReg, site: nat, k: nat, size: nat, idx: nat, off: nat)
    requires (act.CondExit? || act.CondExitZero?) && ActionOk(act) && OperandsLoaded(vr, act, s1, s2)
    requires Keeps(vr0, alloc, vr, -1) && AllClean(vr) && off < 0x1000 && k < exits
    requires act.CondExit? && act.align ==> site < |misses| && misses[site] == MissSite(idx, off, [])
    ensures var taken := TakenCode(off + act.imm, act.CondExit? && act.align, site, idx + 1, k);
      var full := alloc + SuperCode(CompareOp(act, s1, s2), act.cond, taken);
      Implements(p, vr0, full, vr, misses, exits, act, size, idx, off)
  {
    hide Exec, SuperCode, TakenCode, EnvOk, Outcome, Compares, Branches, CompareOp, AllClean, OperandsLoaded;
    var align := act.CondExit? && act.align;
    var full := alloc + SuperCode(CompareOp(act, s1, s2), act.cond, TakenCode(off + act.imm, align, site, idx + 1, k));
    forall env: Env, m: Machine, s: State | EnvOk(env) && Suits(env, p) && Agrees(env, vr0, m, s, off)
      ensures Outcome(env, vr, misses, exits, act, size, idx, off, m, s, Exec(env, full, Run(m)))
    {
      assert KeepsAt(env, alloc, vr, -1, m, s.x);
      var a, b := CompareRuns(env, alloc, vr, act, s1, s2, size, off, m, s);
      SuperOutcome(env, alloc, vr, misses, exits, act, size, idx, off, m, s, CompareOp(act, s1, s2), act.cond, a, b,
                   act.imm, align, site, k);
    }
  }

  lemma FinalImplements(p: Policy, vr0: VRegs, alloc: seq<Op>, vr: VRegs, misses: seq<MissSite>, exits: nat,
                        act: Action, s1: HReg, s2: HReg, site: nat, k: nat, size: nat, idx: nat, off: nat)
    requires (act.CondExit? || act.CondExitZero?) && ActionOk(act) && OperandsLoaded(vr, act, s1, s2)
    requires Keeps(vr0, alloc, vr, -1) && AllClean(vr) && off < 0x1000 && k + 1 < exits && size <= 4
    requires act.CondExit? && act.align ==> site < |misses| && misses[site] == MissSite(idx, off, [])
    ensures var taken := TakenCode(off + act.imm, act.CondExit? && act.align, site, idx + 1, k + 1);
      var full := alloc + FinalCode(CompareOp(act, s1, s2), act.cond, LeaveCode(off + size, idx + 1, k), taken);
      Implements(p, vr0, full, vr, misses, exits, act, size, idx, off) && Closes(p, vr0, full, off)
  {
    hide Exec, FinalCode, TakenCode, LeaveCode, EnvOk, Outcome, Compares, Branches, CompareOp, AllClean,
         OperandsLoaded;
    var align := act.CondExit? && act.align;
    var full := alloc + FinalCode(CompareOp(act, s1, s2), act.cond, LeaveCode(off + size, idx + 1, k),
                                  TakenCode(off + act.imm, align, site, idx + 1, k + 1));
    forall env: Env, m: Machine, s: State | EnvOk(env) && Suits(env, p) && Agrees(env, vr0, m, s, off)
      ensures Outcome(env, vr, misses, exits, act, size, idx, off, m, s, Exec(env, full, Run(m)))
      ensures !Exec(env, full, Run(m)).Run?
    {
      assert KeepsAt(env, alloc, vr, -1, m, s.x);
      var a, b := CompareRuns(env, alloc, vr, act, s1, s2, size, off, m, s);
      FinalOutcome(env, alloc, vr, misses, exits, act, size, idx, off, m, s, CompareOp(act, s1, s2), act.cond, a, b,
                   act.imm, align, site, k);
    }
  }

  // Jumps --------------------------------------------------------------------------------

  function AddUnless0(imm: int): seq<Op> { if imm != 0 then [ArithImm(ADD64, RAX, Int32(imm))] else [] }

  function JumpTarget(a: Action, s1: HReg, off: nat): seq<Op>
    requires a.Jump?
  {
    if a.fromRs1 then [Mov(RAX, s1)] + AddUnless0(a.imm) + [ArithImm(AND64, RAX, -2)] else TargetCode(off + a.imm)
  }

  function Destination(a: Action, s: State): Word
    requires a.Jump?
  {
    if a.fromRs1 then BitW(And, Add(s.x[a.rs1], a.imm), M64 - 2) else Add(s.pc, a.imm)
  }

  function LinkCode(d: HReg, delta: int): seq<Op> { [LoadOp(d, CtxEntry), ArithImm(ADD64, d, Int32(delta))] }

  lemma IndirectRuns(env: Env, vr: VRegs, m: Machine, s: State, s1: HReg, imm: int)
    requires Flushed(vr, m, s) && SmallImm(imm)
    ensures var st := Exec(env, [Mov(RAX, s1)] + AddUnless0(imm) + [ArithImm(AND64, RAX, -2)], Run(m));
            && st.Run? && st.m.regs[RAX] == BitW(And, Add(m.regs[s1], imm), M64 - 2)
            && Flushed(vr, st.m, s) && SameContext(m, st.m)
  {
    hide Exec, Do, Bits;
    var m1 := Set(m, RAX, m.regs[s1]);
    DoMov(env, m, RAX, s1);
    Int32Small(imm);
    if imm != 0 {
      assert [Mov(RAX, s1)] + AddUnless0(imm) + [ArithImm(AND64, RAX, -2)] ==
             [Mov(RAX, s1), ArithImm(ADD64, RAX, imm), ArithImm(AND64, RAX, -2)];
      Exec3(env, Mov(RAX, s1), ArithImm(ADD64, RAX, imm), ArithImm(AND64, RAX, -2), Run(m));
      DoArithImm(env, m1, ADD64, RAX, imm);
      DoArithImm(env, DoArith(m1, ADD64, RAX, U64(imm)), AND64, RAX, -2);
      AddWraps(m.regs[s1], imm);
    } else {
      assert [Mov(RAX, s1)] + AddUnless0(imm) + [ArithImm(AND64, RAX, -2)] == [Mov(RAX, s1), ArithImm(AND64, RAX, -2)];
      Exec2(env, Mov(RAX, s1), ArithImm(AND64, RAX, -2), Run(m));
      DoArithImm(env, m1, AND64, RAX, -2);
      AddZero(m.regs[s1]);
    }
  }

  lemma LinkRuns(env: Env, m: Machine, d: HReg, delta: int)
    requires Pooled(d) && 0 <= delta < 0x2000
    ensures Computes(env, LinkCode(d, delta), m, d, Add(m.entry, delta))
    ensures Exec(env, LinkCode(d, delta), Run(m)).m.regs[RAX] == m.regs[RAX]
  {
    hide Exec, Do;
    Int32Small(delta);
    EntryPlus(env, m, d, delta);
    Exec2(env, LoadOp(d, CtxEntry), ArithImm(ADD64, d, delta), Run(m));
    DoLoadCtx(env, m, d);
    DoArithImm(env, Set(m, d, m.entry), ADD64, d, delta);
  }

  /** The guest state after the jump. */
  function Jumped(a: Action, s: State, size: nat): State
    requires a.Jump?
  {
    s.(pc := Destination(a, s), x := Write(s.x, a.link, Add(s.pc, size)))
  }

  /** The last part of a jump: reserve and compute the link, flush it, leave. */
  ghost predicate LinkAlloc(vr1: VRegs, hr3: Slots, f3: seq<Op>, vr3: VRegs, f4: seq<Op>, vr4: VRegs, link: Reg,
                            d: HReg, skip: int)
  {
    && AllClean(vr4)
    && if link == 0 then f3 == [] && vr3 == vr1 && Keeps(vr1, f4, vr4, -1)
       else CacheOk(vr3, hr3) && Keeps(vr1, f3, vr3, skip) && Target(vr3, link, d, skip) &&
            Keeps(Written(vr3, link), f4, vr4, -1)
  }

  function LinkFull(link: Reg, f3: seq<Op>, d: HReg, delta: int, f4: seq<Op>): seq<Op>
  {
    f3 + ((if link == 0 then [] else LinkCode(d, delta)) + f4)
  }

  lemma LinkStage(env: Env, m: Machine, s: State, vr1: VRegs, hr3: Slots, f3: seq<Op>, vr3: VRegs, f4: seq<Op>,
                  vr4: VRegs, link: Reg, d: HReg, skip: int, off: nat, size: nat)
    requires Flushed(vr1, m, s) && s.pc == Add(m.entry, off) && off < 0x1000 && size <= 4
    requires LinkAlloc(vr1, hr3, f3, vr3, f4, vr4, link, d, skip)
    ensures var st := Exec(env, LinkFull(link, f3, d, off + size, f4), Run(m));
            && st.Run? && Flushed(vr4, st.m, s.(x := Write(s.x, link, Add(s.pc, size))))
            && SameContext(m, st.m) && st.m.regs[RAX] == m.regs[RAX]
  {
    hide Exec, LinkCode, CacheOk, Rep, Computes;
    if link == 0 {
      assert LinkFull(link, f3, d, off + size, f4) == f4;
      assert KeepsAt(env, f4, vr4, -1, m, s.x);
      WriteZeroRep(vr1, m, s.x, Add(s.pc, size));
    } else {
      ExecAppend(env, f3, LinkCode(d, off + size) + f4, Run(m));
      assert KeepsAt(env, f3, vr3, skip, m, s.x);
      var m3 := Exec(env, f3, Run(m)).m;
      ExecAppend(env, LinkCode(d, off + size), f4, Run(m3));
      LinkRuns(env, m3, d, off + size);
      AddAdd(m.entry, off, size);
      var val := Add(s.pc, size);
      ResultRep(env, vr3, hr3, m3, s.x, skip, link, LinkCode(d, off + size), val);
      ComputesRuns(env, LinkCode(d, off + size), m3, d, val);
      var m5 := Exec(env, LinkCode(d, off + size), Run(m3)).m;
      assert KeepsAt(env, f4, vr4, -1, m5, Write(s.x, link, val));
    }
  }

  lemma WriteZeroRep(vr: VRegs, m: Machine, x: Gprs, v: Word)
    requires Rep(vr, m, x, -1)
    ensures Write(x, 0, v) == x
  {
  }

  lemma ComputesRuns(env: Env, code: seq<Op>, m: Machine, d: HReg, v: Word)
    requires Computes(env, code, m, d, v)
    ensures var st := Exec(env, code, Run(m)); st.Run? && st.m.ram == m.ram && SameContext(m, st.m)
  {
  }

  /** A jump's code after its operands are ready. */
  function JumpCode(a: Action, s1: HReg, off: nat, size: nat, site: nat, f3: seq<Op>, d: HReg, f4: seq<Op>, count: nat,
                    k: nat): seq<Op>
    requires a.Jump?
  {
    JumpTarget(a, s1, off) + (EvenCode(a.align, site) + (LinkFull(a.link, f3, d, off + size, f4) + TailCode(count, k)))
  }

  lemma TargetStage(env: Env, vr: VRegs, m: Machine, s: State, a: Action, s1: HReg, off: nat)
    requires a.Jump? && ActionOk(a) && off < 0x1000 && Flushed(vr, m, s) && s.pc == Add(m.entry, off)
    requires a.fromRs1 ==> Loaded(vr, a.rs1, s1, -1)
    ensures var st := Exec(env, JumpTarget(a, s1, off), Run(m));
            && st.Run? && st.m.regs[RAX] == Destination(a, s)
            && Flushed(vr, st.m, s) && SameContext(m, st.m)
  {
    hide Exec, Do, Bits;
    if a.fromRs1 {
      IndirectRuns(env, vr, m, s, s1, a.imm);
    } else {
      TargetRuns(env, vr, m, s, off + a.imm);
      AddAdd(m.entry, off, a.imm);
    }
  }

  lemma JumpDeparts(env: Env, a: Action, m: Machine, s: State, vr1: VRegs, hr3: Slots, s1: HReg, f3: seq<Op>,
                    vr3: VRegs, f4: seq<Op>, vr4: VRegs, d: HReg, skip: int, misses: seq<MissSite>, site: nat, k: nat,
                    size: nat, idx: nat, off: nat)
    requires a.Jump? && ActionOk(a) && Flushed(vr1, m, s) && s.pc == Add(m.entry, off) && off < 0x1000 && size <= 4
    requires a.fromRs1 ==> Loaded(vr1, a.rs1, s1, -1)
    requires LinkAlloc(vr1, hr3, f3, vr3, f4, vr4, a.link, d, skip)
    requires a.align ==> site < |misses| && misses[site].dirty == []
    ensures var st := Exec(env, JumpCode(a, s1, off, size, site, f3, d, f4, idx + 1, k), Run(m));
            if a.align && Destination(a, s) % 2 != 0 then
              st.Missed? && st.site == site && Precise(misses[site], st.m, s) && SameContext(m, st.m)
            else st.Left? && st.exit == k && ExitOk(m, st.m, Jumped(a, s, size), idx + 1)
  {
    hide Exec, JumpTarget, EvenCode, TailCode, LinkFull, Destination, Flushed, Precise, ExitOk, LinkAlloc, ActionOk,
         Loaded;
    var link := LinkFull(a.link, f3, d, off + size, f4);
    var tail := TailCode(idx + 1, k);
    var align := EvenCode(a.align, site);
    TargetStage(env, vr1, m, s, a, s1, off);
    ExecAppend(env, JumpTarget(a, s1, off), align + (link + tail), Run(m));
    var m2 := Exec(env, JumpTarget(a, s1, off), Run(m)).m;
    AlignRuns(env, vr1, m2, s, a.align, site);
    ExecAppend(env, align, link + tail, Run(m2));
    var m3 := Exec(env, align, Run(m2)).m;
    if a.align && Destination(a, s) % 2 != 0 {
      ExecMissed(env, link + tail, site, m3);
      CleanPrecise(vr1, m3, s, misses[site]);
    } else {
      LinkStage(env, m3, s, vr1, hr3, f3, vr3, f4, vr4, a.link, d, skip, off, size);
      ExecAppend(env, link, tail, Run(m3));
      var m4 := Exec(env, link, Run(m3)).m;
      var s' := s.(x := Write(s.x, a.link, Add(s.pc, size)));
      TailLeaves(env, vr4, m4, s', Destination(a, s), idx + 1, k);
      ExitFrom(m, m4, Exec(env, tail, Run(m4)).m, Jumped(a, s, size), idx + 1);
    }
  }

  lemma JumpImplements(p: Policy, vr0: VRegs, alloc: seq<Op>, a: Action, vr1: VRegs, hr3: Slots, s1: HReg, f3: seq<Op>,
                       vr3: VRegs, f4: seq<Op>, vr4: VRegs, d: HReg, skip: int, misses: seq<MissSite>, exits: nat,
                       site: nat, k: nat, size: nat, idx: nat, off: nat)
    requires a.Jump? && ActionOk(a) && off < 0x1000 && size <= 4 && k < exits
    requires Keeps(vr0, alloc, vr1, -1) && AllClean(vr1)
    requires a.fromRs1 ==> Loaded(vr1, a.rs1, s1, -1)
    requires LinkAlloc(vr1, hr3, f3, vr3, f4, vr4, a.link, d, skip)
    requires a.align ==> site < |misses| && misses[site] == MissSite(idx, off, [])
    ensures Implements(p, vr0, alloc + JumpCode(a, s1, off, size, site, f3, d, f4, idx + 1, k), vr4, misses, exits, a,
                       size, idx, off)
    ensures Closes(p, vr0, alloc + JumpCode(a, s1, off, size, site, f3, d, f4, idx + 1, k), off)
  {
    hide Exec, JumpCode, EnvOk, Precise, ExitOk, LinkAlloc, Loaded, ActionOk, Bits;
    var rest := JumpCode(a, s1, off, size, site, f3, d, f4, idx + 1, k);
    forall env: Env, m: Machine, s: State | EnvOk(env) && Suits(env, p) && Agrees(env, vr0, m, s, off)
      ensures Outcome(env, vr4, misses, exits, a, size, idx, off, m, s, Exec(env, alloc + rest, Run(m)))
      ensures !Exec(env, alloc + rest, Run(m)).Run?
    {
      assert KeepsAt(env, alloc, vr1, -1, m, s.x);
      var m1 := Exec(env, alloc, Run(m)).m;
      ExecAppend(env, alloc, rest, Run(m));
      JumpDeparts(env, a, m1, s, vr1, hr3, s1, f3, vr3, f4, vr4, d, skip, misses, site, k, size, idx, off);
      JumpMeaning(env, s, a, size);
      var st := Exec(env, rest, Run(m1));
      if st.Left? { ExitFrom(m, m1, st.m, Jumped(a, s, size), idx + 1); }
    }
  }

  lemma JumpMeaning(env: Env, s: State, a: Action, size: nat)
    requires EnvOk(env) && |s.ram| == env.ramSize && a.Jump? && ActionOk(a)
    ensures Perform(env, s, a, size) == if a.align && Destination(a, s) % 2 != 0 then Yield
                                        else Next(Jumped(a, s, size))
  {
    hide EnvOk, Bits;
  }
}
