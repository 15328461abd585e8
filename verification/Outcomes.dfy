/** What the code emitted for one guest instruction must do, from every machine the
    register cache describes: go on, leave through a precise miss, or leave the block. */
module Outcomes {
  import opened Words
  import opened TlbEntries
  import opened Guest
  import opened Host
  import opened Translators
  import opened AluCode
  import opened InlineTlb
  import opened RegisterCache

  /** A recorded miss site: the instruction it belongs to, the guest bytes before it,
      and the dirty registers at that point. */
  datatype MissSite = MissSite(instr: nat, bytes: nat, dirty: seq<Dirty>)

  /** The privilege mode and paging flags baked into a block's permission checks. */
  datatype Policy = Policy(mode: Privilege, mxr: bool, sum: bool)

  /** The environments code for policy p answers for: its mode and flags, and no live entry
      that would lead an access elsewhere while translation is off. */
  ghost predicate Suits(env: Env, p: Policy)
    requires EnvOk(env)
  {
    env.mode == p.mode && env.mxr == p.mxr && env.sum == p.sum && Coherent(env)
  }

  /** The host machine stands for guest state `s`, `off` bytes into the block. */
  ghost predicate Agrees(env: Env, vr: VRegs, m: Machine, s: State, off: nat)
  {
    && Rep(vr, m, s.x, -1)
    && m.ram == s.ram && |s.ram| == env.ramSize
    && s.pc == Add(m.entry, off)
  }

  ghost predicate SameContext(m: Machine, m': Machine)
  {
    m'.entry == m.entry && m'.budget == m.budget && m'.gpr[0] == m.gpr[0]
  }

  /** Storing the site's dirty registers gives exactly the registers of `s`. */
  ghost predicate Precise(site: MissSite, m': Machine, s: State)
  {
    && (forall v: Reg | v != 0 :: Commit(m'.gpr, m'.regs, site.dirty)[v] == s.x[v])
    && Commit(m'.gpr, m'.regs, site.dirty)[0] == m'.gpr[0]
    && m'.ram == s.ram
  }

  /** A block exit after `count` instructions: all state committed, both pcs set, and
      the chain budget charged. */
  ghost predicate ExitOk(m: Machine, m': Machine, s': State, count: nat)
  {
    && (forall v: Reg | v != 0 :: m'.gpr[v] == s'.x[v])
    && m'.gpr[0] == m.gpr[0]
    && m'.ram == s'.ram
    && m'.exit == s'.pc && m'.entry == s'.pc
    && m'.budget == m.budget - count
  }

  ghost predicate Outcome(env: Env, vr': VRegs, misses: seq<MissSite>, exits: nat, a: Action, size: nat, idx: nat,
                          off: nat, m: Machine, s: State, st: Status)
    requires EnvOk(env) && |s.ram| == env.ramSize && ActionOk(a)
  {
    match st
    case Run(m') =>
      var r := Perform(env, s, a, size);
      r.Next? && Agrees(env, vr', m', r.state, off + size) && SameContext(m, m')
    case Missed(k, m') =>
      && k < |misses| && misses[k].instr == idx && misses[k].bytes == off
      && Precise(misses[k], m', s) && SameContext(m, m')
    case Left(k, m') =>
      var r := Perform(env, s, a, size);
      k < exits && r.Next? && ExitOk(m, m', r.state, idx + 1)
    case _ => false
  }

  /** The fragment implements the action. */
  ghost predicate Implements(p: Policy, vr: VRegs, code: seq<Op>, vr': VRegs, misses: seq<MissSite>, exits: nat,
                             a: Action, size: nat, idx: nat, off: nat)
    requires ActionOk(a)
  {
    forall env: Env, m: Machine, s: State | EnvOk(env) && Suits(env, p) && Agrees(env, vr, m, s, off) ::
      Outcome(env, vr', misses, exits, a, size, idx, off, m, s, Exec(env, code, Run(m)))
  }

  /** The fragment never falls off its end. */
  ghost predicate Closes(p: Policy, vr: VRegs, code: seq<Op>, off: nat)
  {
    forall env: Env, m: Machine, s: State | EnvOk(env) && Suits(env, p) && Agrees(env, vr, m, s, off) ::
      !Exec(env, code, Run(m)).Run?
  }

  lemma AddAdd(e: Word, a: int, b: int)
    ensures Add(Add(e, a), b) == Add(e, a + b)
  {
  }

  /** Operands loaded, destination reserved, value computed: the instruction is done. */
  lemma FinishAlu(env: Env, vr: VRegs, hr: Slots, skip: int, alloc: seq<Op>, alu: seq<Op>, rd: Reg, val: Word,
                  misses: seq<MissSite>, exits: nat, a: Action, size: nat, idx: nat, off: nat, m: Machine, s: State)
    requires EnvOk(env) && |s.ram| == env.ramSize && ActionOk(a) && CacheOk(vr, hr)
    requires m.ram == s.ram && s.pc == Add(m.entry, off)
    requires KeepsAt(env, alloc, vr, skip, m, s.x) && (skip == -1 || skip == rd)
    requires rd != 0 && vr[rd].slot >= 0
    requires Computes(env, alu, Exec(env, alloc, Run(m)).m, Pool(vr[rd].slot), val)
    requires Perform(env, s, a, size) == SetReg(s, rd, val, size)
    ensures Outcome(env, vr[rd := VReg(vr[rd].slot, true)], misses, exits, a, size, idx, off, m, s,
                    Exec(env, alloc + alu, Run(m)))
  {
    hide Exec, Perform, Rep, EnvOk, CacheOk, ActionOk;
    var m1 := Exec(env, alloc, Run(m)).m;
    ResultRep(env, vr, hr, m1, s.x, skip, rd, alu, val);
    ExecAppend(env, alloc, alu, Run(m));
    AddAdd(m.entry, off, size);
  }
}
