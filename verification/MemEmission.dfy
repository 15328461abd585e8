/** Loads and stores: the address computation, the inline TLB check and the access,
    with every miss leaving a precise state. */
module MemEmission {
  import opened Words
  import opened Options
  import opened TlbEntries
  import opened Guest
  import opened Host
  import opened Translators
  import opened AluCode
  import opened InlineTlb
  import opened RegisterCache
  import opened Outcomes
  import opened AluEmission

  /** Host register h may be overwritten: no cached register but `skip` lives in it. */
  ghost predicate Overwritable(vr: VRegs, h: HReg, skip: int)
  {
    Pooled(h) && forall v: Reg | vr[v].slot >= 0 && v != skip :: Pool(vr[v].slot) != h
  }

  lemma RepOnly(vr: VRegs, m: Machine, m': Machine, x: Gprs, skip: int, h: HReg)
    requires Rep(vr, m, x, skip) && Only(m, m', h) && Overwritable(vr, h, skip)
    ensures Rep(vr, m', x, skip)
  {
  }

  /** The sites a check recorded all carry this instruction's snapshot. */
  ghost predicate Recorded(misses: seq<MissSite>, site: nat, n: nat, idx: nat, off: nat, list: seq<Dirty>)
  {
    && site + n <= |misses|
    && forall k | site <= k < site + n :: misses[k] == MissSite(idx, off, list)
  }

  function AccessCode(h: HReg, s1: HReg, imm: int, width: nat, store: bool, p: Policy, site: nat): seq<Op>
  {
    [Lea(h, s1, Int32(imm))] + CheckCode(h, width, store, p.mode, p.mxr, p.sum, site)
  }

  /** After the check: missed precisely, or at the host address of the interpreter's byte. */
  ghost predicate AccessOutcome(env: Env, vr: VRegs, misses: seq<MissSite>, skip: int, h: HReg, va: Word, width: nat,
                                store: bool, idx: nat, off: nat, m1: Machine, s: State, st: Status)
    requires EnvOk(env)
  {
    match st
    case Missed(k, m') =>
      && k < |misses| && misses[k].instr == idx && misses[k].bytes == off
      && Precise(misses[k], m', s) && SameContext(m1, m')
    case Run(m') =>
      var at := DramOffset(env, va, AccessOf(store), width);
      && at.Some? && m'.regs[h] == env.hostRam + at.value
      && Only(m1, m', h) && Rep(vr, m', s.x, skip)
    case _ => false
  }

  lemma AccessStage(env: Env, p: Policy, vr: VRegs, hr: Slots, misses: seq<MissSite>, list: seq<Dirty>, skip: int,
                    h: HReg, s1: HReg, imm: int, width: nat, store: bool, site: nat, idx: nat, off: nat, m1: Machine,
                    s: State)
    requires EnvOk(env) && Suits(env, p) && CacheOk(vr, hr) && width in {1, 2, 4, 8} && SmallImm(imm)
    requires Rep(vr, m1, s.x, skip) && Overwritable(vr, h, skip) && (Holder(skip) ==> !vr[skip].dirty)
    requires Snapshot(vr, list) && Recorded(misses, site, Sites(width), idx, off, list)
    requires m1.ram == s.ram
    ensures AccessOutcome(env, vr, misses, skip, h, Add(m1.regs[s1], imm), width, store, idx, off, m1, s,
                          Exec(env, AccessCode(h, s1, imm, width, store, p, site), Run(m1)))
  {
    hide Exec, EnvOk, CacheOk, CheckCode, DramOffset, Add, Rep, Overwritable, Snapshot, Commit, LookupIn, Passes,
         Coherent, Contained;
    var va := Add(m1.regs[s1], imm);
    var m2 := Set(m1, h, va);
    LeaStep(env, m1, h, s1, imm);
    ExecCons(env, Lea(h, s1, Int32(imm)), CheckCode(h, width, store, p.mode, p.mxr, p.sum, site), Run(m1));
    assert Overwritable(vr, h, skip) ==> Pooled(h) by { OverwritablePooled(vr, h, skip); }
    RepOnly(vr, m1, m2, s.x, skip, h);
    CheckRefinesLookup(env, m2, h, width, store, site);
    var st := Exec(env, CheckCode(h, width, store, p.mode, p.mxr, p.sum, site), Run(m2));
    match st
    case Missed(k, m3) =>
      ScratchRep(vr, m2, m3, s.x, skip);
      CommitRestores(vr, hr, m3, s.x, skip, list);
    case Run(m3) =>
      RepOnly(vr, m2, m3, s.x, skip, h);
      CoherentExactly(env);
      assert SameByte(env, va, width, store);
    case _ =>
  }

  lemma OverwritablePooled(vr: VRegs, h: HReg, skip: int)
    ensures Overwritable(vr, h, skip) ==> Pooled(h)
  {
  }

  lemma ScratchRep(vr: VRegs, m: Machine, m': Machine, x: Gprs, skip: int)
    requires Rep(vr, m, x, skip) && Scratch(m, m')
    ensures Rep(vr, m', x, skip)
  {
  }

  lemma LeaStep(env: Env, m: Machine, h: HReg, s1: HReg, imm: int)
    requires SmallImm(imm)
    ensures Do(env, Lea(h, s1, Int32(imm)), Run(m)) == Run(Set(m, h, Add(m.regs[s1], imm)))
  {
    Int32Small(imm);
  }

  // Loads --------------------------------------------------------------------------

  /** The access itself, at a host address the check produced. */
  lemma LoadRamComputes(env: Env, m: Machine, d: HReg, at: nat, width: nat, signed: bool)
    requires width in {1, 2, 4, 8} && at + width <= |m.ram| && m.regs[d] == env.hostRam + at
    ensures Computes(env, [LoadRam(d, d, width, signed)], m, d, Extend(LoadLE(m.ram, at, width), width, signed))
  {
    hide Exec, Extend, LoadLE, Do, LoadFrom;
    Exec1(env, LoadRam(d, d, width, signed), Run(m));
    DoLoadRam(env, m, d, d, width, signed);
    LoadFromHost(env, m, d, m.regs[d], width, signed, at);
  }

  function LoadFull(a: Action, d: HReg, s1: HReg, p: Policy, site: nat): seq<Op>
    requires a.MemLoad?
  {
    AccessCode(d, s1, a.imm, a.width, false, p, site) + if a.rd == 0 then [] else [LoadRam(d, d, a.width, a.signed)]
  }

  /** The access passed: the load itself. */
  lemma LoadLands(env: Env, vr: VRegs, hr: Slots, misses: seq<MissSite>, exits: nat, a: Action, d: HReg, size: nat,
                  idx: nat, off: nat, m: Machine, m1: Machine, m2: Machine, s: State)
    requires EnvOk(env) && a.MemLoad? && a.rd != 0 && ActionOk(a) && CacheOk(vr, hr) && Target(vr, a.rd, d, a.rd)
    requires |s.ram| == env.ramSize && m1.ram == s.ram && s.pc == Add(m.entry, off) && SameContext(m, m1)
    requires AccessOutcome(env, vr, misses, a.rd, d, Add(s.x[a.rs1], a.imm), a.width, false, idx, off, m1, s, Run(m2))
    ensures Outcome(env, Written(vr, a.rd), misses, exits, a, size, idx, off, m, s,
                    Exec(env, [LoadRam(d, d, a.width, a.signed)], Run(m2)))
  {
    hide Exec, EnvOk, DramOffset, Extend, LoadLE;
    var at := DramOffset(env, Add(s.x[a.rs1], a.imm), LOAD, a.width).value;
    var val := Extend(LoadLE(m2.ram, at, a.width), a.width, a.signed);
    LoadRamComputes(env, m2, d, at, a.width, a.signed);
    ResultRep(env, vr, hr, m2, s.x, a.rd, a.rd, [LoadRam(d, d, a.width, a.signed)], val);
    AddAdd(m.entry, off, size);
  }

  lemma LoadOutcome(env: Env, p: Policy, vr: VRegs, hr: Slots, alloc: seq<Op>, misses: seq<MissSite>, exits: nat,
                    list: seq<Dirty>, a: Action, d: HReg, s1: HReg, site: nat, size: nat, idx: nat, off: nat,
                    m: Machine, s: State)
    requires EnvOk(env) && Suits(env, p) && a.MemLoad? && a.rd != 0 && ActionOk(a) && CacheOk(vr, hr)
    requires Target(vr, a.rd, d, a.rd) && !vr[a.rd].dirty
    requires |s.ram| == env.ramSize && m.ram == s.ram && s.pc == Add(m.entry, off)
    requires KeepsAt(env, alloc, vr, a.rd, m, s.x)
    requires Exec(env, alloc, Run(m)).m.regs[s1] == s.x[a.rs1]
    requires Snapshot(vr, list) && Recorded(misses, site, Sites(a.width), idx, off, list)
    ensures Outcome(env, Written(vr, a.rd), misses, exits, a, size, idx, off, m, s,
                    Exec(env, alloc + LoadFull(a, d, s1, p, site), Run(m)))
  {
    hide Exec, EnvOk, Suits, DramOffset, AccessCode, Extend, LoadLE, Snapshot, Recorded, Commit;
    var m1 := Exec(env, alloc, Run(m)).m;
    var access := AccessCode(d, s1, a.imm, a.width, false, p, site);
    var load := [LoadRam(d, d, a.width, a.signed)];
    AccessStage(env, p, vr, hr, misses, list, a.rd, d, s1, a.imm, a.width, false, site, idx, off, m1, s);
    var st := Exec(env, access, Run(m1));
    ExecAppend(env, alloc, LoadFull(a, d, s1, p, site), Run(m));
    ExecAppend(env, access, load, Run(m1));
    match st
    case Missed(k, m2) =>
      ExecMissed(env, load, k, m2);
    case Run(m2) =>
      LoadLands(env, vr, hr, misses, exits, a, d, size, idx, off, m, m1, m2, s);
    case _ =>
  }

  lemma LoadImplements(p: Policy, vr0: VRegs, alloc: seq<Op>, vr: VRegs, hr: Slots, skip: int, misses: seq<MissSite>,
                       exits: nat, list: seq<Dirty>, a: Action, d: HReg, s1: HReg, site: nat, size: nat, idx: nat,
                       off: nat)
    requires a.MemLoad? && a.rd != 0 && ActionOk(a) && CacheOk(vr, hr) && Keeps(vr0, alloc, vr, skip)
    requires Target(vr, a.rd, d, skip) && !vr[a.rd].dirty && Loaded(vr, a.rs1, s1, skip)
    requires Snapshot(vr, list) && Recorded(misses, site, Sites(a.width), idx, off, list)
    ensures Implements(p, vr0, alloc + LoadFull(a, d, s1, p, site), Written(vr, a.rd), misses, exits, a, size, idx, off)
  {
    hide Exec, LoadFull, EnvOk, Outcome, Snapshot, Recorded;
    forall env: Env, m: Machine, s: State | EnvOk(env) && Suits(env, p) && Agrees(env, vr0, m, s, off)
      ensures Outcome(env, Written(vr, a.rd), misses, exits, a, size, idx, off, m, s,
                      Exec(env, alloc + LoadFull(a, d, s1, p, site), Run(m)))
    {
      assert KeepsAt(env, alloc, vr, skip, m, s.x);
      LoadOutcome(env, p, vr, hr, alloc, misses, exits, list, a, d, s1, site, size, idx, off, m, s);
    }
  }

  /** In any environment, coherent or not, a load that passes its check reads the RAM bytes
      of the address TLB::lookup answers. */
  lemma LoadReadsLookup(env: Env, p: Policy, a: Action, d: HReg, s1: HReg, site: nat, m: Machine)
    requires EnvOk(env) && env.mode == p.mode && env.mxr == p.mxr && env.sum == p.sum
    requires a.MemLoad? && a.rd != 0 && ActionOk(a) && Pooled(d) && |m.ram| == env.ramSize
    requires Passes(env, Add(m.regs[s1], a.imm), a.width, false)
    ensures var hit := LookupIn(env, Add(m.regs[s1], a.imm), false);
            && hit.Some? && env.ramBase <= hit.value && hit.value - env.ramBase + a.width <= |m.ram|
            && Computes(env, LoadFull(a, d, s1, p, site), m, d,
                        Extend(LoadLE(m.ram, hit.value - env.ramBase, a.width), a.width, a.signed))
  {
    hide Exec, EnvOk, CheckCode, Add, LookupIn, Passes, Extend, LoadLE;
    var va := Add(m.regs[s1], a.imm);
    var m1 := Set(m, d, va);
    var check := CheckCode(d, a.width, false, p.mode, p.mxr, p.sum, site);
    var load := [LoadRam(d, d, a.width, a.signed)];
    LeaStep(env, m, d, s1, a.imm);
    ExecCons(env, Lea(d, s1, Int32(a.imm)), check, Run(m));
    CheckRefinesLookup(env, m1, d, a.width, false, site);
    ExecAppend(env, AccessCode(d, s1, a.imm, a.width, false, p, site), load, Run(m));
    var m2 := Exec(env, check, Run(m1)).m;
    LoadRamComputes(env, m2, d, LookupIn(env, va, false).value - env.ramBase, a.width, a.signed);
  }

  /** Such an environment exists: Machine mode with an Sv39 entry still live.  A byte load
      through it puts 0 in the register where the handler loads 1. */
  lemma StaleEntryMisleads() returns (env: Env, p: Policy, a: Action, m: Machine, s: State)
    ensures EnvOk(env) && env.mode == p.mode && env.mxr == p.mxr && env.sum == p.sum && !Coherent(env)
    ensures a.MemLoad? && ActionOk(a) && |s.ram| == env.ramSize && m.ram == s.ram && m.regs[6] == s.x[a.rs1]
    ensures Perform(env, s, a, 4) == SetReg(s, a.rd, 1, 4) && Computes(env, LoadFull(a, 7, 6, p, 0), m, 7, 0)
  {
    hide Exec, Extend, LoadLE, LoadFull, Index, Bits, Computes, EnvOk, LookupIn, Passes, DramOffset;
    var va: Word := 0x8000_1000;
    env, p, a := StaleEnv(va), Policy(Privilege.Machine, false, false), MemLoad(5, 6, 0, 1, false);
    var ram := seq(0x2000, i => if i == 0x1000 then 1 else 0);
    s := State(0, seq(32, i => if i == 6 then va else 0), ram);
    m := Machine.Machine(seq(16, i => if i == 6 then va else 0), NoFlags, seq(32, _ => 0), ram, 0, 0, 0);
    assert Add(m.regs[6], 0) == va && Add(s.x[6], 0) == va;
    StaleEnvOk(va);
    OneByte(ram, 0);
    OneByte(ram, 0x1000);
    LoadReadsLookup(env, p, a, 7, 6, 0, m);
    HandlerAgreesExactly(env, va, 1, false);
  }

  lemma OneByte(ram: Ram, at: nat)
    requires at < |ram|
    ensures LoadLE(ram, at, 1) == ram[at] && Extend(ram[at], 1, false) == ram[at]
  {
    assert Pow2(8) == 256;
    assert LoadLE(ram, at + 1, 0) == 0;
  }

  /** Page 0x8000_1000 mapped to 0x8000_0000 by a live global entry, translation off. */
  function StaleEnv(va: Word): Env
  {
    var e := Entry(M64 - 0x1000, 0x8000_1000, 1, U64(0x1_0000 - 0x8000_1000), 0x8000_0000, 0, 12, 63, true);
    var entries := seq(SIZE, i => if i == Index(va) then e else e.(generation := 0));
    Env(entries, 0, 1, 0, Privilege.Machine, false, false, true, true, 0x8000_0000, 0x2000, 0x1_0000)
  }

  lemma StaleEnvOk(va: Word)
    requires va == 0x8000_1000
    ensures var env := StaleEnv(va);
            && EnvOk(env) && Passes(env, va, 1, false) && !Coherent(env)
            && LookupIn(env, va, false) == Some(0x8000_0000) && DramOffset(env, va, LOAD, 1) == Some(0x1000)
  {
    hide Index, Bits, Pow2;
    PageSizes();
    var env := StaleEnv(va);
    var e := env.tlb[Index(va)];
    assert forall i | 0 <= i < SIZE :: ResidentOk(env, env.tlb[i]);
    assert PermPasses(63, false, Privilege.Machine, false, false) by { MachineReads(); }
    assert Passes(env, va, 1, false);
    HitAddress(env, va, e, 1, false);
  }

  lemma MachineReads()
    ensures Bits(And, 63, 1) == 1
  {
    BitsStep(And, 63, 1);
    BitsZero(And, 31);
  }

  /** rd is x0: translate and check, then discard. */
  lemma ProbeOutcome(env: Env, p: Policy, vr: VRegs, hr: Slots, alloc: seq<Op>, misses: seq<MissSite>, exits: nat,
                     list: seq<Dirty>, a: Action, h: HReg, s1: HReg, site: nat, size: nat, idx: nat, off: nat,
                     m: Machine, s: State)
    requires EnvOk(env) && Suits(env, p) && a.MemLoad? && a.rd == 0 && ActionOk(a) && CacheOk(vr, hr)
    requires Overwritable(vr, h, -1)
    requires |s.ram| == env.ramSize && m.ram == s.ram && s.pc == Add(m.entry, off)
    requires KeepsAt(env, alloc, vr, -1, m, s.x)
    requires Exec(env, alloc, Run(m)).m.regs[s1] == s.x[a.rs1]
    requires Snapshot(vr, list) && Recorded(misses, site, Sites(a.width), idx, off, list)
    ensures Outcome(env, vr, misses, exits, a, size, idx, off, m, s,
                    Exec(env, alloc + LoadFull(a, h, s1, p, site), Run(m)))
  {
    hide Exec, EnvOk, DramOffset, AccessCode, Extend, LoadLE, Snapshot, Recorded, Commit, Overwritable;
    var m1 := Exec(env, alloc, Run(m)).m;
    var access := AccessCode(h, s1, a.imm, a.width, false, p, site);
    AccessStage(env, p, vr, hr, misses, list, -1, h, s1, a.imm, a.width, false, site, idx, off, m1, s);
    assert access + [] == access;
    ExecAppend(env, alloc, access, Run(m));
    AddAdd(m.entry, off, size);
    match Exec(env, access, Run(m1))
    case Missed(k, m2) =>
    case Run(m2) =>
      var at := DramOffset(env, Add(s.x[a.rs1], a.imm), LOAD, a.width).value;
      WriteZero(s.x, Extend(LoadLE(s.ram, at, a.width), a.width, a.signed));
    case _ =>
  }

  lemma ProbeImplements(p: Policy, vr0: VRegs, alloc: seq<Op>, vr: VRegs, hr: Slots, misses: seq<MissSite>, exits: nat,
                        list: seq<Dirty>, a: Action, h: HReg, s1: HReg, site: nat, size: nat, idx: nat, off: nat)
    requires a.MemLoad? && a.rd == 0 && ActionOk(a) && CacheOk(vr, hr) && Keeps(vr0, alloc, vr, -1)
    requires Overwritable(vr, h, -1) && Loaded(vr, a.rs1, s1, -1)
    requires Snapshot(vr, list) && Recorded(misses, site, Sites(a.width), idx, off, list)
    ensures Implements(p, vr0, alloc + LoadFull(a, h, s1, p, site), vr, misses, exits, a, size, idx, off)
  {
    hide Exec, LoadFull, EnvOk, Outcome, Snapshot, Recorded, Overwritable;
    forall env: Env, m: Machine, s: State | EnvOk(env) && Suits(env, p) && Agrees(env, vr0, m, s, off)
      ensures Outcome(env, vr, misses, exits, a, size, idx, off, m, s,
                      Exec(env, alloc + LoadFull(a, h, s1, p, site), Run(m)))
    {
      assert KeepsAt(env, alloc, vr, -1, m, s.x);
      ProbeOutcome(env, p, vr, hr, alloc, misses, exits, list, a, h, s1, site, size, idx, off, m, s);
    }
  }

  // Stores -----------------------------------------------------------------------------

  function StoreFull(a: Action, h: HReg, s1: HReg, v: HReg, p: Policy, site: nat): seq<Op>
    requires a.MemStore?
  {
    AccessCode(h, s1, a.imm, a.width, true, p, site) + [StoreRam(h, v, a.width)]
  }

  lemma StoreRamStep(env: Env, m: Machine, h: HReg, v: HReg, at: nat, width: nat)
    requires at + width <= |m.ram| && m.regs[h] == env.hostRam + at
    ensures Exec(env, [StoreRam(h, v, width)], Run(m)) == Run(m.(ram := StoreLE(m.ram, at, width, m.regs[v])))
  {
    hide Exec, StoreLE;
    Exec1(env, StoreRam(h, v, width), Run(m));
  }

  lemma StoreOutcome(env: Env, p: Policy, vr: VRegs, hr: Slots, alloc: seq<Op>, misses: seq<MissSite>, exits: nat,
                     list: seq<Dirty>, a: Action, h: HReg, s1: HReg, v: HReg, site: nat, size: nat, idx: nat, off: nat,
                     m: Machine, s: State)
    requires EnvOk(env) && Suits(env, p) && a.MemStore? && ActionOk(a) && CacheOk(vr, hr)
    requires Overwritable(vr, h, -1) && Loaded(vr, a.rs1, s1, -1) && Loaded(vr, a.rs2, v, -1)
    requires |s.ram| == env.ramSize && m.ram == s.ram && s.pc == Add(m.entry, off)
    requires KeepsAt(env, alloc, vr, -1, m, s.x)
    requires Snapshot(vr, list) && Recorded(misses, site, Sites(a.width), idx, off, list)
    ensures Outcome(env, vr, misses, exits, a, size, idx, off, m, s,
                    Exec(env, alloc + StoreFull(a, h, s1, v, p, site), Run(m)))
  {
    hide Exec, EnvOk, DramOffset, AccessCode, StoreLE, Snapshot, Recorded, Commit;
    var m1 := Exec(env, alloc, Run(m)).m;
    var access := AccessCode(h, s1, a.imm, a.width, true, p, site);
    var store := [StoreRam(h, v, a.width)];
    AccessStage(env, p, vr, hr, misses, list, -1, h, s1, a.imm, a.width, true, site, idx, off, m1, s);
    ExecAppend(env, alloc, StoreFull(a, h, s1, v, p, site), Run(m));
    ExecAppend(env, access, store, Run(m1));
    AddAdd(m.entry, off, size);
    match Exec(env, access, Run(m1))
    case Missed(k, m2) =>
      ExecMissed(env, store, k, m2);
    case Run(m2) =>
      var at := DramOffset(env, Add(s.x[a.rs1], a.imm), STORE, a.width).value;
      StoreRamStep(env, m2, h, v, at, a.width);
    case _ =>
  }

  lemma StoreImplements(p: Policy, vr0: VRegs, alloc: seq<Op>, vr: VRegs, hr: Slots, misses: seq<MissSite>, exits: nat,
                        list: seq<Dirty>, a: Action, h: HReg, s1: HReg, v: HReg, site: nat, size: nat, idx: nat,
                        off: nat)
    requires a.MemStore? && ActionOk(a) && CacheOk(vr, hr) && Keeps(vr0, alloc, vr, -1)
    requires Overwritable(vr, h, -1) && Loaded(vr, a.rs1, s1, -1) && Loaded(vr, a.rs2, v, -1)
    requires Snapshot(vr, list) && Recorded(misses, site, Sites(a.width), idx, off, list)
    ensures Implements(p, vr0, alloc + StoreFull(a, h, s1, v, p, site), vr, misses, exits, a, size, idx, off)
  {
    hide Exec, StoreFull, EnvOk, Outcome, Snapshot, Recorded, Overwritable, Loaded;
    forall env: Env, m: Machine, s: State | EnvOk(env) && Suits(env, p) && Agrees(env, vr0, m, s, off)
      ensures Outcome(env, vr, misses, exits, a, size, idx, off, m, s,
                      Exec(env, alloc + StoreFull(a, h, s1, v, p, site), Run(m)))
    {
      assert KeepsAt(env, alloc, vr, -1, m, s.x);
      StoreOutcome(env, p, vr, hr, alloc, misses, exits, list, a, h, s1, v, site, size, idx, off, m, s);
    }
  }
}
