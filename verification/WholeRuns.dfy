/** Dispatching, compiling, chaining, storing and fencing as one run: what chains of compiled
    blocks compute is what the interpreter computes from the instructions memory holds
    (run_blocks in block.cpp). */
module WholeRuns {
  import opened Words
  import opened Options
  import opened TlbEntries
  import opened PageMarks
  import opened Guest
  import opened Host
  import opened InlineTlb
  import opened Outcomes
  import opened Blocks
  import opened Chains
  import opened Fetching
  import opened CodeSafety
  import T = Tlbs
  import P = Paging
  import C = CodeCache
  import M = Mmus

  // Compiling --------------------------------------------------------------------------------

  /** The bytes compile() may decode: from phys to the end of pc's page or of RAM. */
  function Window(base: nat, ram: Ram, pc: Word, phys: nat): seq<Byte>
  {
    if phys < base || phys - base >= |ram| then []
    else
      var at, room := phys - base, PAGE - pc % PAGE;
      if at + room <= |ram| then ram[at..at + room] else ram[at..]
  }

  /** The text is the unit's stream, and lies in one page from this address on. */
  ghost predicate Fitting(u: Unit, start: nat, code: C.Code, p: Policy)
  {
    UnitOk(u) && u.policy == p && start % PAGE + |code.text| <= PAGE && Parses(code.text, u.prog)
  }

  /** compile() for a pc without current code: decode to the end of the page, translate,
      install.  The unit is correct code for the instructions of the text the cache keeps. */
  method CompileUnit(j: C.JitContext, p: Policy, pc: Word, phys: nat, size: nat) returns (r: Option<Unit>, code: C.Code)
    requires j.Valid() && C.Missing(j.ways, phys, p, j.epoch) && size <= C.ARENA_BYTES && phys % PAGE == pc % PAGE
    modifies j
    ensures j.Valid() && j.ram == old(j.ram) && old(j.issued) <= j.issued && j.epoch >= old(j.epoch)
    ensures r.Some? <==> FetchAt(Window(j.base, j.ram, pc, phys), 0).Some?
    ensures r.None? ==> j.ways == old(j.ways) && j.Now() == old(j.Now()) && j.issued == old(j.issued)
    ensures r.Some? ==> Fitting(r.value, phys, code, p) && C.Issue(phys, code, j.epoch) in j.issued
    ensures r.Some? ==> C.Live(j.Now(), phys, code)
    ensures r.Some? ==>
              forall page: nat :: Executed(j.executed, page) == (page == phys / PAGE || Executed(old(j.executed), page))
    ensures r.Some? ==> forall start: nat, c: C.Code, q: Policy | C.Stocks(j.ways, start, c, q) ::
                          C.Stocks(old(j.ways), start, c, q) || (start == phys && c == code && q == p)
  {
    hide C.Sound, C.IndexOf, C.Bucket, C.Missing, Correct, Bytes, Parses, C.Stocks, C.Live, FetchAt;
    code := C.Code([], 0);
    var bytes := Window(j.base, j.ram, pc, phys);
    var stream := DecodeStream(bytes);
    var b := Blocks.Compile(p, stream);
    if b.GiveUp? { return None, code; }
    var prog := stream[..b.count];
    SomeBytes(prog);
    ParsesPrefix(bytes[..Bytes(stream)], stream, b.count);
    BytesMono(stream, b.count);
    assert bytes[..Bytes(stream)][..b.bytes] == bytes[..b.bytes];
    code := j.Compile(phys, p, b.bytes, size);
    CompiledText(j.Now(), phys, code, bytes, b.bytes);
    OneTouched(phys, b.bytes);
    r := Some(Unit(b, prog, p));
  }

  lemma CompiledText(w: C.World, phys: nat, code: C.Code, bytes: seq<Byte>, n: nat)
    requires C.Live(w, phys, code) && |code.text| == n <= |bytes|
    requires phys >= w.base && phys - w.base + |bytes| <= |w.ram|
    requires bytes == w.ram[phys - w.base..phys - w.base + |bytes|]
    ensures code.text == bytes[..n]
    ensures forall page: nat | C.Touches(phys, n, page) :: Executed(w.executed, page)
  {
    assert C.TextAt(w, phys, n) == bytes[..n];
  }

  lemma OneTouched(phys: nat, n: nat)
    requires 0 < n && phys % PAGE + n <= PAGE
    ensures forall page: nat :: C.Touches(phys, n, page) <==> page == phys / PAGE
  {
    var q, r := phys / PAGE, phys % PAGE;
    assert phys == PAGE * q + r;
    DivModUnique(phys + n + 0xFFF, PAGE, q + 1, r + n - 1);
  }

  lemma SomeBytes(prog: seq<Decoded>)
    requires prog != []
    ensures Bytes(prog) > 0
  {
  }

  // What the installs rest on --------------------------------------------------------------------

  /** Every valid way has its unit. */
  ghost predicate Stocked(ways: seq<C.Way>, units: map<(nat, C.Code, Policy), Unit>)
  {
    forall start: nat, code: C.Code, p: Policy | C.Stocks(ways, start, code, p) ::
      (start, code, p) in units && Fitting(units[(start, code, p)], start, code, p)
  }

  /** No install is of a later generation or epoch. */
  ghost predicate Past(log: set<Install>, gen: nat, epoch: nat)
  {
    forall i | i in log :: i.key.gen <= gen && i.key.smc <= epoch
  }

  /** The installed pc still walks to the text its code was made from. */
  ghost predicate Stands(i: Install, mem: P.Tables, roots: Asid -> nat, issued: set<C.Issue>)
  {
    exists phys: nat, code: C.Code ::
      Made(i, phys, code, issued) && FetchSpace(mem, roots(i.key.asid), i.mode)(i.pc) == Some(phys)
  }

  /** All installs of this generation and epoch stand. */
  ghost predicate Standing(log: set<Install>, gen: nat, epoch: nat, mem: P.Tables, roots: Asid -> nat,
                           issued: set<C.Issue>)
  {
    forall i | i in log && i.key.gen == gen && i.key.smc == epoch :: Stands(i, mem, roots, issued)
  }

  /** A later generation or epoch has no installs yet: whatever the tables, all stand. */
  lemma FreshStands(log: set<Install>, gen: nat, epoch: nat, gen': nat, epoch': nat, mem: P.Tables, roots: Asid -> nat,
                    issued: set<C.Issue>)
    requires Past(log, gen, epoch) && gen' >= gen && epoch' >= epoch && (gen' > gen || epoch' > epoch)
    ensures Past(log, gen', epoch') && Standing(log, gen', epoch', mem, roots, issued)
  {
  }

  /** Write-backs of A and D and more code handed out leave every install standing. */
  lemma StillStands(log: set<Install>, gen: nat, epoch: nat, mem: P.Tables, mem': P.Tables, roots: Asid -> nat,
                    issued: set<C.Issue>, issued': set<C.Issue>)
    requires Standing(log, gen, epoch, mem, roots, issued) && P.SameTables(mem, mem') && issued <= issued'
    ensures Standing(log, gen, epoch, mem', roots, issued')
  {
    hide Parses, P.SameTables, P.Walk;
    forall i | i in log && i.key.gen == gen && i.key.smc == epoch ensures Stands(i, mem', roots, issued') {
      assert Stands(i, mem, roots, issued);
      var phys: nat, code: C.Code :|
        Made(i, phys, code, issued) && FetchSpace(mem, roots(i.key.asid), i.mode)(i.pc) == Some(phys);
      M.SameWalk(mem, mem', roots(i.key.asid), i.pc, EXEC, i.mode.mode, i.mode.mxr, i.mode.sum);
      assert Made(i, phys, code, issued');
    }
  }

  /** Standing installs of sound code are shown, so a chain over them is faithful. */
  lemma StandingShown(log: set<Install>, key: Key, mode: Policy, mem: P.Tables, roots: Asid -> nat, w: C.World,
                      ways: seq<C.Way>, issued: set<C.Issue>)
    requires Backed(log, issued) && Standing(log, key.gen, key.smc, mem, roots, issued)
    requires C.Sound(w, ways, issued) && w.epoch == key.smc
    ensures Shown(log, key, mode, FetchSpace(mem, roots(key.asid), mode), w.base, w.ram, issued)
  {
    hide Parses, Correct, C.Live, Shows, Chains.Fits, TextOf, Paged, FetchSpace;
    var space := FetchSpace(mem, roots(key.asid), mode);
    WalkIsPaged(mem, roots(key.asid), mode);
    forall i: Install, phys: nat, code: C.Code | i in log && i.key == key && i.mode == mode
        && Made(i, phys, code, issued)
      ensures Shows(space, w.base, w.ram, i.pc, code.text)
    {
      assert Stands(i, mem, roots, issued) && Backed1(i, issued);
      var at: nat, c: C.Code :| Made(i, at, c, issued) && FetchSpace(mem, roots(i.key.asid), i.mode)(i.pc) == Some(at);
      LiveShows(w, space, i.pc, at, c);
      FitsExactly(space, w.base, w.ram, i.pc, c.text, i.unit.prog);
      FitsExactly(space, w.base, w.ram, i.pc, code.text, i.unit.prog);
    }
  }

  // The run ------------------------------------------------------------------------------------------

  /** What happens on a hart: dispatches of a pc with these registers, the interpreter's
      stores and translations, SFENCE.VMA, and new page tables followed by a full fence. */
  datatype Step =
    | Execute(pc: Word, x: Gprs, policy: Policy, asid: Asid, size: nat)
    | Store(at: nat, data: seq<Byte>)
    | Touch(access: Access, va: Word, asid: Asid, policy: Policy)
    | Fence(fva: Option<Word>, fasid: Option<Asid>)
    | Remap(tables: P.Tables)

  /** One chain: the environment and tables it ran under, where it began, how many interpreter
      steps it made and where it ended. */
  datatype Report = Report(env: Env, tables: P.Tables, root: nat, policy: Policy, before: State, n: nat, after: State)

  /** The chain made n interpreter steps on the instructions the address space held. */
  ghost predicate Exactly(r: Report)
  {
    && EnvOk(r.env) && |r.before.ram| == r.env.ramSize && r.before.x[0] == 0 && r.n <= 0x3000 + 128
    && Interpret(r.env, TextOf(FetchSpace(r.tables, r.root, r.policy), r.env.ramBase, r.before.ram), r.before, r.n) ==
       Next(r.after)
  }

  class Runner {
    const j: C.JitContext
    const mmu: M.Mmu
    const chain: HartChain
    const tlbBase: Word
    const hostRam: Word
    /** The compiled form of what the cache holds. */
    var units: map<(nat, C.Code, Policy), Unit>

    constructor (base: Word, memory: Ram, tables: P.Tables, rootOf: Asid -> nat, tlbAt: Word, ramAt: Word)
      requires P.SharedGlobals(tables, rootOf) && base + |memory| <= M64 && ramAt + |memory| <= M64
      requires tlbAt + SIZE * 64 <= M64
      ensures Valid() && fresh(j) && fresh(mmu) && fresh(mmu.tlb) && fresh(chain) && !mmu.tlb.saturated
      ensures j.ram == memory && j.base == base && mmu.mem == tables && mmu.roots == rootOf && mmu.tlb.generation == 1
      ensures chain.log == {} && chain.links == map[]
    {
      j := new C.JitContext(base, memory);
      mmu := new M.Mmu(tables, rootOf, P.RamMap(base, |memory|, ramAt));
      chain := new HartChain(Key(0, 0, 0), Policy(User, false, false));
      tlbBase, hostRam, units := tlbAt, ramAt, map[];
    }

    /** What holds whatever the page tables and the TLB are. */
    ghost predicate Core()
      reads this, j, mmu, mmu.tlb, chain
    {
      && j.base < M64 && j.base + |j.ram| <= M64 && hostRam + |j.ram| <= M64 && tlbBase + SIZE * 64 <= M64
      && mmu.ram == P.RamMap(j.base, |j.ram|, hostRam)
      && j.Valid() && mmu.tlb.Valid() && chain.Valid() && SameMarks(mmu.executed, j.executed)
      && Stocked(j.ways, units) && Backed(chain.log, j.issued) && Past(chain.log, mmu.tlb.generation, j.epoch)
    }

    /** The TLB agrees with the tables, and W^X holds. */
    ghost predicate Shape()
      reads this, j, mmu, mmu.tlb, chain
    {
      Core() && mmu.Valid() && mmu.Guarded()
    }

    /** The invariant of every run: besides, every install of the present generation and epoch
        stands. */
    ghost predicate Valid()
      reads this, j, mmu, mmu.tlb, chain
    {
      Shape() && Standing(chain.log, mmu.tlb.generation, j.epoch, mmu.mem, mmu.roots, j.issued)
    }

    /** What a block sees when it is entered now. */
    function Now(asid: Asid, p: Policy): Env
      requires j.base < M64
      reads j, mmu, mmu.tlb
    {
      Env(mmu.tlb.entries, tlbBase, mmu.tlb.generation, asid, p.mode, p.mxr, p.sum, false, true, j.base, |j.ram|,
          hostRam)
    }

    /** What the cache has for the block at phys. */
    method Recall(phys: nat, p: Policy) returns (r: Option<Unit>, code: C.Code)
      requires Valid()
      modifies j`ways, j`issued
      ensures Valid()
      ensures r.Some? ==> Fitting(r.value, phys, code, p) && C.Issue(phys, code, j.epoch) in j.issued
      ensures r.None? ==> C.Missing(j.ways, phys, p, j.epoch)
    {
      hide C.Sound, C.IndexOf, C.Bucket, C.Live, Fitting, C.Stocks, Made, Executed, UnitOk, C.Cached;
      hide P.Agreement, P.SharedGlobals, P.AllHostMapped, T.Exact, T.WritableXorExecuted, T.Narrow, SlotOk;
      var got := j.Lookup(phys, p);
      C.SameStock(j.ways, old(j.ways));
      StillBacked(chain.log, {}, old(j.issued), j.issued);
      M.SameSelf(mmu.mem);
      StillStands(chain.log, mmu.tlb.generation, j.epoch, mmu.mem, mmu.mem, mmu.roots, old(j.issued), j.issued);
      if got.None? { return None, C.Code([], 0); }
      C.CachedStocks(j.ways, phys, p, j.epoch, got.value);
      return Some(units[(phys, got.value, p)]), got.value;
    }

    /** A block compiled now, its page marked and noted. */
    method Build(pc: Word, phys: nat, p: Policy, size: nat) returns (r: Option<Unit>, code: C.Code)
      requires Valid() && C.Missing(j.ways, phys, p, j.epoch)
      requires phys % PAGE == pc % PAGE && size <= C.ARENA_BYTES && mmu.tlb.generation < M64 - 1
      modifies j, mmu`executed, mmu.tlb, this`units
      ensures Valid() && j.ram == old(j.ram)
      ensures old(mmu.tlb.generation) <= mmu.tlb.generation <= old(mmu.tlb.generation) + 1
      ensures mmu.tlb.saturated ==> old(mmu.tlb.saturated)
      ensures r.Some? ==> Fitting(r.value, phys, code, p) && C.Issue(phys, code, j.epoch) in j.issued
      ensures r.None? ==> FetchAt(Window(j.base, j.ram, pc, phys), 0).None?
    {
      hide C.Sound, C.IndexOf, C.Bucket, C.Live, Fitting, C.Stocks, Made, Executed, UnitOk, C.Missing, FetchAt, Window;
      hide P.Agreement, P.SharedGlobals, P.AllHostMapped, T.Exact, T.WritableXorExecuted, T.Narrow, SlotOk, Standing;
      ghost var gen, epoch, issued := mmu.tlb.generation, j.epoch, j.issued;
      r, code := CompileUnit(j, p, pc, phys, size);
      if r.None? { return; }
      mmu.Executing(phys / PAGE);
      units := units[(phys, code, p) := r.value];
      StillBacked(chain.log, {}, issued, j.issued);
      Later(chain.log, gen, epoch, mmu.tlb.generation, j.epoch, mmu.mem, mmu.mem, mmu.roots, issued, j.issued);
    }

    /** The runner's dispatch: translate pc, find or compile its block, install it under the
        present keys.  It fails only if pc does not walk or holds no instruction. */
    method Dispatch(pc: Word, p: Policy, asid: Asid, size: nat) returns (r: Option<Unit>)
      requires Valid() && p.mode != Privilege.Machine && size <= C.ARENA_BYTES && mmu.tlb.generation < M64 - 1
      requires M.Small(mmu.mem, mmu.roots, M.Access(EXEC, pc, asid, p.mode, p.mxr, p.sum))
      modifies this`units, j, mmu, mmu.tlb, chain
      ensures Valid() && j.ram == old(j.ram) && P.SameTables(old(mmu.mem), mmu.mem)
      ensures old(mmu.tlb.generation) <= mmu.tlb.generation <= old(mmu.tlb.generation) + 1
      ensures r.Some? ==> chain.mode == p && chain.key == Key(mmu.tlb.generation, j.epoch, asid)
      ensures r.Some? ==> Install(r.value, pc, p, chain.key) in chain.log
      ensures r.Some? ==> chain.cache[CacheIndex(pc, p)] == Stamped(r.value, pc, chain.epoch, p)
      ensures chain.links == old(chain.links)
      ensures r.None? ==> Unrunnable(old(mmu.mem), mmu.roots(asid), p, j.base, j.ram, pc)
    {
      hide C.Sound, C.Live, Fitting, C.Stocks, Executed, UnitOk, C.Missing, FetchAt, Window, Parses, M.Small, P.Walk;
      hide P.Agreement, P.SharedGlobals, P.AllHostMapped, T.Exact, T.WritableXorExecuted, T.Narrow, SlotOk, Standing;
      hide P.SameTables, Stocked, CacheIndex;
      ghost var mem := mmu.mem;
      var to := mmu.Translate(EXEC, pc, asid, p.mode, p.mxr, p.sum);
      Later(chain.log, mmu.tlb.generation, j.epoch, mmu.tlb.generation, j.epoch, mem, mmu.mem, mmu.roots, j.issued,
            j.issued);
      if to.None? { return None; }
      WalkOffset(mem, mmu.roots(asid), pc, p);
      var code;
      r, code := Recall(to.value, p);
      if r.None? { r, code := Build(pc, to.value, p, size); }
      if r.None? { return; }
      var now := Key(mmu.tlb.generation, j.epoch, asid);
      M.SameWalk(mem, mmu.mem, mmu.roots(asid), pc, EXEC, p.mode, p.mxr, p.sum);
      NewInstall(chain.log, Install(r.value, pc, p, now), mmu.mem, mmu.roots, j.issued, to.value, code);
      chain.Dispatch(r.value, pc, now, p);
    }

    /** A chain entered from the runner, under the exact condition for it to be faithful: as
        many interpreter steps, on the instructions memory holds, as the budget it releases,
        and the cache is still sound for the memory it leaves. */
    method RunGuestChain(unit: Unit, pc: Word, x: Gprs, p: Policy, asid: Asid) returns (after: State, released: nat)
      requires Shape() && !mmu.tlb.saturated && x[0] == 0
      requires chain.mode == p && chain.key == Key(mmu.tlb.generation, j.epoch, asid)
      requires Install(unit, pc, p, chain.key) in chain.log
      requires Shown(chain.log, chain.key, p, FetchSpace(mmu.mem, mmu.roots(asid), p), j.base, j.ram, j.issued)
      modifies chain`links, j`ram
      ensures Shape() && |j.ram| == |old(j.ram)| && j.ram == after.ram
      ensures released == 0 ==> after.pc == pc
      ensures Exactly(Report(old(Now(asid, p)), mmu.mem, mmu.roots(asid), p, State(pc, x, old(j.ram)), released, after))
    {
      hide C.Sound, EnvOk, Suits, Paged, Backed, Interpret, TextOf, Sees, Shown, FetchSpace, Stocked, Past, SameMarks;
      hide P.Agreement, P.SharedGlobals, P.AllHostMapped, T.Tlb.Guards, SlotOk, Correct, Coherent;
      var env := Now(asid, p);
      ghost var s := State(pc, x, j.ram);
      ghost var space := FetchSpace(mmu.mem, mmu.roots(asid), p);
      ghost var text := TextOf(space, j.base, j.ram);
      NowOk(this, asid, p);
      WalkIsPaged(mmu.mem, mmu.roots(asid), p);
      FaithfulExactly(chain, space, j.base, j.ram, j.issued);
      var regs: Regs := *;
      var m0 := Machine.Machine(regs, NoFlags, x, j.ram, pc, pc, CHAIN_CADENCE);
      var m;
      m, released := chain.RunChain(unit, env, m0, s, text);
      after := State(m.exit, m.gpr, m.ram);
      ChainState(env, text, s, released, m0, m, after);
      ChainKeepsCacheSound(mmu, env, text, s, released, after, j.Now(), j.ways, j.issued);
      j.ram := m.ram;
    }

    /** Dispatch, then the chain.  Nothing runs if pc is unrunnable, or, what `full` says, if a
        credit has saturated since the last full flush. */
    method Execute(pc: Word, x: Gprs, p: Policy, asid: Asid, size: nat) returns (ghost r: Option<Report>, full: bool)
      requires Valid() && LegalStep(Step.Execute(pc, x, p, asid, size), mmu.mem, mmu.roots)
      requires mmu.tlb.generation < M64 - 1
      modifies this`units, j, mmu, mmu.tlb, chain
      ensures Valid() && P.SameTables(old(mmu.mem), mmu.mem) && |j.ram| == |old(j.ram)|
      ensures old(mmu.tlb.generation) <= mmu.tlb.generation <= old(mmu.tlb.generation) + 1
      ensures full ==> r.None? && mmu.tlb.saturated && j.ram == old(j.ram)
      ensures !full ==>
                StepExplains(old(mmu.mem), mmu.roots, j.base, old(j.ram), Step.Execute(pc, x, p, asid, size), r, j.ram)
    {
      hide C.Sound, EnvOk, Backed, Interpret, TextOf, Shown, FetchSpace, Stocked, Past, SameMarks, P.SameTables,
           Exactly;
      hide P.Agreement, P.SharedGlobals, P.AllHostMapped, T.Tlb.Guards, SlotOk, Standing, M.Small, Unrunnable,
           Executed;
      r, full := None, false;
      var u := Dispatch(pc, p, asid, size);
      if u.None? { return; }
      if mmu.tlb.saturated { full := true; return; }
      StandingShown(chain.log, chain.key, p, mmu.mem, mmu.roots, j.Now(), j.ways, j.issued);
      ghost var before, env := State(pc, x, j.ram), Now(asid, p);
      var after, n := RunGuestChain(u.value, pc, x, p, asid);
      r := Some(Report(env, mmu.mem, mmu.roots(asid), p, before, n, after));
    }

    /** The interpreter's store; one the check would miss does not take place. */
    method Store(at: nat, data: seq<Byte>)
      requires Valid()
      modifies j`executed, j`epoch, j`ram, mmu`executed
      ensures Valid() && |j.ram| == |old(j.ram)|
      ensures StepExplains(mmu.mem, mmu.roots, j.base, old(j.ram), Step.Store(at, data), None, j.ram)
    {
      hide C.Sound, Backed, Stocked, T.Exact, T.WritableXorExecuted, P.Agreement, P.SharedGlobals, P.AllHostMapped,
           SlotOk;
      hide Standing, T.Narrow, C.CodeAt, Past, P.SameTables;
      if !C.InRam(j.Now(), at, |data|) || |data| == 0 || |data| > 8 || C.Overlooked(j.Now(), at, data) { return; }
      ghost var epoch := j.epoch;
      var before := j.epoch;
      j.StoreChecked(at, data);
      M.SameSelf(mmu.mem);
      Later(chain.log, mmu.tlb.generation, epoch, mmu.tlb.generation, j.epoch, mmu.mem, mmu.mem, mmu.roots, j.issued,
            j.issued);
      if j.epoch == before {
        mmu.Clearing(at / PAGE);
      }
    }

    /** The interpreter translates an address, filling the TLB. */
    method Touch(access: Access, va: Word, asid: Asid, p: Policy)
      requires Valid() && LegalStep(Step.Touch(access, va, asid, p), mmu.mem, mmu.roots)
      modifies mmu, mmu.tlb
      ensures Valid() && P.SameTables(old(mmu.mem), mmu.mem) && mmu.tlb.generation == old(mmu.tlb.generation)
    {
      hide C.Sound, Backed, Stocked, T.Tlb.Guards, P.Agreement, P.SharedGlobals, P.AllHostMapped, SlotOk, Standing,
           M.Small;
      hide P.SameTables, P.Walk;
      ghost var mem := mmu.mem;
      var to := mmu.Translate(access, va, asid, p.mode, p.mxr, p.sum);
      Later(chain.log, mmu.tlb.generation, j.epoch, mmu.tlb.generation, j.epoch, mem, mmu.mem, mmu.roots, j.issued,
            j.issued);
    }

    /** SFENCE.VMA: only the full form drops the compiled code. */
    method Fence(va: Option<Word>, asid: Option<Asid>)
      requires Valid() && mmu.tlb.generation < M64 - 1
      modifies mmu.tlb, j`epoch
      ensures Valid() && old(mmu.tlb.generation) <= mmu.tlb.generation <= old(mmu.tlb.generation) + 1
    {
      hide C.Sound, Backed, Stocked, T.Tlb.Guards, P.Agreement, P.SharedGlobals, P.AllHostMapped, SlotOk, Standing;
      ghost var gen, epoch := mmu.tlb.generation, j.epoch;
      mmu.Fence(va, asid);
      if va.None? && asid.None? { j.InvalidateAll(); }
      M.SameSelf(mmu.mem);
      Later(chain.log, gen, epoch, mmu.tlb.generation, j.epoch, mmu.mem, mmu.mem, mmu.roots, j.issued, j.issued);
    }

    /** New page tables and a full fence: whatever the TLB and the installs were, everything is
        in order again, because nothing is installed under the new generation and epoch. */
    method Remap(tables: P.Tables)
      requires Core() && P.SharedGlobals(tables, mmu.roots) && mmu.tlb.generation < M64 - 1
      modifies mmu`mem, mmu.tlb, j`epoch
      ensures Valid() && mmu.mem == tables && mmu.tlb.generation == old(mmu.tlb.generation) + 1
    {
      hide C.Sound, Backed, Stocked, T.Tlb.Guards, P.Agreement, P.SharedGlobals, P.AllHostMapped, SlotOk, Standing;
      ghost var gen, epoch := mmu.tlb.generation, j.epoch;
      mmu.Remap(tables);
      j.InvalidateAll();
      FreshStands(chain.log, gen, epoch, mmu.tlb.generation, j.epoch, mmu.mem, mmu.roots, j.issued);
    }

    /** Any run: every chain in it made as many interpreter steps as it reports, on the
        instructions the address space held then, and memory is what the chains and stores
        made of it.  It stops only at a dispatch with a saturated credit. */
    method Run(steps: seq<Step>) returns (ghost reports: seq<Option<Report>>, ghost rams: seq<Ram>)
      requires Valid() && mmu.tlb.generation + |steps| < M64 && Legal(steps, mmu.mem, mmu.roots)
      modifies this`units, j, mmu, mmu.tlb, chain
      ensures Valid() && |rams| == |reports| + 1 && |reports| <= |steps|
      ensures |reports| < |steps| ==> mmu.tlb.saturated && steps[|reports|].Execute?
      ensures rams[0] == old(j.ram) && rams[|reports|] == j.ram
      ensures Explained(old(mmu.mem), mmu.roots, j.base, steps, reports, rams)
    {
      hide C.Sound, Backed, Stocked, T.Tlb.Guards, P.Agreement, P.SharedGlobals, P.AllHostMapped, SlotOk, Standing;
      hide StepExplains, P.SameTables, LegalStep, TablesAt, M.Mmu.Valid, M.Mmu.Guarded, Past, SameMarks,
           C.JitContext.Valid;
      reports, rams := [], [j.ram];
      ghost var tables := mmu.mem;
      M.SameSelf(mmu.mem);
      NoTables(tables, steps);
      for i := 0 to |steps|
        invariant Valid() && |reports| == i && |rams| == i + 1 && rams[0] == old(j.ram) && rams[i] == j.ram
        invariant mmu.tlb.generation <= old(mmu.tlb.generation) + i
        invariant P.SameTables(TablesAt(tables, steps, i), mmu.mem)
        invariant Explained(tables, mmu.roots, j.base, steps, reports, rams)
      {
        ghost var now, mem := TablesAt(tables, steps, i), mmu.mem;
        StepLegal(steps, tables, mmu.roots, i, mem);
        NextTables(tables, steps, i);
        ghost var r: Option<Report> := None;
        match steps[i] {
          case Execute(pc, x, p, asid, size) =>
            var full;
            r, full := Execute(pc, x, p, asid, size);
            if full { return; }
            M.SameTrans(now, mem, mmu.mem);
          case Store(at, data) => Store(at, data);
          case Touch(access, va, asid, p) =>
            Touch(access, va, asid, p);
            M.SameTrans(now, mem, mmu.mem);
            Quiet(mem, mmu.roots, j.base, j.ram, steps[i]);
          case Fence(va, asid) =>
            Fence(va, asid);
            Quiet(mem, mmu.roots, j.base, j.ram, steps[i]);
          case Remap(to) =>
            Remap(to);
            M.SameSelf(to);
            Quiet(mem, mmu.roots, j.base, j.ram, steps[i]);
        }
        SameExplains(now, mem, mmu.roots, j.base, rams[i], steps[i], r, j.ram);
        reports, rams := reports + [r], rams + [j.ram];
      }
    }
  }

  /** What a step must meet under the tables in force: Supervisor or User mode, x0 zero, no
      1 GiB leaf, and tables that share their global leaves. */
  ghost predicate LegalStep(step: Step, tables: P.Tables, roots: Asid -> nat)
  {
    match step
    case Execute(pc, x, p, asid, size) =>
      && p.mode != Privilege.Machine && x[0] == 0 && size <= C.ARENA_BYTES
      && M.Small(tables, roots, M.Access(EXEC, pc, asid, p.mode, p.mxr, p.sum))
    case Touch(access, va, asid, p) =>
      p.mode != Privilege.Machine && M.Small(tables, roots, M.Access(access, va, asid, p.mode, p.mxr, p.sum))
    case Remap(to) => P.SharedGlobals(to, roots)
    case _ => true
  }

  /** The tables in force before step k. */
  ghost function TablesAt(tables: P.Tables, steps: seq<Step>, k: nat): P.Tables
    requires k <= |steps|
  {
    if k == 0 then tables else if steps[k - 1].Remap? then steps[k - 1].tables else TablesAt(tables, steps, k - 1)
  }

  ghost predicate Legal(steps: seq<Step>, tables: P.Tables, roots: Asid -> nat)
  {
    forall k | 0 <= k < |steps| :: LegalStep(steps[k], TablesAt(tables, steps, k), roots)
  }

  /** What a step did to memory.  Only dispatches and stores change it: a dispatch runs an exact
      chain, or none if its pc is unrunnable; a store within a page writes its bytes. */
  ghost predicate StepExplains(tables: P.Tables, roots: Asid -> nat, base: nat, ram: Ram, step: Step, r: Option<Report>,
                               ram': Ram)
  {
    match step
    case Execute(pc, x, p, asid, size) =>
      (match r
       case None => ram' == ram && Unrunnable(tables, roots(asid), p, base, ram, pc)
       case Some(c) =>
         && Exactly(c) && c.before == State(pc, x, ram) && c.after.ram == ram' && c.env.ramBase == base
         && P.SameTables(tables, c.tables) && c.root == roots(asid) && c.policy == p)
    case Store(at, data) =>
      && r.None? && |ram'| == |ram|
      && (ram' == ram || (base <= at && at - base + |data| <= |ram| && ram' == Poked(ram, at - base, data)))
      && (base <= at && at - base + |data| <= |ram| && 0 < |data| <= 8 && |data| <= C.Room(at) ==>
            ram' == Poked(ram, at - base, data))
    case _ => r.None? && ram' == ram
  }

  function Poked(ram: Ram, at: nat, data: seq<Byte>): Ram
    requires at + |data| <= |ram|
  {
    ram[..at] + data + ram[at + |data|..]
  }

  ghost predicate Explained(tables: P.Tables, roots: Asid -> nat, base: nat, steps: seq<Step>,
                            reports: seq<Option<Report>>, rams: seq<Ram>)
    requires |rams| == |reports| + 1 && |reports| <= |steps|
  {
    forall k | 0 <= k < |reports| ::
      StepExplains(TablesAt(tables, steps, k), roots, base, rams[k], steps[k], reports[k], rams[k + 1])
  }

  lemma NoTables(tables: P.Tables, steps: seq<Step>)
    ensures TablesAt(tables, steps, 0) == tables
  {
  }

  lemma NextTables(tables: P.Tables, steps: seq<Step>, k: nat)
    requires k < |steps|
    ensures TablesAt(tables, steps, k + 1) == if steps[k].Remap? then steps[k].tables else TablesAt(tables, steps, k)
  {
  }

  /** A step legal under the tables in force is legal under them with A and D written back. */
  lemma StepLegal(steps: seq<Step>, tables: P.Tables, roots: Asid -> nat, k: nat, mem: P.Tables)
    requires k < |steps| && Legal(steps, tables, roots) && P.SameTables(TablesAt(tables, steps, k), mem)
    ensures LegalStep(steps[k], mem, roots)
    ensures steps[k].Remap? ==> P.SharedGlobals(steps[k].tables, roots)
  {
    hide TablesAt, P.SameTables, M.Small;
    var now := TablesAt(tables, steps, k);
    match steps[k]
    case Execute(pc, x, p, asid, size) => M.SameSmall(now, mem, roots, M.Access(EXEC, pc, asid, p.mode, p.mxr, p.sum));
    case Touch(access, va, asid, p) => M.SameSmall(now, mem, roots, M.Access(access, va, asid, p.mode, p.mxr, p.sum));
    case _ =>
  }

  lemma Quiet(tables: P.Tables, roots: Asid -> nat, base: nat, ram: Ram, step: Step)
    requires !step.Execute? && !step.Store?
    ensures StepExplains(tables, roots, base, ram, step, None, ram)
  {
  }

  lemma SameExplains(now: P.Tables, mem: P.Tables, roots: Asid -> nat, base: nat, ram: Ram, step: Step,
                     r: Option<Report>, ram': Ram)
    requires P.SameTables(now, mem) && StepExplains(mem, roots, base, ram, step, r, ram')
    ensures StepExplains(now, roots, base, ram, step, r, ram')
  {
    hide P.SameTables, Exactly, FetchAt, Window, P.Walk;
    if step.Execute? {
      if r.None? {
        M.SameWalk(now, mem, roots(step.asid), step.pc, EXEC, step.policy.mode, step.policy.mxr, step.policy.sum);
      } else {
        M.SameTrans(now, mem, r.value.tables);
      }
    }
  }

  /** A valid runner's environment is one its blocks suit. */
  lemma NowOk(r: Runner, asid: Asid, p: Policy)
    requires r.Shape()
    ensures EnvOk(r.Now(asid, p)) && Suits(r.Now(asid, p), p) && Sees(r.Now(asid, p), r.mmu)
  {
    hide C.Sound, Backed, Stocked, Past, SameMarks, WellFormed, HostMapped, P.Agreement, P.SharedGlobals, T.Exact,
         SlotOk;
    var env := r.Now(asid, p);
    forall i | 0 <= i < SIZE ensures ResidentOk(env, env.tlb[i]) {
    }
    assert EnvOk(env);
    PlainIsCoherent(env);
  }

  /** What a chain hands back, as a guest state. */
  lemma ChainState(env: Env, text: Program, s: State, n: nat, m0: Machine, m: Machine, after: State)
    requires EnvOk(env) && ChainOk(env, text, s, n, m0, m) && m0.gpr == s.x
    requires after == State(m.exit, m.gpr, m.ram)
    ensures Interpret(env, text, s, n) == Next(after) && |after.ram| == env.ramSize
  {
    hide EnvOk, Interpret;
    var r := Interpret(env, text, s, n);
    assert r.state.x == m.gpr;
  }

  /** The pc does not walk, or holds no instruction. */
  ghost predicate Unrunnable(mem: P.Tables, root: nat, p: Policy, base: nat, ram: Ram, pc: Word)
  {
    var to := FetchSpace(mem, root, p)(pc);
    to.None? || FetchAt(Window(base, ram, pc, to.value), 0).None?
  }

  /** However generation and epoch move on, the installs stay past and standing. */
  lemma Later(log: set<Install>, gen: nat, epoch: nat, gen': nat, epoch': nat, mem: P.Tables, mem': P.Tables,
              roots: Asid -> nat, issued: set<C.Issue>, issued': set<C.Issue>)
    requires Past(log, gen, epoch) && Standing(log, gen, epoch, mem, roots, issued)
    requires gen' >= gen && epoch' >= epoch && P.SameTables(mem, mem') && issued <= issued'
    ensures Past(log, gen', epoch') && Standing(log, gen', epoch', mem', roots, issued')
  {
    hide Standing, P.SameTables;
    if gen' == gen && epoch' == epoch {
      StillStands(log, gen, epoch, mem, mem', roots, issued, issued');
    } else {
      FreshStands(log, gen, epoch, gen', epoch', mem', roots, issued');
    }
  }

  lemma WalkOffset(mem: P.Tables, root: nat, pc: Word, p: Policy)
    ensures var to := P.Walk(mem, root, pc, EXEC, p.mode, p.mxr, p.sum); to.Some? ==> to.value % PAGE == pc % PAGE
  {
    hide P.MappedBy, P.Permitted, P.Ppn;
    var l := P.MappedBy(mem, root, pc);
    if l.Some? {
      WidthOf(l.value.level);
      var n := P.Span(l.value.level);
      var q, r := pc / P.PageBytes(l.value.level), pc % P.PageBytes(l.value.level);
      assert pc == PAGE * (n * q) + r by { assert PAGE * n * q == PAGE * (n * q); }
      SameMod(pc, r, PAGE, n * q);
      SameMod(P.Ppn(l.value.pte) * PAGE + r, r, PAGE, P.Ppn(l.value.pte));
    }
  }

  /** Installing a fitting unit at the address its pc walks to. */
  lemma NewInstall(log: set<Install>, i: Install, mem: P.Tables, roots: Asid -> nat, issued: set<C.Issue>, phys: nat,
                   code: C.Code)
    requires Backed(log, issued) && Past(log, i.key.gen, i.key.smc)
    requires Standing(log, i.key.gen, i.key.smc, mem, roots, issued)
    requires Fitting(i.unit, phys, code, i.mode) && C.Issue(phys, code, i.key.smc) in issued
    requires phys % PAGE == i.pc % PAGE
    requires P.Walk(mem, roots(i.key.asid), i.pc, EXEC, i.mode.mode, i.mode.mxr, i.mode.sum) == Some(phys)
    ensures Backed(log + {i}, issued) && Past(log + {i}, i.key.gen, i.key.smc)
    ensures Standing(log + {i}, i.key.gen, i.key.smc, mem, roots, issued)
  {
    hide UnitOk, Parses, P.Walk;
    assert Made(i, phys, code, issued);
  }
}
