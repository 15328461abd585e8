/** The pieces together: whatever translations, fences and marks came before, a chain of
    compiled blocks can write only pages without the executed mark, so it never leaves a
    cached block stale. */
module CodeSafety {
  import opened Words
  import opened Options
  import opened TlbEntries
  import opened Guest
  import opened Outcomes
  import opened Chains
  import opened InlineTlb
  import opened PageMarks
  import T = Tlbs
  import M = Mmus
  import P = Paging
  import C = CodeCache

  /** No resident mapping is wider than 2 MiB, and W^X holds. */
  ghost predicate Protected(env: Env, executed: seq<bool>)
  {
    && |env.tlb| == SIZE && !env.identity && T.WritableXorExecuted(env.tlb, env.generation, executed)
    && forall i | 0 <= i < SIZE && env.tlb[i].generation == env.generation :: env.tlb[i].pageBits != 30
  }

  /** The environment reads this MMU's TLB, with translation on. */
  ghost predicate Sees(env: Env, mmu: M.Mmu)
    reads mmu, mmu.tlb
  {
    env.tlb == mmu.tlb.entries && env.generation == mmu.tlb.generation && !env.identity
  }

  lemma GuardedProtects(env: Env, mmu: M.Mmu, executed: seq<bool>)
    requires mmu.tlb.Valid() && mmu.Guarded() && !mmu.tlb.saturated && Sees(env, mmu)
    requires SameMarks(mmu.executed, executed)
    ensures Protected(env, executed)
  {
    hide T.Exact, Executed;
  }

  /** From an empty TLB, every run of translations through leaves up to 2 MiB, fences, marks
      and cleared marks ends protected, unless some page had more than 255 writable entries. */
  method ProtectedRun(tables: P.Tables, rootOf: Asid -> nat, ramMap: P.RamMap, events: seq<M.Event>)
    returns (mmu: M.Mmu, answers: seq<Option<nat>>)
    requires P.SharedGlobals(tables, rootOf) && |events| + 1 < M64
    requires forall e | e in events && e.Access? :: e.mode != Privilege.Machine
    requires forall e | e in events :: M.Small(tables, rootOf, e)
    ensures mmu.Valid() && mmu.Guarded() && answers == M.Walks(tables, rootOf, events)
    ensures !mmu.tlb.saturated ==> forall env: Env | Sees(env, mmu) :: Protected(env, mmu.executed)
  {
    hide P.Agreement, P.SharedGlobals, P.AllHostMapped, T.Exact, T.WritableXorExecuted, M.Small, M.Walks, Protected;
    mmu := new M.Mmu(tables, rootOf, ramMap);
    answers := mmu.Run(events);
    if !mmu.tlb.saturated {
      forall env: Env | Sees(env, mmu) ensures Protected(env, mmu.executed) { GuardedProtects(env, mmu, mmu.executed); }
    }
  }

  // Translation off ------------------------------------------------------------------------------

  /** Every live entry maps its page to itself. */
  ghost predicate Plain(entries: seq<Entry>, generation: Word)
  {
    forall i | 0 <= i < |entries| && entries[i].generation == generation :: entries[i].pbase == entries[i].vbase
  }

  /** The entries machine mode and a bare satp seed keep a TLB plain, and a plain TLB is all
      a block needs to be entered with translation off. */
  lemma BareKeepsPlain(entries: seq<Entry>, generation: Word, va: Word, perm: Byte, asid: Asid, host: Option<Word>,
                       executed: seq<bool>)
    requires |entries| == SIZE && Plain(entries, generation)
    ensures var e := T.Filled(va, PageBase(va, 12), 12, perm, asid, true, host, generation, executed);
      Plain(entries[Index(va) := e], generation)
  {
    hide Pow2, T.WithoutWrite, Index;
    PageSizes();
    T.Aligned(va, Pow2(12));
  }

  lemma PlainIsCoherent(env: Env)
    requires EnvOk(env)
    ensures Plain(env.tlb, env.generation) || !env.identity ==> Coherent(env)
  {
    hide EnvOk, PermPasses, Index, PageBase;
    forall va: Word, store: bool | InlineTlb.Passes(env, va, 1, store)
      ensures Plain(env.tlb, env.generation) ==> IndexedEntry(env, va).pbase == IndexedEntry(env, va).vbase
    {
      TlbSize(env, va);
    }
  }

  lemma TlbSize(env: Env, va: Word)
    requires EnvOk(env)
    ensures |env.tlb| == SIZE && Index(va) < SIZE
  {
  }

  // Stores -------------------------------------------------------------------------------------------

  /** Every byte that differs lies on a page without the mark. */
  ghost predicate OffCode(base: nat, before: Ram, after: Ram, executed: seq<bool>)
  {
    && |after| == |before|
    && forall i | 0 <= i < |before| && after[i] != before[i] :: !Executed(executed, (base + i) / 0x1000)
  }

  /** A translated access keeps its offset in the page. */
  lemma SameOffset(env: Env, va: Word, access: Access)
    requires EnvOk(env) && !env.identity
    ensures env.paging
    ensures var r := Translate(env, va, access); r.Some? ==> r.value % 0x1000 == va % 0x1000
  {
    var e := env.tlb[Index(va)];
    var r := Translate(env, va, access);
    if r.Some? {
      hide Grants, Bits, Pow2, Index, HostMapped;
      assert ResidentOk(env, e);
      var off := va % Pow2(e.pageBits);
      ModBound(va, Pow2(e.pageBits));
      OrDisjoint(e.pbase, off, e.pageBits);
      T.BaseAligned(e.pbase, e.pageBits);
      LowOffset(va, e.pageBits);
      SumOffset(e.pbase, off);
    }
  }

  lemma LowOffset(va: Word, bits: nat)
    requires T.PageSize(bits)
    ensures Pow2(bits) > 0 && va % Pow2(bits) % 0x1000 == va % 0x1000
  {
    hide Pow2;
    PageSizes();
    var m, n := Pow2(bits), T.PageCount(bits);
    var q, r := va / m, va % m;
    assert m == 0x1000 * n && va == m * q + r;
    assert va == 0x1000 * (n * q) + r;
    SameMod(va, r, 0x1000, n * q);
  }

  lemma SumOffset(p: nat, off: nat)
    requires p % 0x1000 == 0
    ensures (p + off) % 0x1000 == off % 0x1000
  {
  }

  /** A store of at most 8 bytes at a RAM offset. */
  lemma {:induction false} StoreChanges(ram: Ram, at: nat, n: nat, v: nat, i: nat)
    requires at + n <= |ram| && i < |ram| && !(at <= i < at + n)
    ensures StoreLE(ram, at, n, v)[i] == ram[i]
    decreases n
  {
    if n > 0 { StoreChanges(ram[at := v % 256], at + 1, n - 1, v / 256, i); }
  }

  lemma StoreOffCode(env: Env, s: State, va: Word, width: nat, v: Word, size: nat, executed: seq<bool>)
    requires EnvOk(env) && |s.ram| == env.ramSize && Protected(env, executed) && 0 < width
    ensures var r := DoStore(env, s, va, width, v, size); r.Next? ==> OffCode(env.ramBase, s.ram, r.state.ram, executed)
  {
    hide EnvOk, StoreLE, Lookup;
    var r := DramOffset(env, va, STORE, width);
    if r.Some? {
      var at := r.value;
      var pa := Translate(env, va, STORE).value;
      SameOffset(env, va, STORE);
      HitOffCode(env, va, executed);
      var after := StoreLE(s.ram, at, width, v);
      forall i | 0 <= i < |s.ram| && after[i] != s.ram[i] ensures !Executed(executed, (env.ramBase + i) / 0x1000) {
        if !(at <= i < at + width) { StoreChanges(s.ram, at, width, v, i); }
        SamePage(pa, env.ramBase + i, width);
      }
    }
  }

  lemma HitOffCode(env: Env, va: Word, executed: seq<bool>)
    requires EnvOk(env) && Protected(env, executed)
    ensures var r := Translate(env, va, STORE); r.Some? ==> !Executed(executed, r.value / 0x1000)
  {
    hide Bits, Pow2, HostMapped;
    var e := env.tlb[Index(va)];
    assert ResidentOk(env, e);
    if e.generation == env.generation {
      T.NoStoreHit(env.tlb, env.generation, executed, va, env.asid, env.mode, env.mxr, env.sum);
    }
  }

  lemma SamePage(pa: nat, a: nat, width: nat)
    requires pa <= a < pa + width && pa % 0x1000 + width <= 0x1000
    ensures a / 0x1000 == pa / 0x1000
  {
    DivModUnique(a, 0x1000, pa / 0x1000, pa % 0x1000 + (a - pa));
  }

  lemma SameIsOff(base: nat, ram: Ram, executed: seq<bool>)
    ensures OffCode(base, ram, ram, executed)
  {
  }

  /** Whatever instruction runs, it writes off the executed pages. */
  lemma StepOffCode(env: Env, s: State, d: Decoded, executed: seq<bool>)
    requires EnvOk(env) && |s.ram| == env.ramSize && Registered(d) && Protected(env, executed)
    ensures var r := Handle(env, s, d); r.Next? ==> OffCode(env.ramBase, s.ram, r.state.ram, executed)
  {
    hide EnvOk, HandleR, HandleI, HandleM, Bits, DoStore, DramOffset, LoadLE, Extend, ImmOf, ImmI, ImmS, ImmB, ImmU,
         ImmJ, Add, Protected, Shift64, Sext32, SetReg, OffCode, CImmSigned, CImm4spn, CImm16sp, CImmArith, CImmLw,
         CImmLd, CImmLwsp, CImmLdsp, CImmSwsp, CImmSdsp, CImmJ, CImmB;
    SameIsOff(env.ramBase, s.ram, executed);
    var i := d.inst;
    if d.op.Store? {
      StoreOffCode(env, s, Add(s.x[Rs1(i)], ImmS(i)), d.op.width, s.x[Rs2(i)], 4, executed);
    } else if d.op.CStore? {
      var imm := if d.op.width == 4 then CImmLw(i) else CImmLd(i);
      StoreOffCode(env, s, Add(s.x[8 + CRs1(i)], imm), d.op.width, s.x[8 + CRd(i)], 2, executed);
    } else if d.op.CStoreSp? {
      var imm := if d.op.width == 4 then CImmSwsp(i) else CImmSdsp(i);
      StoreOffCode(env, s, Add(s.x[2], imm), d.op.width, s.x[CRs2(i)], 2, executed);
    } else {
      NoStore(env, s, d);
    }
  }

  lemma NoStore(env: Env, s: State, d: Decoded)
    requires EnvOk(env) && |s.ram| == env.ramSize && Registered(d) && !d.op.Store? && !d.op.CStore? && !d.op.CStoreSp?
    ensures var r := Handle(env, s, d); r.Next? ==> r.state.ram == s.ram
  {
    hide EnvOk, HandleR, HandleI, HandleM, Bits, DramOffset, LoadLE, Extend, ImmOf, ImmI, ImmS, ImmB, ImmU, ImmJ, Add,
         Shift64, Sext32, SetReg, CImmSigned, CImm4spn, CImm16sp, CImmArith, CImmLw, CImmLd, CImmLwsp, CImmLdsp,
         CImmSwsp, CImmSdsp, CImmJ, CImmB;
  }

  lemma OffCodeTrans(base: nat, a: Ram, b: Ram, c: Ram, executed: seq<bool>)
    requires OffCode(base, a, b, executed) && OffCode(base, b, c, executed)
    ensures OffCode(base, a, c, executed)
  {
  }

  /** Nor does any number of steps. */
  lemma {:induction false} RunOffCode(env: Env, text: Program, s: State, n: nat, executed: seq<bool>)
    requires EnvOk(env) && |s.ram| == env.ramSize && s.x[0] == 0 && Protected(env, executed)
    ensures var r := Interpret(env, text, s, n); r.Next? ==> OffCode(env.ramBase, s.ram, r.state.ram, executed)
  {
    hide EnvOk, Handle, Protected, OffCode;
    if n == 0 {
      SameIsOff(env.ramBase, s.ram, executed);
    } else {
      RunOffCode(env, text, s, n - 1, executed);
      var r := Interpret(env, text, s, n - 1);
      if r.Next? && r.state.pc in text {
        StepOffCode(env, r.state, text[r.state.pc], executed);
        var t := Handle(env, r.state, text[r.state.pc]);
        if t.Next? { OffCodeTrans(env.ramBase, s.ram, r.state.ram, t.state.ram, executed); }
      }
    }
  }

  /** A chain leaves the code cache sound: with the memory it produces, every block keyed
      at the current epoch still matches its text.  What it needs of the MMU is what every
      run of it keeps. */
  lemma ChainKeepsCacheSound(mmu: M.Mmu, env: Env, text: Program, s: State, n: nat, s': State, w: C.World,
                             ways: seq<C.Way>, issued: set<C.Issue>)
    requires mmu.tlb.Valid() && mmu.Guarded() && !mmu.tlb.saturated && Sees(env, mmu)
    requires SameMarks(mmu.executed, w.executed)
    requires EnvOk(env) && |s.ram| == env.ramSize && s.x[0] == 0
    requires w.ram == s.ram && w.base == env.ramBase && C.Sound(w, ways, issued)
    requires Interpret(env, text, s, n) == Next(s')
    ensures C.Sound(w.(ram := s'.ram), ways, issued)
  {
    hide EnvOk, Interpret, Protected, C.Sound, C.CodeAt, Sees;
    GuardedProtects(env, mmu, w.executed);
    RunOffCode(env, text, s, n, w.executed);
    C.WroteSound(w, w.(ram := s'.ram), ways, issued);
  }
}
