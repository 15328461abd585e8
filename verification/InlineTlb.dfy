/** The TLB check generated in front of every load and store (emit_tlb_checks): when
    it passes, TLB::lookup grants the access and the host address is the RAM byte of
    the physical address lookup returns. */
module InlineTlb {
  import opened Words
  import opened Options
  import opened TlbEntries
  import opened Guest
  import opened Host
  import opened AluCode

  function IndexCode(h: HReg): seq<Op>
  {
    [Mov(RCX, h), ShiftImm(Shr, RCX, 12), ArithImm(AND64, RCX, 0x1FFFF), ShiftImm(Shl, RCX, 6),
     ArithMem(ADD64, RCX, CtxTlbBase)]
  }

  function GenerationCode(site: nat): seq<Op>
  {
    [LoadOp(RDX, TlbField(Generation)), ArithMem(CMP64, RDX, CtxTlbGen), MissIf(NE, site)]
  }

  function PageCode(h: HReg, site: nat): seq<Op>
  {
    [Mov(RAX, h), ArithMem(XOR64, RAX, TlbField(VBase)), ArithMem(AND64, RAX, TlbField(MaskInv)), MissIf(NE, site)]
  }

  function AsidCode(site: nat): seq<Op>
  {
    [LoadOp(RDX, CtxAsid), CmpMem(TlbField(Asid), RDX), SkipIf(E, 3)]
    + [TestMem(TlbField(Global)), SkipIf(NE, 1), MissAlways(site)]
  }

  /** The permission bits that must be set, and those that must be clear, with the
      mode, SUM and MXR baked in. */
  function Must(store: bool, mode: Privilege, mxr: bool): nat
  {
    (if store then 2 + 32 else if mxr then 1 + 4 else 1) + (if mode == User then 8 else 0)
  }

  function Forbidden(mode: Privilege, sum: bool): nat { if mode == Supervisor && !sum then 8 else 0 }

  function PermCode(must: nat, forb: nat, site: nat): seq<Op>
  {
    [LoadOp(RAX, TlbField(Perm)), And32Imm(RAX, must + forb), Cmp32Imm(RAX, must), MissIf(NE, site)]
  }

  function AlignCode(h: HReg, width: nat, site: nat): seq<Op>
  {
    if width > 1 then [TestImm(h, width - 1), MissIf(NE, site)] else []
  }

  function HostCode(h: HReg, site: nat): seq<Op>
  {
    [LoadOp(RDX, TlbField(HostPtr)), Test(RDX, RDX), MissIf(E, site), Arith(ADD64, h, RDX)]
  }

  /** How many miss sites the check records. */
  function Sites(width: nat): nat { if width > 1 then 6 else 5 }

  function CheckCode(h: HReg, width: nat, store: bool, mode: Privilege, mxr: bool, sum: bool, site: nat): seq<Op>
  {
    IndexCode(h) + GenerationCode(site) + PageCode(h, site + 1) + AsidCode(site + 2)
    + PermCode(Must(store, mode, mxr), Forbidden(mode, sum), site + 3)
    + AlignCode(h, width, site + 4) + HostCode(h, site + Sites(width) - 1)
  }

  // Segment by segment -----------------------------------------------------------

  /** Only scratch registers and flags changed. */
  ghost predicate Scratch(m: Machine, m': Machine) { Only(m, m', RAX) }

  /** A segment goes on if `fact` holds and leaves through its miss site if not; either way
      only scratch registers changed, and RCX is kept when it goes on. */
  ghost predicate Checks(env: Env, code: seq<Op>, m: Machine, site: nat, fact: bool)
  {
    match Exec(env, code, Run(m))
    case Run(m') => fact && Scratch(m, m') && m'.regs[RCX] == m.regs[RCX]
    case Missed(s, m') => !fact && s == site && Scratch(m, m')
    case _ => false
  }

  lemma IndexRuns(env: Env, m: Machine, h: HReg) returns (m1: Machine)
    requires EnvOk(env) && Pooled(h)
    ensures Exec(env, IndexCode(h), Run(m)) == Run(m1) && Scratch(m, m1)
    ensures EntryAt(env, m1.regs[RCX]) == Some(env.tlb[Index(m.regs[h])])
  {
    var va := m.regs[h];
    IndexSteps(env, m, h);
    IndexValue(va);
    var i := Shift64(Shl, BitW(And, Shift64(Shr, va, 12), 0x1FFFF), 6);
    m1 := SetF(m, RCX, Add(i, env.tlbBase), NoFlags);
    EntryAddress(env, Index(va));
  }

  lemma EntryAddress(env: Env, i: nat)
    requires EnvOk(env) && i < SIZE
    ensures Add(i * 64, env.tlbBase) == env.tlbBase + i * 64
    ensures EntryAt(env, Add(i * 64, env.tlbBase)) == Some(env.tlb[i])
  {
    assert (i * 64) % 64 == 0 && (i * 64) / 64 == i;
  }

  lemma IndexSteps(env: Env, m: Machine, h: HReg)
    ensures var i := Shift64(Shl, BitW(And, Shift64(Shr, m.regs[h], 12), 0x1FFFF), 6);
            Exec(env, IndexCode(h), Run(m)) == Run(SetF(m, RCX, Add(i, env.tlbBase), NoFlags))
  {
    hide Do, Exec, Shift64, BitW, Add;
    var a, v := m.regs[h], Shift64(Shr, m.regs[h], 12);
    var w := BitW(And, v, 0x1FFFF);
    var i := Shift64(Shl, w, 6);
    DoMov(env, m, RCX, h);
    DoShiftImm(env, Set(m, RCX, a), Shr, RCX, 12);
    Overwrite(m, RCX, a, v, NoFlags, NoFlags);
    DoArithImm(env, SetF(m, RCX, v, NoFlags), AND64, RCX, 0x1FFFF);
    Overwrite(m, RCX, v, w, NoFlags, Compared(w, 0));
    DoShiftImm(env, SetF(m, RCX, w, Compared(w, 0)), Shl, RCX, 6);
    Overwrite(m, RCX, w, i, Compared(w, 0), NoFlags);
    DoLoadCtx(env, SetF(m, RCX, i, NoFlags), RCX);
    Overwrite(m, RCX, i, Add(i, env.tlbBase), NoFlags, NoFlags);
    Exec5(env, Mov(RCX, h), ShiftImm(Shr, RCX, 12), ArithImm(AND64, RCX, 0x1FFFF), ShiftImm(Shl, RCX, 6),
          ArithMem(ADD64, RCX, CtxTlbBase), Run(m));
  }

  lemma IndexValue(va: Word)
    ensures Shift64(Shl, BitW(And, Shift64(Shr, va, 12), 0x1FFFF), 6) == Index(va) * 64
  {
    assert Pow2(12) == 0x1000 && Pow2(6) == 64;
    assert Pow2(17) == 0x20000 by { Pow2Adds(12, 5); assert Pow2(5) == 32; }
    assert Shift64(Shr, va, 12) == va / 0x1000;
    AndLow(va / 0x1000, 17);
  }

  lemma GenerationChecks(env: Env, m: Machine, e: Entry, site: nat)
    requires EntryAt(env, m.regs[RCX]) == Some(e)
    ensures Checks(env, GenerationCode(site), m, site, e.generation == env.generation)
  {
    hide Do, Exec, EntryAt;
    var m1 := Set(m, RDX, e.generation);
    var m2 := SetF(m, RDX, e.generation, Compared(e.generation, env.generation));
    DoLoadField(env, m, e, RDX, Generation);
    DoLoadCtx(env, m1, RDX);
    Overwrite(m, RDX, e.generation, e.generation, NoFlags, m2.flags);
    DoMissIf(env, m2, NE, site);
    Exec3(env, LoadOp(RDX, TlbField(Generation)), ArithMem(CMP64, RDX, CtxTlbGen), MissIf(NE, site), Run(m));
  }

  lemma PageChecks(env: Env, m: Machine, h: HReg, e: Entry, site: nat)
    requires Pooled(h) && EntryAt(env, m.regs[RCX]) == Some(e) && WellFormed(e)
    ensures Checks(env, PageCode(h, site), m, site, PageBase(m.regs[h], e.pageBits) == e.vbase)
  {
    var va := m.regs[h];
    SamePage(va, e.vbase, e.pageBits);
    PageRuns(env, m, h, e, site, BitW(And, BitW(Xor, va, e.vbase), e.maskInv));
  }

  lemma PageRuns(env: Env, m: Machine, h: HReg, e: Entry, site: nat, diff: Word)
    requires Pooled(h) && EntryAt(env, m.regs[RCX]) == Some(e)
    requires diff == BitW(And, BitW(Xor, m.regs[h], e.vbase), e.maskInv)
    ensures Checks(env, PageCode(h, site), m, site, diff == 0)
  {
    hide Do, Exec, EntryAt, BitW;
    var x := BitW(Xor, m.regs[h], e.vbase);
    DoMov(env, m, RAX, h);
    DoArithField(env, Set(m, RAX, m.regs[h]), e, XOR64, RAX, VBase);
    Overwrite(m, RAX, m.regs[h], x, NoFlags, Compared(x, 0));
    DoArithField(env, SetF(m, RAX, x, Compared(x, 0)), e, AND64, RAX, MaskInv);
    Overwrite(m, RAX, x, diff, Compared(x, 0), Compared(diff, 0));
    DoMissIf(env, SetF(m, RAX, diff, Compared(diff, 0)), NE, site);
    Exec4(env, Mov(RAX, h), ArithMem(XOR64, RAX, TlbField(VBase)), ArithMem(AND64, RAX, TlbField(MaskInv)),
          MissIf(NE, site), Run(m));
  }

  /** (va ^ base) & ~mask is zero exactly when va lies in base's page. */
  lemma SamePage(va: Word, base: Word, bits: nat)
    requires bits <= 64 && base % Pow2(bits) == 0
    ensures M64 - Pow2(bits) >= 0
    ensures BitW(And, BitW(Xor, va, base), M64 - Pow2(bits)) == 0 <==> PageBase(va, bits) == base
  {
    var x := BitW(Xor, va, base);
    var p := Pow2(bits);
    Pow2At64();
    AndHigh(x, 64, bits);
    XorHigh(va, base, bits);
    Multiples(x, p);
    Multiples(va, p);
    Multiples(base, p);
    SameQuotient(va / p, base / p, p);
  }

  lemma Multiples(x: nat, p: nat)
    requires p >= 1
    ensures x - x % p == p * (x / p) && (x - x % p == 0 <==> x / p == 0)
  {
    assert x == p * (x / p) + x % p;
    if x / p != 0 {
      assert x / p >= 1;
      MulMono(p, 1, x / p);
    }
  }

  lemma SameQuotient(a: int, b: int, p: nat)
    requires p >= 1
    ensures p * a == p * b <==> a == b
  {
    if p * a == p * b {
      assert p * (a - b) == 0;
      SmallMultiple(p, a - b, 0);
    }
  }

  lemma AsidChecks(env: Env, m: Machine, e: Entry, site: nat)
    requires EntryAt(env, m.regs[RCX]) == Some(e)
    ensures Checks(env, AsidCode(site), m, site, e.global || e.asid == env.asid)
  {
    hide Do, Exec, EntryAt;
    var front := [LoadOp(RDX, CtxAsid), CmpMem(TlbField(Asid), RDX), SkipIf(E, 3)];
    var back := [TestMem(TlbField(Global)), SkipIf(NE, 1), MissAlways(site)];
    var m1 := m.(regs := m.regs[RDX := U64(env.asid)], flags := Compared(U64(e.asid), U64(env.asid)));
    AsidFront(env, m, m1, e);
    ExecAppend(env, front, back, Run(m));
    AsidBack(env, m1, e, site);
  }

  lemma AsidFront(env: Env, m: Machine, m1: Machine, e: Entry)
    requires EntryAt(env, m.regs[RCX]) == Some(e)
    requires m1 == m.(regs := m.regs[RDX := U64(env.asid)], flags := Compared(U64(e.asid), U64(env.asid)))
    ensures Exec(env, [LoadOp(RDX, CtxAsid), CmpMem(TlbField(Asid), RDX), SkipIf(E, 3)], Run(m))
         == if e.asid == env.asid then Skip(3, m1) else Run(m1)
  {
    hide Do, Exec, EntryAt;
    DoLoadCtx(env, m, RDX);
    DoCmpField(env, Set(m, RDX, U64(env.asid)), e, Asid, RDX);
    DoSkipIf(env, m1, E, 3);
    Exec3(env, LoadOp(RDX, CtxAsid), CmpMem(TlbField(Asid), RDX), SkipIf(E, 3), Run(m));
  }

  lemma AsidBack(env: Env, m: Machine, e: Entry, site: nat)
    requires EntryAt(env, m.regs[RCX]) == Some(e)
    ensures var back := [TestMem(TlbField(Global)), SkipIf(NE, 1), MissAlways(site)];
            && Exec(env, back, Skip(3, m)) == Run(m)
            && Exec(env, back, Run(m)) ==
               (var m1 := m.(flags := Compared(if e.global then 1 else 0, 0));
                if e.global then Run(m1) else Missed(site, m1))
  {
    hide Step, Exec, EntryAt;
    var m1 := m.(flags := Compared(if e.global then 1 else 0, 0));
    DoTestField(env, m, e, Global);
    DoSkipIf(env, m1, NE, 1);
    assert Step(env, MissAlways(site), m1) == Missed(site, m1) by { MissStep(env, m1, site); }
    Exec3(env, TestMem(TlbField(Global)), SkipIf(NE, 1), MissAlways(site), Run(m));
    Exec3(env, TestMem(TlbField(Global)), SkipIf(NE, 1), MissAlways(site), Skip(3, m));
  }

  lemma MissStep(env: Env, m: Machine, site: nat)
    ensures Step(env, MissAlways(site), m) == Missed(site, m)
  {
  }

  /** The permission bits the generated code lets through. */
  predicate PermPasses(perm: Byte, store: bool, mode: Privilege, mxr: bool, sum: bool)
  {
    Bits(And, perm, Must(store, mode, mxr) + Forbidden(mode, sum)) == Must(store, mode, mxr)
  }

  lemma PermRuns(env: Env, m: Machine, e: Entry, must: nat, forb: nat, site: nat)
    requires EntryAt(env, m.regs[RCX]) == Some(e) && must + forb < 64
    ensures Checks(env, PermCode(must, forb, site), m, site, Bits(And, e.perm, must + forb) == must)
  {
    hide Do, Exec, EntryAt, Bits;
    var v := Bits(And, e.perm, must + forb);
    PermValue(e.perm, must + forb);
    DoLoadField(env, m, e, RAX, Perm);
    PermSteps(env, Set(m, RAX, e.perm), must + forb, must, v);
    Overwrite(m, RAX, e.perm, v, NoFlags, Compared(v, 0));
    Overwrite(m, RAX, e.perm, v, NoFlags, Compared(v, must));
    DoMissIf(env, SetF(m, RAX, v, Compared(v, must)), NE, site);
    Exec4(env, LoadOp(RAX, TlbField(Perm)), And32Imm(RAX, must + forb), Cmp32Imm(RAX, must), MissIf(NE, site), Run(m));
  }

  lemma PermSteps(env: Env, m: Machine, mask: nat, must: nat, v: Word)
    requires mask < 64 && must < 64 && v < 256 && m.regs[RAX] < 256 && v == Bits(And, m.regs[RAX], mask)
    ensures Do(env, And32Imm(RAX, mask), Run(m)) == Run(SetF(m, RAX, v, Compared(v, 0)))
    ensures Do(env, Cmp32Imm(RAX, must), Run(SetF(m, RAX, v, Compared(v, 0)))) ==
            Run(SetF(m, RAX, v, Compared(v, must)))
  {
    hide Bits;
    assert U32(m.regs[RAX]) == m.regs[RAX] && U32(mask) == mask && U32(must) == must && U32(v) == v;
  }

  lemma PermValue(p: Byte, mask: nat)
    requires mask < 64
    ensures U32(p) == p && U32(mask) == mask && Bits(And, p, mask) < 256
  {
    assert Pow2(8) == 256;
    BitsBound(And, p, mask, 8);
  }

  lemma PermGrants(p: Byte, store: bool, mode: Privilege, mxr: bool, sum: bool)
    requires PermPasses(p, store, mode, mxr, sum)
    ensures Grants(p, if store then STORE else LOAD, mode, mxr, sum)
  {
    hide Bits;
    var must := Must(store, mode, mxr);
    var mask := must + Forbidden(mode, sum);
    PermBit(p, mask, must);
  }

  /** Where the mask selects a bit, the permission bit is the required one. */
  lemma PermBit(p: Byte, mask: nat, must: nat)
    requires Bits(And, p, mask) == must
    ensures mask % 2 == 1 ==> p % 2 == must % 2
    ensures mask / 2 % 2 == 1 ==> p / 2 % 2 == must / 2 % 2
    ensures mask / 4 % 2 == 1 ==> p / 4 % 2 == must / 4 % 2
    ensures mask / 8 % 2 == 1 ==> p / 8 % 2 == must / 8 % 2
    ensures mask / 32 % 2 == 1 ==> p / 32 % 2 == must / 32 % 2
  {
    assert Pow2(0) == 1 && Pow2(1) == 2 && Pow2(2) == 4 && Pow2(3) == 8 && Pow2(5) == 32;
    BitAt(And, p, mask, 0);
    BitAt(And, p, mask, 1);
    BitAt(And, p, mask, 2);
    BitAt(And, p, mask, 3);
    BitAt(And, p, mask, 5);
  }

  lemma AlignChecks(env: Env, m: Machine, h: HReg, width: nat, site: nat)
    requires Pooled(h) && width in {1, 2, 4, 8}
    ensures Checks(env, AlignCode(h, width, site), m, site, m.regs[h] % width == 0)
  {
    hide Do, Exec, BitW;
    if width > 1 {
      var v := BitW(And, m.regs[h], U64(width - 1));
      AlignValue(m.regs[h], width);
      TestSteps(env, m, h, width - 1);
      DoMissIf(env, m.(flags := Compared(v, 0)), NE, site);
      Exec2(env, TestImm(h, width - 1), MissIf(NE, site), Run(m));
    } else {
      ExecNone(env, m);
    }
  }

  lemma ExecNone(env: Env, m: Machine)
    ensures Exec(env, [], Run(m)) == Run(m)
  {
  }

  lemma TestSteps(env: Env, m: Machine, h: HReg, imm: int)
    ensures Do(env, TestImm(h, imm), Run(m)) == Run(m.(flags := Compared(BitW(And, m.regs[h], U64(imm)), 0)))
  {
  }

  lemma AlignValue(va: Word, width: nat)
    requires width in {2, 4, 8}
    ensures BitW(And, va, U64(width - 1)) == va % width
  {
    assert Pow2(1) == 2 && Pow2(2) == 4 && Pow2(3) == 8;
    AndLow(va, if width == 2 then 1 else if width == 4 then 2 else 3);
  }

  /** The last segment: H becomes the host address, or there is no host mapping. */
  lemma HostChecks(env: Env, m: Machine, h: HReg, e: Entry, site: nat)
    requires Pooled(h) && EntryAt(env, m.regs[RCX]) == Some(e)
    ensures match Exec(env, HostCode(h, site), Run(m))
            case Run(m') => e.hostPtr != 0 && Only(m, m', h) && m'.regs[h] == Add(m.regs[h], e.hostPtr)
            case Missed(s, m') => e.hostPtr == 0 && s == site && Scratch(m, m')
            case _ => false
  {
    hide Do, Exec, EntryAt, BitW, Add;
    var m1 := Set(m, RDX, e.hostPtr);
    var m2 := SetF(m, RDX, e.hostPtr, Compared(e.hostPtr, 0));
    DoLoadField(env, m, e, RDX, HostPtr);
    TestSelf(env, m1, RDX);
    DoMissIf(env, m2, E, site);
    DoArithReg(env, m2, ADD64, h, RDX);
    DoneMissed(env, Arith(ADD64, h, RDX), site, m2);
    Exec4(env, LoadOp(RDX, TlbField(HostPtr)), Test(RDX, RDX), MissIf(E, site), Arith(ADD64, h, RDX), Run(m));
  }

  lemma TestSelf(env: Env, m: Machine, r: HReg)
    ensures Do(env, Test(r, r), Run(m)) == Run(m.(flags := Compared(m.regs[r], 0)))
  {
    BitsSelf(m.regs[r]);
  }

  lemma DoneMissed(env: Env, op: Op, site: nat, m: Machine)
    ensures Do(env, op, Missed(site, m)) == Missed(site, m)
  {
  }

  // The whole check --------------------------------------------------------------------

  /** The entry an access at va indexes lets it through, as far as the host pointer. */
  predicate Admitted(env: Env, va: Word, e: Entry, width: nat, store: bool)
    requires width >= 1
  {
    && e.generation == env.generation
    && PageBase(va, e.pageBits) == e.vbase
    && (e.global || e.asid == env.asid)
    && PermPasses(e.perm, store, env.mode, env.mxr, env.sum)
    && va % width == 0
  }

  function IndexedEntry(env: Env, va: Word): Entry
    requires EnvOk(env)
  {
    env.tlb[Index(va)]
  }

  /** Exactly the accesses the check lets through. */
  predicate Passes(env: Env, va: Word, width: nat, store: bool)
    requires EnvOk(env) && width >= 1
  {
    Admitted(env, va, IndexedEntry(env, va), width, store) && IndexedEntry(env, va).hostPtr != 0
  }

  function AccessOf(store: bool): Access { if store then STORE else LOAD }

  /** TLB::lookup under the key the block runs with. */
  function LookupIn(env: Env, va: Word, store: bool): Option<Word>
    requires EnvOk(env)
  {
    Lookup(env.tlb, env.generation, va, AccessOf(store), env.asid, env.mode, env.mxr, env.sum)
  }

  /** The access lies in RAM at this physical address, and in one 4 KiB page. */
  predicate Contained(env: Env, va: Word, pa: Word, width: nat)
  {
    env.ramBase <= pa && pa + width <= env.ramBase + env.ramSize && va % 0x1000 + width <= 0x1000
  }

  /** What the check promises, relative to the machine `m` it starts in: it misses with
      only scratch changed, or lookup grants the access and h holds the host address of the
      RAM byte lookup answers. */
  ghost predicate CheckOutcome(env: Env, m: Machine, h: HReg, width: nat, store: bool, site: nat, st: Status)
    requires EnvOk(env) && width >= 1
  {
    var va := m.regs[h];
    match st
    case Missed(s, m') => !Passes(env, va, width, store) && site <= s < site + Sites(width) && Scratch(m, m')
    case Run(m') =>
      var hit := LookupIn(env, va, store);
      && Passes(env, va, width, store) && hit.Some? && Contained(env, va, hit.value, width)
      && Only(m, m', h) && m'.regs[h] == env.hostRam + (hit.value - env.ramBase)
    case _ => false
  }

  lemma {:induction false} ExecMissed(env: Env, code: seq<Op>, site: nat, m: Machine)
    ensures Exec(env, code, Missed(site, m)) == Missed(site, m)
    decreases |code|
  {
    if code != [] { ExecMissed(env, code[1..], site, m); }
  }

  /** Running one more segment after a prefix that already missed or goes on. */
  lemma Continue(env: Env, pre: seq<Op>, code: seq<Op>, m: Machine)
    ensures var st := Exec(env, pre, Run(m));
            Exec(env, pre + code, Run(m)) == if st.Missed? then st else Exec(env, code, st)
  {
    ExecAppend(env, pre, code, Run(m));
    var st := Exec(env, pre, Run(m));
    if st.Missed? { ExecMissed(env, code, st.site, st.m); }
  }

  /** The state after a prefix of the check: missed at one of the first n sites, or
      going on with RCX at entry e and only scratch changed. */
  ghost predicate Prefix(env: Env, m: Machine, e: Entry, site: nat, n: nat, fact: bool, st: Status)
  {
    match st
    case Missed(s, m') => !fact && site <= s < site + n && Scratch(m, m')
    case Run(m') => fact && Scratch(m, m') && EntryAt(env, m'.regs[RCX]) == Some(e)
    case _ => false
  }

  lemma Extend1(env: Env, m: Machine, e: Entry, pre: seq<Op>, code: seq<Op>, site: nat, n: nat, k: nat, fact: bool,
                more: bool)
    requires Prefix(env, m, e, site, n, fact, Exec(env, pre, Run(m)))
    requires k == 0 || k == 1
    requires var st := Exec(env, pre, Run(m)); st.Run? ==> Checks(env, code, st.m, site + n, more)
    requires var st := Exec(env, pre, Run(m)); k == 0 && st.Run? ==> Exec(env, code, st).Run?
    ensures Prefix(env, m, e, site, n + k, fact && more, Exec(env, pre + code, Run(m)))
  {
    hide Exec, EntryAt;
    Continue(env, pre, code, m);
  }

  /** An aligned access does not leave its page. */
  lemma AlignedFits(va: Word, bits: nat, width: nat)
    requires bits == 12 || bits == 21 || bits == 30
    requires width in {1, 2, 4, 8} && va % width == 0
    ensures va % Pow2(bits) + width <= Pow2(bits) && va % 0x1000 + width <= 0x1000
  {
    PageSizes();
    Fits(va, 0x1000, width, 0x1000 / width);
    Fits(va, 0x20_0000, width, 0x20_0000 / width);
    Fits(va, 0x4000_0000, width, 0x4000_0000 / width);
  }

  lemma Fits(va: nat, page: nat, width: nat, n: nat)
    requires width >= 1 && page == width * n && page >= 1 && va % width == 0
    ensures va % page + width <= page
  {
    var v := va / width;
    assert va == width * v;
    ModBound(v, if n == 0 then 1 else n);
    assert n >= 1;
    var q, r := v / n, v % n;
    assert va == page * q + width * r by {
      assert v == n * q + r;
      assert width * (n * q + r) == (width * n) * q + width * r;
    }
    MulMono(width, r, n - 1);
    assert width * (n - 1) == page - width;
    DivModUnique(va, page, q, width * r);
  }

  /** A passing check: lookup grants the access, and the host address is the one of the
      RAM byte lookup answers. */
  lemma HitAddress(env: Env, va: Word, e: Entry, width: nat, store: bool)
    requires EnvOk(env) && width in {1, 2, 4, 8} && e == IndexedEntry(env, va) && Passes(env, va, width, store)
    ensures LookupIn(env, va, store) == Some(e.pbase + Offset(va, e.pageBits))
    ensures Contained(env, va, e.pbase + Offset(va, e.pageBits), width)
    ensures Add(va, e.hostPtr) == env.hostRam + (e.pbase + Offset(va, e.pageBits) - env.ramBase)
  {
    hide Bits, Index, Grants, Pow2, PermPasses;
    assert ResidentOk(env, e);
    var off := Offset(va, e.pageBits);
    PermGrants(e.perm, store, env.mode, env.mxr, env.sum);
    AlignedFits(va, e.pageBits, width);
    OrDisjoint(e.pbase, off, e.pageBits);
    HostAddress(va, e, off, env.ramBase, env.hostRam);
  }

  lemma HostAddress(va: Word, e: Entry, off: nat, ramBase: Word, hostRam: Word)
    requires e.hostPtr == U64(hostRam + (e.pbase - ramBase) - e.vbase)
    requires va == e.vbase + off && ramBase <= e.pbase && hostRam + (e.pbase - ramBase) + off < M64
    ensures Add(va, e.hostPtr) == hostRam + (e.pbase + off - ramBase)
  {
  }

  /** The generated check passes for exactly these accesses, and then refines TLB::lookup. */
  lemma CheckRefinesLookup(env: Env, m: Machine, h: HReg, width: nat, store: bool, site: nat)
    requires EnvOk(env) && Pooled(h) && width in {1, 2, 4, 8}
    ensures CheckOutcome(env, m, h, width, store, site,
                         Exec(env, CheckCode(h, width, store, env.mode, env.mxr, env.sum, site), Run(m)))
  {
    hide Exec, EntryAt, EnvOk, Must, Forbidden, PageBase, Index, WellFormed, Add, LookupIn, Contained, Admitted,
         IndexedEntry;
    var va := m.regs[h];
    var e := IndexedEntry(env, va);
    var pre := IndexCode(h) + GenerationCode(site) + PageCode(h, site + 1) + AsidCode(site + 2)
               + PermCode(Must(store, env.mode, env.mxr), Forbidden(env.mode, env.sum), site + 3)
               + AlignCode(h, width, site + 4);
    PrefixRuns(env, m, h, e, width, store, site);
    var st := Exec(env, pre, Run(m));
    Continue(env, pre, HostCode(h, site + Sites(width) - 1), m);
    if st.Run? {
      HostChecks(env, st.m, h, e, site + Sites(width) - 1);
      if e.hostPtr != 0 { HitAddress(env, va, e, width, store); }
    }
  }

  /** The check does not ask whether translation is on, but the handler does: where the
      check passes, the handler reaches the same byte exactly if translation is on or the
      entry maps its page to itself. */
  lemma HandlerAgreesExactly(env: Env, va: Word, width: nat, store: bool)
    requires EnvOk(env) && width in {1, 2, 4, 8} && Passes(env, va, width, store)
    ensures LookupIn(env, va, store).Some? && env.ramBase <= LookupIn(env, va, store).value
    ensures DramOffset(env, va, AccessOf(store), width) == Some(LookupIn(env, va, store).value - env.ramBase) <==>
            !env.identity || IndexedEntry(env, va).pbase == IndexedEntry(env, va).vbase
  {
    hide EnvOk, Bits, Index, Grants, Pow2, PermPasses, Lookup, WellFormed;
    var e := IndexedEntry(env, va);
    HitAddress(env, va, e, width, store);
    assert va == e.vbase + Offset(va, e.pageBits);
  }

  /** With translation off, every live entry an access can get through maps its page to
      itself. */
  ghost predicate Coherent(env: Env)
    requires EnvOk(env)
  {
    env.identity ==>
          forall va: Word, store: bool | Passes(env, va, 1, store) ::
            IndexedEntry(env, va).pbase == IndexedEntry(env, va).vbase
  }

  /** Whatever width and address, the check leads where the handler goes exactly in the
      coherent environments. */
  lemma CoherentExactly(env: Env)
    requires EnvOk(env)
    ensures Coherent(env) <==>
            forall va: Word, width: nat, store: bool | width in {1, 2, 4, 8} && Passes(env, va, width, store) ::
                  SameByte(env, va, width, store)
  {
    hide EnvOk, Passes, IndexedEntry, DramOffset, LookupIn;
    if Coherent(env) {
      forall va: Word, width: nat, store: bool | width in {1, 2, 4, 8} && Passes(env, va, width, store)
        ensures SameByte(env, va, width, store)
      {
        PassesAnyWidth(env, va, width, store);
        HandlerAgreesExactly(env, va, width, store);
      }
    } else {
      var va: Word, store: bool :| Passes(env, va, 1, store)
          && IndexedEntry(env, va).pbase != IndexedEntry(env, va).vbase;
      HandlerAgreesExactly(env, va, 1, store);
      assert !SameByte(env, va, 1, store);
    }
  }

  /** The handler reaches the RAM byte lookup answers. */
  predicate SameByte(env: Env, va: Word, width: nat, store: bool)
    requires EnvOk(env)
  {
    var hit := LookupIn(env, va, store);
    hit.Some? && env.ramBase <= hit.value
        && DramOffset(env, va, AccessOf(store), width) == Some(hit.value - env.ramBase)
  }

  lemma PassesAnyWidth(env: Env, va: Word, width: nat, store: bool)
    requires EnvOk(env) && width >= 1 && Passes(env, va, width, store)
    ensures Passes(env, va, 1, store)
  {
    hide EnvOk, PermPasses;
  }

  lemma PrefixRuns(env: Env, m: Machine, h: HReg, e: Entry, width: nat, store: bool, site: nat)
    requires EnvOk(env) && Pooled(h) && width in {1, 2, 4, 8} && e == IndexedEntry(env, m.regs[h])
    ensures Prefix(env, m, e, site, Sites(width) - 1, Admitted(env, m.regs[h], e, width, store),
                   Exec(env, IndexCode(h) + GenerationCode(site) + PageCode(h, site + 1) + AsidCode(site + 2)
                             + PermCode(Must(store, env.mode, env.mxr), Forbidden(env.mode, env.sum), site + 3)
                             + AlignCode(h, width, site + 4), Run(m)))
  {
    hide Exec, EntryAt, PermPasses, PageBase, Index, WellFormed;
    var va := m.regs[h];
    assert e == env.tlb[Index(va)];
    assert ResidentOk(env, e);
    var m1 := IndexRuns(env, m, h);
    var p0 := IndexCode(h);
    GenerationChecks(env, m1, e, site);
    Extend1(env, m, e, p0, GenerationCode(site), site, 0, 1, true, e.generation == env.generation);
    LaterChecks(env, m, h, e, width, store, site, p0 + GenerationCode(site));
  }

  lemma LaterChecks(env: Env, m: Machine, h: HReg, e: Entry, width: nat, store: bool, site: nat, p1: seq<Op>)
    requires Pooled(h) && width in {1, 2, 4, 8} && ResidentOk(env, e)
    requires Prefix(env, m, e, site, 1, e.generation == env.generation, Exec(env, p1, Run(m)))
    ensures Prefix(env, m, e, site, Sites(width) - 1, Admitted(env, m.regs[h], e, width, store),
                   Exec(env, p1 + PageCode(h, site + 1) + AsidCode(site + 2)
                             + PermCode(Must(store, env.mode, env.mxr), Forbidden(env.mode, env.sum), site + 3)
                             + AlignCode(h, width, site + 4), Run(m)))
  {
    hide Exec, EntryAt, PermPasses, PageBase, WellFormed;
    var va := m.regs[h];
    var st1 := Exec(env, p1, Run(m));
    if st1.Run? { PageChecks(env, st1.m, h, e, site + 1); }
    var f1, f2 := e.generation == env.generation, PageBase(va, e.pageBits) == e.vbase;
    Extend1(env, m, e, p1, PageCode(h, site + 1), site, 1, 1, f1, f2);
    var p2 := p1 + PageCode(h, site + 1);
    var st2 := Exec(env, p2, Run(m));
    if st2.Run? { AsidChecks(env, st2.m, e, site + 2); }
    var f3 := e.global || e.asid == env.asid;
    Extend1(env, m, e, p2, AsidCode(site + 2), site, 2, 1, f1 && f2, f3);
    PermAndAlign(env, m, h, e, width, store, site, p2 + AsidCode(site + 2), f1 && f2 && f3);
  }

  lemma PermAndAlign(env: Env, m: Machine, h: HReg, e: Entry, width: nat, store: bool, site: nat, p3: seq<Op>,
                     fact: bool)
    requires Pooled(h) && width in {1, 2, 4, 8}
    requires Prefix(env, m, e, site, 3, fact, Exec(env, p3, Run(m)))
    ensures Prefix(env, m, e, site, Sites(width) - 1,
                   fact && PermPasses(e.perm, store, env.mode, env.mxr, env.sum) && m.regs[h] % width == 0,
                   Exec(env, p3 + PermCode(Must(store, env.mode, env.mxr), Forbidden(env.mode, env.sum), site + 3)
                             + AlignCode(h, width, site + 4), Run(m)))
  {
    hide Exec, EntryAt, Bits;
    var perm := PermCode(Must(store, env.mode, env.mxr), Forbidden(env.mode, env.sum), site + 3);
    var grants := PermPasses(e.perm, store, env.mode, env.mxr, env.sum);
    var st3 := Exec(env, p3, Run(m));
    if st3.Run? { PermRuns(env, st3.m, e, Must(store, env.mode, env.mxr), Forbidden(env.mode, env.sum), site + 3); }
    Extend1(env, m, e, p3, perm, site, 3, 1, fact, grants);
    var p4 := p3 + perm;
    var st4 := Exec(env, p4, Run(m));
    if st4.Run? {
      AlignChecks(env, st4.m, h, width, site + 4);
      if width == 1 { ExecNone(env, st4.m); }
    }
    Extend1(env, m, e, p4, AlignCode(h, width, site + 4), site, 4, Sites(width) - 5, fact
            && grants, m.regs[h] % width == 0);
  }
}
