/** A run in which a fence of one address leaves a chain hopping to code of the page that was
    mapped before (exec_SFENCE_VMA in priv.cpp, the chain key in block.cpp). */
module StaleHops {
  import opened Words
  import opened Options
  import opened TlbEntries
  import opened Guest
  import opened Decoding
  import opened Outcomes
  import opened Blocks
  import opened Chains
  import opened Fetching
  import opened WholeRuns
  import P = Paging
  import C = CodeCache
  import M = Mmus

  const OLD_LEAF: Word := 0x2000_004B
  const NEW_LEAF: Word := 0x2000_044B

  /** Page 0x1000 mapped by one leaf, for every address space. */
  function OnePage(leaf: Word): P.Tables { map[0x1000 := 2049, 0x2000 := 3073, 0x3008 := leaf] }

  /** An executable supervisor leaf: page 0x80000 or page 0x80001. */
  lemma Leaves(leaf: Word)
    requires leaf == OLD_LEAF || leaf == NEW_LEAF
    ensures P.V(leaf) && P.R(leaf) && !P.W(leaf) && P.X(leaf) && !P.U(leaf) && !P.G(leaf)
    ensures P.Ppn(leaf) == if leaf == OLD_LEAF then 0x80000 else 0x80001
  {
  }

  lemma Pointers()
    ensures P.V(2049) && !P.R(2049) && !P.W(2049) && !P.X(2049) && P.Ppn(2049) == 2
    ensures P.V(3073) && !P.R(3073) && !P.W(3073) && !P.X(3073) && P.Ppn(3073) == 3
    ensures P.Vpn(0x1000, 2) == 0 && P.Vpn(0x1000, 1) == 0 && P.Vpn(0x1000, 0) == 1 && P.Canonical(0x1000)
  {
  }

  lemma Down(mem: P.Tables, a: nat, va: Word, i: P.Level)
    ensures var addr := a + P.Vpn(va, i) * 8;
            var pte := P.Read(mem, addr);
            P.V(pte) && !P.W(pte) ==>
              P.FindLeaf(mem, a, va, i) ==
              if P.R(pte) || P.X(pte) then Some(P.Leaf(i, addr, pte))
              else if i == 0 then None else P.FindLeaf(mem, P.Ppn(pte) * 0x1000, va, i - 1)
  {
    hide P.V, P.R, P.W, P.X, P.Ppn, P.Vpn;
  }

  lemma OnePageWalks(leaf: Word, p: Policy)
    requires (leaf == OLD_LEAF || leaf == NEW_LEAF) && p.mode == Supervisor
    ensures P.MappedBy(OnePage(leaf), 1, 0x1000) == Some(P.Leaf(0, 0x3008, leaf))
    ensures FetchSpace(OnePage(leaf), 1, p)(0x1000) == Some(if leaf == OLD_LEAF then 0x8000_0000 else 0x8000_1000)
  {
    hide P.V, P.R, P.W, P.X, P.U, P.Ppn, P.Vpn, P.FindLeaf, P.Canonical;
    var mem := OnePage(leaf);
    Pointers();
    Leaves(leaf);
    Down(mem, 0x1000, 0x1000, 2);
    Down(mem, 0x2000, 0x1000, 1);
    Down(mem, 0x3000, 0x1000, 0);
  }

  /** No leaf of these tables is global: every root is the same anyway. */
  lemma OneRoot(leaf: Word)
    ensures P.SharedGlobals(OnePage(leaf), (_: Asid) => 1)
  {
    hide P.MappedBy, P.G;
  }

  /** Two pages of RAM that begin with different instructions. */
  function TwoPages(): Ram
  {
    seq(0x2000, i => if i == 0 then 0x93 else if i == 0x1000 then 0x13 else if i == 0x1001 then 1 else 0)
  }

  lemma FirstWords()
    ensures Decode(0x93) == Some(Decoded(OpI(ADD, false), 0x93))
    ensures Decode(0x113) == Some(Decoded(OpI(ADD, false), 0x113))
    ensures FetchAt(TwoPages(), 0) == Decode(0x93) && FetchAt(TwoPages(), 0x1000) == Decode(0x113)
    ensures FetchAt(TwoPages()[..0x1000], 0) == Decode(0x93)
  {
    hide Decode;
    assert Decode(0x93) == Some(Decoded(OpI(ADD, false), 0x93))
           && Decode(0x113) == Some(Decoded(OpI(ADD, false), 0x113)) by {
      DecodeExactly(0x93, OpI(ADD, false));
      DecodeExactly(0x113, OpI(ADD, false));
    }
  }

  lemma FirstFetch(space: Space, pa: nat)
    requires space(0x1000) == Some(pa) && (pa == 0x8000_0000 || pa == 0x8000_1000)
    ensures FetchPc(space, 0x8000_0000, TwoPages(), 0x1000) ==
            Some(Decoded(OpI(ADD, false), if pa == 0x8000_0000 then 0x93 else 0x113))
  {
    hide Decode, FetchAt, TwoPages;
    FirstWords();
  }

  lemma Startable(p: Policy)
    requires p.mode == Supervisor
    ensures !Unrunnable(OnePage(OLD_LEAF), 1, p, 0x8000_0000, TwoPages(), 0x1000)
  {
    hide Decode, FetchAt, FetchSpace, OnePage;
    FirstWords();
    OnePageWalks(OLD_LEAF, p);
    assert Window(0x8000_0000, TwoPages(), 0x1000, 0x8000_0000) == TwoPages()[..0x1000];
  }

  /** What a valid runner has installed under its present keys begins with what its pc holds. */
  lemma InstalledFirst(r: Runner, unit: Unit, pc: Word, p: Policy, asid: Asid)
    requires r.Valid() && Install(unit, pc, p, r.chain.key) in r.chain.log && r.chain.mode == p
    requires r.chain.key == Key(r.mmu.tlb.generation, r.j.epoch, asid)
    ensures unit.prog != []
    ensures FetchPc(FetchSpace(r.mmu.mem, r.mmu.roots(asid), p), r.j.base, r.j.ram, pc) == Some(unit.prog[0])
  {
    hide C.Sound, Stocked, Past, Standing, P.Agreement, P.SharedGlobals, P.AllHostMapped, Correct, Shown, TextOf,
         FetchPc, Bytes, SlotOk;
    var space := FetchSpace(r.mmu.mem, r.mmu.roots(asid), p);
    var text := TextOf(space, r.j.base, r.j.ram);
    StandingShown(r.chain.log, r.chain.key, p, r.mmu.mem, r.mmu.roots, r.j.Now(), r.j.ways, r.j.issued);
    WalkIsPaged(r.mmu.mem, r.mmu.roots(asid), p);
    FaithfulExactly(r.chain, space, r.j.base, r.j.ram, r.j.issued);
    assert Fits(text, pc, unit.prog);
    assert Holds1(text, Add(pc, Bytes(unit.prog[..0])), unit.prog[0]);
    assert unit.prog[..0] == [];
    NoBytes();
    NothingAdded(pc);
    HeldThere(space, r.j.base, r.j.ram, pc, unit.prog[0]);
  }

  lemma Changed(mem: P.Tables)
    requires P.SameTables(OnePage(OLD_LEAF), mem)
    ensures P.SameTables(OnePage(NEW_LEAF), mem[0x3008 := NEW_LEAF])
  {
    hide P.SameMapping;
    forall addr: nat ensures P.SameMapping(P.Read(OnePage(NEW_LEAF), addr), P.Read(mem[0x3008 := NEW_LEAF], addr)) {
      assert P.SameMapping(P.Read(OnePage(OLD_LEAF), addr), P.Read(mem, addr));
      SelfMapping(NEW_LEAF);
    }
  }

  lemma SelfMapping(pte: Word)
    ensures P.SameMapping(pte, pte)
  {
  }

  const SUPERVISOR: Policy := Policy(Supervisor, false, false)

  /** A new runner with the block at 0x1000 installed. */
  method WithBlock() returns (r: Runner, unit: Unit)
    ensures fresh(r) && fresh(r.j) && fresh(r.mmu) && fresh(r.mmu.tlb) && fresh(r.chain)
    ensures r.Valid() && r.chain.mode == SUPERVISOR && r.chain.key == Key(r.mmu.tlb.generation, r.j.epoch, 0)
    ensures Install(unit, 0x1000, SUPERVISOR, r.chain.key) in r.chain.log && r.chain.links == map[]
    ensures r.chain.cache[CacheIndex(0x1000, SUPERVISOR)] == Stamped(unit, 0x1000, r.chain.epoch, SUPERVISOR)
    ensures r.j.base == 0x8000_0000 && r.j.ram == TwoPages() && r.mmu.roots(0) == 1
    ensures P.SameTables(OnePage(OLD_LEAF), r.mmu.mem)
  {
    hide C.Sound, Stocked, Past, Standing, P.Agreement, P.SharedGlobals, P.AllHostMapped, Correct, SlotOk, Backed;
    hide TwoPages, OnePage, Unrunnable, P.SameTables, CacheIndex;
    OneRoot(OLD_LEAF);
    RamSize();
    r := new Runner(0x8000_0000, TwoPages(), OnePage(OLD_LEAF), (_: Asid) => 1, 0, 0x10_0000);
    OnePageWalks(OLD_LEAF, SUPERVISOR);
    var u := r.Dispatch(0x1000, SUPERVISOR, 0, 64);
    Startable(SUPERVISOR);
    unit := u.value;
  }

  /** A table entry changes, the address is fenced, and a block leaves for it. */
  method ChangeAndHop(r: Runner, from: Unit, entry: nat, pte: Word, pc: Word) returns (entered: Option<Unit>)
    requires r.Core() && r.chain.links == map[]
    modifies r.mmu`mem, r.mmu.tlb, r.chain`links
    ensures r.Core() && r.mmu.mem == old(r.mmu.mem)[entry := pte] && r.mmu.tlb.generation == old(r.mmu.tlb.generation)
    ensures entered.Some? <==> Passes(r.chain.cache[CacheIndex(pc, r.chain.mode)], pc, r.chain.epoch, r.chain.mode)
    ensures entered.Some? ==>
              r.chain.cache[CacheIndex(pc, r.chain.mode)] == Stamped(entered.value, pc, r.chain.epoch, r.chain.mode)
  {
    hide C.Sound, Stocked, Past, Correct, SlotOk, CacheIndex, Backed, T.WritableXorExecuted;
    r.mmu.mem := r.mmu.mem[entry := pte];
    r.mmu.tlb.FlushAddr(pc);
    entered := r.chain.Hop(from, 0, pc);
  }

  /** A block is installed, the leaf of its page is changed, and SFENCE.VMA names the address:
      generation, epoch and ASID are what they were, the next hop still enters the block, and
      the address space now holds another instruction there. */
  method HopAfterAddressFence() returns (r: Runner, unit: Unit, entered: Option<Unit>)
    ensures entered == Some(unit) && r.chain.key == Key(r.mmu.tlb.generation, r.j.epoch, 0)
    ensures r.chain.mode == SUPERVISOR && r.Core()
    ensures unit.prog != [] && unit.prog[0].inst == 0x93
    ensures var space := FetchSpace(r.mmu.mem, r.mmu.roots(0), SUPERVISOR);
            && FetchPc(space, r.j.base, r.j.ram, 0x1000) == Some(Decoded(OpI(ADD, false), 0x113))
            && !r.chain.Faithful(TextOf(space, r.j.base, r.j.ram))
  {
    hide C.Sound, Stocked, Past, Standing, P.Agreement, P.SharedGlobals, P.AllHostMapped, Correct, Shown, TextOf;
    hide FetchPc, Bytes, SlotOk, TwoPages, OnePage, P.SameTables, CacheIndex, Backed, FetchSpace;
    OnePageWalks(OLD_LEAF, SUPERVISOR);
    OnePageWalks(NEW_LEAF, SUPERVISOR);
    r, unit := WithBlock();
    InstalledFirst(r, unit, 0x1000, SUPERVISOR, 0);
    ghost var mem := r.mmu.mem;
    WalksAlike(OnePage(OLD_LEAF), mem, SUPERVISOR);
    FirstFetch(FetchSpace(mem, 1, SUPERVISOR), 0x8000_0000);
    entered := ChangeAndHop(r, unit, 0x3008, NEW_LEAF, 0x1000);
    Changed(mem);
    WalksAlike(OnePage(NEW_LEAF), r.mmu.mem, SUPERVISOR);
    FirstFetch(FetchSpace(r.mmu.mem, 1, SUPERVISOR), 0x8000_1000);
    Unfaithful(r.chain, unit, 0x1000, FetchSpace(r.mmu.mem, 1, SUPERVISOR), r.j.base, r.j.ram);
  }

  lemma RamSize()
    ensures |TwoPages()| == 0x2000
  {
  }

  lemma WalksAlike(a: P.Tables, b: P.Tables, p: Policy)
    requires P.SameTables(a, b)
    ensures FetchSpace(a, 1, p)(0x1000) == FetchSpace(b, 1, p)(0x1000)
  {
    hide P.SameTables, P.Walk;
    M.SameWalk(a, b, 1, 0x1000, EXEC, p.mode, p.mxr, p.sum);
  }

  /** An install whose first instruction is not what its pc holds. */
  lemma Unfaithful(chain: HartChain, unit: Unit, pc: Word, space: Space, base: nat, ram: Ram)
    requires Install(unit, pc, chain.mode, chain.key) in chain.log && unit.prog != []
    requires FetchPc(space, base, ram, pc) != Some(unit.prog[0])
    ensures !chain.Faithful(TextOf(space, base, ram))
  {
    hide Correct, FetchPc, Bytes, TextOf;
    var text := TextOf(space, base, ram);
    if chain.Faithful(text) {
      var i := Install(unit, pc, chain.mode, chain.key);
      assert UnitOk(i.unit) && Fits(text, i.pc, i.unit.prog);
      assert Holds1(text, Add(pc, Bytes(unit.prog[..0])), unit.prog[0]);
      assert unit.prog[..0] == [];
      NoBytes();
      NothingAdded(pc);
      HeldThere(space, base, ram, pc, unit.prog[0]);
    }
  }
}
