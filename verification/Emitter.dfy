/** The block emitter and its register allocator (emit.cpp): every method appends host
    operations to the block and updates the cache of guest registers in place. */
module Emitter {
  import opened Words
  import opened Guest
  import opened Host
  import opened Translators
  import opened AluCode
  import opened MulCode
  import opened InlineTlb
  import opened RegisterCache
  import opened Outcomes
  import opened AluEmission
  import opened MemEmission
  import opened ExitEmission

  const MAX_EXITS: nat := 6
  const SUPERBLOCK_MAX: nat := MAX_EXITS - 2
  const NONE: int := 0xFFFF_FFFF

  /** Every site belongs to an instruction before `n`, and sites of one instruction are
      interchangeable. */
  ghost predicate SitesOk(misses: seq<MissSite>, n: nat)
  {
    && (forall i | 0 <= i < |misses| :: misses[i].instr < n)
    && (forall i, j | 0 <= i < |misses| && 0 <= j < |misses| && misses[i].instr == misses[j].instr ::
          misses[i] == misses[j])
  }

  /** The register forms are asked for only when rd is not x0. */
  lemma TargetReady(a: Action, rd: Reg, vr: VRegs)
    requires ActionOk(a) && (a.AluR? || a.AluI? || a.MulR? || a.Upper? || a.PcRelative?) && rd == a.rd
    ensures rd != 0
  {
  }

  lemma CleanZero(vr: VRegs, hr: Slots)
    requires CacheOk(vr, hr)
    ensures !vr[0].dirty
  {
  }

  lemma DirtyEnd(vr: VRegs)
    ensures DirtyList(vr, 32) == []
  {
  }

  lemma MarkDirty(vr: VRegs, hr: Slots, rd: Reg)
    requires CacheOk(vr, hr) && rd != 0 && vr[rd].slot >= 0
    ensures CacheOk(Written(vr, rd), hr)
  {
  }

  lemma WidthOk(a: Action)
    requires ActionOk(a) && (a.MemLoad? || a.MemStore?)
    ensures a.width in {1, 2, 4, 8} && SmallImm(a.imm)
  {
  }

  lemma OwnedOverwritable(vr: VRegs, hr: Slots, s: nat)
    requires CacheOk(vr, hr) && s < 6 && hr[s] == OWNED
    ensures Overwritable(vr, Pool(s), -1)
  {
  }

  lemma SnapshotNow(vr: VRegs, hr: Slots)
    requires CacheOk(vr, hr)
    ensures Snapshot(vr, DirtyList(vr, 1))
  {
    DirtyListSnapshot(vr);
  }

  lemma Released(vr: VRegs, before: Slots, hr: Slots, s: nat)
    requires CacheOk(vr, hr) && s < 6 && Settled(before) && hr == before[s := OWNED]
    ensures CacheOk(vr, hr[s := FREE]) && Settled(hr[s := FREE])
  {
  }

  lemma SitesGrow(before: seq<MissSite>, after: seq<MissSite>, n: nat, idx: nat, off: nat, list: seq<Dirty>)
    requires SitesOk(before, idx) && before <= after && |after| == |before| + n
    requires Recorded(after, |before|, n, idx, off, list)
    ensures SitesOk(after, idx + 1)
  {
    forall i | 0 <= i < |after|
      ensures after[i] == if i < |before| then before[i] else MissSite(idx, off, list)
    {
    }
  }

  lemma {:induction false} CleanList(vr: VRegs, v: nat)
    requires AllClean(vr) && v <= 32
    ensures DirtyList(vr, v) == []
    decreases 32 - v
  {
    if v < 32 { CleanList(vr, v + 1); }
  }

  lemma SitesKeep(misses: seq<MissSite>, n: nat)
    requires SitesOk(misses, n)
    ensures SitesOk(misses, n + 1)
  {
  }

  lemma SitesPush(misses: seq<MissSite>, n: nat, e: MissSite)
    requires SitesOk(misses, n) && e.instr == n
    ensures SitesOk(misses + [e], n + 1)
  {
  }

  lemma TakenLength(delta: int, align: bool, site: nat, count: nat, k: nat)
    ensures |TakenCode(delta, align, site, count, k)| == if align then 8 else 6
    ensures |LeaveCode(delta, count, k)| == 6
  {
  }

  lemma CleanStays(vr: VRegs, vr': VRegs)
    requires AllClean(vr) && forall u: Reg | vr'[u].dirty :: vr[u].dirty
    ensures AllClean(vr')
  {
  }

  class BlockEmitter {
    var vr: VRegs
    var hr: Slots
    var code: seq<Op>
    var misses: seq<MissSite>
    var exits: nat
    var supers: nat
    var exited: bool
    var index: nat
    var offset: nat
    const policy: Policy

    constructor (p: Policy)
      ensures policy == p && vr == seq(32, _ => VReg(-1, false)) && hr == seq(6, _ => FREE)
      ensures code == [] && misses == [] && exits == 0 && supers == 0 && !exited
      ensures index == 0 && offset == 0
    {
      policy := p;
      vr := seq(32, _ => VReg(-1, false));
      hr := seq(6, _ => FREE);
      code, misses, exits, supers, exited, index, offset := [], [], 0, 0, false, 0, 0;
    }

    ghost predicate Ready()
      reads this
    {
      CacheOk(vr, hr) && Settled(hr)
    }

    /** More instructions may follow: one exit per superblock branch so far. */
    ghost predicate Open()
      reads this
    {
      Ready() && !exited && exits == supers <= SUPERBLOCK_MAX
    }

    /** Takes a slot: a free one, else a clean unprotected one, else a dirty unprotected
        one that is spilled first. */
    method FreeSlot(keep1: int, keep2: int) returns (s: nat)
      requires Ready()
      modifies this`vr, this`hr, this`code
      ensures s < 6 && CacheOk(vr, hr)
      ensures hr == old(hr)[s := OWNED] && vr == Evicted(old(vr), old(hr), s)
      ensures code == old(code) + SpillCode(old(vr), old(hr), s)
      ensures Holder(old(hr)[s]) ==> old(hr)[s] != keep1 && old(hr)[s] != keep2
      ensures Holder(old(hr)[s]) ==> forall t | 0 <= t < 6 :: old(hr)[t] != FREE
      ensures SpillCode(old(vr), old(hr), s) != [] ==>
                forall t | 0 <= t < 6 && old(hr)[t] != keep1 && old(hr)[t] != keep2 :: old(vr)[old(hr)[t]].dirty
    {
      for i := 0 to 6
        invariant forall t | 0 <= t < i :: hr[t] != FREE
      {
        if hr[i] == FREE {
          EvictedOk(vr, hr, i, OWNED);
          hr := hr[i := OWNED];
          return i;
        }
      }
      for i := 0 to 6
        invariant forall t | 0 <= t < i && hr[t] != keep1 && hr[t] != keep2 :: vr[hr[t]].dirty
      {
        var h := hr[i];
        if h != keep1 && h != keep2 && !vr[h].dirty {
          EvictedOk(vr, hr, i, OWNED);
          vr := vr[h := VReg(-1, false)];
          hr := hr[i := OWNED];
          return i;
        }
      }
      // Three slots hold three different registers, and only two are protected.
      assert hr[0] != hr[1] && hr[1] != hr[2] && hr[0] != hr[2];
      for i := 0 to 6
        invariant forall t | 0 <= t < i :: hr[t] == keep1 || hr[t] == keep2
      {
        var h := hr[i];
        if h != keep1 && h != keep2 {
          EvictedOk(vr, hr, i, OWNED);
          code := code + [StoreGpr(h, Pool(i))];
          vr := vr[h := VReg(-1, false)];
          hr := hr[i := OWNED];
          return i;
        }
      }
      assert false;
    }

    /** A host register holding guest register v, loaded if need be. */
    method HregForRead(v: Reg, keep: int) returns (p: HReg, ghost frag: seq<Op>)
      requires Ready()
      modifies this`vr, this`hr, this`code
      ensures Ready() && vr[v].slot >= 0 && p == Pool(vr[v].slot)
      ensures code == old(code) + frag && Keeps(old(vr), frag, vr, -1)
      ensures Holder(keep) && old(vr)[keep].slot >= 0 ==> vr[keep] == old(vr)[keep]
      ensures forall u: Reg | vr[u].dirty :: old(vr)[u].dirty
    {
      if vr[v].slot >= 0 {
        p, frag := Pool(vr[v].slot), [];
        KeepsNothing(vr);
        return;
      }
      ghost var vr0, hr0 := vr, hr;
      var s := FreeSlot(keep, NONE);
      ghost var vr1 := vr;
      SpillKeeps(vr0, hr0, s);
      PlacedOk(vr, hr, v, s);
      LoadKeeps(vr, v, s);
      hr := hr[s := v];
      vr := vr[v := VReg(s, false)];
      p := Pool(s);
      if v == 0 {
        code := code + [Arith(XOR64, p, p)];
      } else {
        code := code + [LoadGpr(p, v)];
      }
      frag := SpillCode(vr0, hr0, s) + LoadCode(v, s);
      KeepsChain(vr0, SpillCode(vr0, hr0, s), vr1, LoadCode(v, s), vr, -1);
    }

    /** A host register for a new value of v; the cached copy is meaningless when v was
        not cached before. */
    method HregForWrite(v: Reg, keep1: int, keep2: int) returns (p: HReg, ghost frag: seq<Op>)
      requires Ready()
      modifies this`vr, this`hr, this`code
      ensures Ready() && vr[v].slot >= 0 && p == Pool(vr[v].slot)
      ensures code == old(code) + frag
      ensures Keeps(old(vr), frag, vr, if old(vr)[v].slot >= 0 then -1 else v)
      ensures old(vr)[v].slot >= 0 ==> vr == old(vr)
      ensures Holder(keep1) && old(vr)[keep1].slot >= 0 ==> vr[keep1] == old(vr)[keep1]
      ensures Holder(keep2) && old(vr)[keep2].slot >= 0 ==> vr[keep2] == old(vr)[keep2]
      ensures forall u: Reg | vr[u].dirty :: old(vr)[u].dirty
    {
      if vr[v].slot >= 0 {
        p, frag := Pool(vr[v].slot), [];
        KeepsNothing(vr);
        return;
      }
      ghost var vr0, hr0 := vr, hr;
      var s := FreeSlot(keep1, keep2);
      ghost var vr1 := vr;
      SpillKeeps(vr0, hr0, s);
      PlacedOk(vr, hr, v, s);
      ReserveKeeps(vr, v, s);
      hr := hr[s := v];
      vr := vr[v := VReg(s, false)];
      p := Pool(s);
      frag := SpillCode(vr0, hr0, s);
      KeepsChain(vr0, frag, vr1, [], vr, v);
      assert frag + [] == frag;
    }

    method FlushGuest(v: Reg) returns (ghost frag: seq<Op>)
      requires Ready()
      modifies this`vr, this`code
      ensures Ready() && vr == Cleaned(old(vr), v) && frag == FlushCode(old(vr), v)
      ensures code == old(code) + frag && Keeps(old(vr), frag, vr, -1)
    {
      FlushKeeps(vr, hr, v);
      frag := FlushCode(vr, v);
      if vr[v].slot >= 0 && vr[v].dirty {
        code := code + [StoreGpr(v, Pool(vr[v].slot))];
        vr := vr[v := VReg(vr[v].slot, false)];
      }
      assert vr == Cleaned(old(vr), v);
    }

    /** Writes every dirty register back; slots stay cached. */
    method FlushAll() returns (ghost frag: seq<Op>)
      requires Ready()
      modifies this`vr, this`code
      ensures Ready() && AllClean(vr) && forall v: Reg :: vr[v].slot == old(vr)[v].slot
      ensures code == old(code) + frag && Keeps(old(vr), frag, vr, -1)
      ensures AllClean(old(vr)) ==> frag == [] && vr == old(vr)
    {
      frag := [];
      KeepsNothing(vr);
      for v := 1 to 32
        invariant Ready() && forall u: Reg :: vr[u].slot == old(vr)[u].slot
        invariant forall u: Reg | u < v :: !vr[u].dirty
        invariant code == old(code) + frag && Keeps(old(vr), frag, vr, -1)
        invariant AllClean(old(vr)) ==> frag == [] && vr == old(vr)
      {
        ghost var vr1 := vr;
        ghost var f := FlushGuest(v);
        KeepsChain(old(vr), frag, vr1, f, vr, -1);
        assert AllClean(old(vr)) ==> f == [] && vr == vr1;
        frag := frag + f;
      }
    }

    // Register forms ---------------------------------------------------------------

    /** rd := rs1 op rs2, for every aliasing of the three. */
    method EmitR(a: Action, size: nat) returns (ghost frag: seq<Op>)
      requires Ready() && a.AluR? && ActionOk(a)
      modifies this`vr, this`hr, this`code
      ensures Ready() && code == old(code) + frag
      ensures Implements(policy, old(vr), frag, vr, misses, exits, a, size, index, offset)
    {
      hide Keeps, Implements, RFull, CacheOk, ActionOk;
      var s1: HReg, s2: HReg := Pool(0), Pool(0);
      ghost var f1: seq<Op>, f2: seq<Op> := [], [];
      KeepsNothing(vr);
      if a.rs1 != 0 {
        s1, f1 := HregForRead(a.rs1, NONE);
      }
      ghost var vr1 := vr;
      KeepsNothing(vr1);
      if a.rs2 != 0 {
        if a.rs2 == a.rs1 {
          s2 := s1;
        } else {
          s2, f2 := HregForRead(a.rs2, a.rs1);
        }
      }
      ghost var vr2 := vr;
      var d, f3 := HregForWrite(a.rd, a.rs1, a.rs2);
      ghost var skip := if vr2[a.rd].slot >= 0 then -1 else a.rd;
      KeepsChain(old(vr), f1, vr1, f2, vr2, -1);
      KeepsChain(old(vr), f1 + f2, vr2, f3, vr, skip);
      ghost var alloc := f1 + f2 + f3;
      var alu := RFull(a.op, a.word, a.rs1 != 0, a.rs2 != 0, d, s1, s2);
      TargetReady(a, a.rd, vr);
      RImplements(policy, old(vr), alloc, vr, hr, skip, misses, exits, a, d, s1, s2, size, index, offset);
      frag := alloc + alu;
      MarkDirty(vr, hr, a.rd);
      code := code + alu;
      vr := Written(vr, a.rd);
    }

    /** rd := rs1 op imm. */
    method EmitI(a: Action, size: nat) returns (ghost frag: seq<Op>)
      requires Ready() && a.AluI? && ActionOk(a)
      modifies this`vr, this`hr, this`code
      ensures Ready() && code == old(code) + frag
      ensures Implements(policy, old(vr), frag, vr, misses, exits, a, size, index, offset)
    {
      hide Keeps, Implements, IFull, CacheOk, ActionOk;
      var s1: HReg := Pool(0);
      ghost var f1: seq<Op> := [];
      KeepsNothing(vr);
      if a.rs1 != 0 {
        s1, f1 := HregForRead(a.rs1, NONE);
      }
      ghost var vr1 := vr;
      var d, f2 := HregForWrite(a.rd, a.rs1, NONE);
      ghost var skip := if vr1[a.rd].slot >= 0 then -1 else a.rd;
      KeepsChain(old(vr), f1, vr1, f2, vr, skip);
      ghost var alloc := f1 + f2;
      var alu := IFull(a.op, a.word, a.rs1 != 0, d, s1, a.imm);
      TargetReady(a, a.rd, vr);
      IImplements(policy, old(vr), alloc, vr, hr, skip, misses, exits, a, d, s1, size, index, offset);
      frag := alloc + alu;
      MarkDirty(vr, hr, a.rd);
      code := code + alu;
      vr := Written(vr, a.rd);
    }

    /** LUI and AUIPC; the latter is resolved against the entry pc at run time. */
    method EmitU(a: Action, size: nat) returns (ghost frag: seq<Op>)
      requires Ready() && (a.Upper? || a.PcRelative?) && ActionOk(a) && offset < 0x1000
      modifies this`vr, this`hr, this`code
      ensures Ready() && code == old(code) + frag
      ensures Implements(policy, old(vr), frag, vr, misses, exits, a, size, index, offset)
    {
      hide Keeps, Implements, UCode, CacheOk, ActionOk;
      var d, alloc := HregForWrite(a.rd, NONE, NONE);
      ghost var skip := if old(vr)[a.rd].slot >= 0 then -1 else a.rd;
      var alu := UCode(a, d, offset);
      TargetReady(a, a.rd, vr);
      UImplements(policy, old(vr), alloc, vr, hr, skip, misses, exits, a, d, size, index, offset);
      frag := alloc + alu;
      MarkDirty(vr, hr, a.rd);
      code := code + alu;
      vr := Written(vr, a.rd);
    }

    /** The multiply and divide family. */
    method EmitM(a: Action, size: nat) returns (ghost frag: seq<Op>)
      requires Ready() && a.MulR? && ActionOk(a)
      modifies this`vr, this`hr, this`code
      ensures Ready() && code == old(code) + frag
      ensures Implements(policy, old(vr), frag, vr, misses, exits, a, size, index, offset)
    {
      hide Keeps, Implements, MFull, CacheOk, ActionOk, IsRem, IsMul;
      var s1: HReg, s2: HReg := Pool(0), Pool(0);
      ghost var f1: seq<Op>, f2: seq<Op> := [], [];
      KeepsNothing(vr);
      if ReadsFirst(a) {
        s1, f1 := HregForRead(a.rs1, NONE);
      }
      ghost var vr1 := vr;
      KeepsNothing(vr1);
      if ReadsSecond(a) {
        if a.rs2 == a.rs1 {
          s2 := s1;
        } else {
          s2, f2 := HregForRead(a.rs2, a.rs1);
        }
      }
      ghost var vr2 := vr;
      var d, f3 := HregForWrite(a.rd, a.rs1, if ReadsSecond(a) then a.rs2 else NONE);
      ghost var skip := if vr2[a.rd].slot >= 0 then -1 else a.rd;
      KeepsChain(old(vr), f1, vr1, f2, vr2, -1);
      KeepsChain(old(vr), f1 + f2, vr2, f3, vr, skip);
      ghost var alloc := f1 + f2 + f3;
      var alu := MFull(a, d, s1, s2);
      TargetReady(a, a.rd, vr);
      MImplements(policy, old(vr), alloc, vr, hr, skip, misses, exits, a, d, s1, s2, size, index, offset);
      frag := alloc + alu;
      MarkDirty(vr, hr, a.rd);
      code := code + alu;
      vr := Written(vr, a.rd);
    }

    // Loads and stores ---------------------------------------------------------------

    /** The dirty registers; a seventh would have no slot to live in. */
    method SnapshotDirty() returns (list: seq<Dirty>)
      requires CacheOk(vr, hr)
      ensures list == DirtyList(vr, 1) && Snapshot(vr, list)
    {
      hide DirtyList, CacheOk, Snapshot;
      list := [];
      var v := 1;
      while v < 32 && |list| < 6
        invariant 1 <= v <= 32 && |list| <= 6
        invariant list + DirtyList(vr, v) == DirtyList(vr, 1)
        invariant forall i | 0 <= i < |list| :: list[i].v < v && vr[list[i].v].slot == list[i].slot >= 0
        invariant forall i, j | 0 <= i < j < |list| :: list[i].v < list[j].v
      {
        DirtyStep(vr, hr, v);
        if vr[v].dirty && vr[v].slot >= 0 {
          list := list + [Dirty(v, vr[v].slot)];
        }
        v := v + 1;
      }
      if |list| == 6 { SixIsAll(vr, hr, list, v); } else { DirtyEnd(vr); }
      CleanZero(vr, hr);
      DirtyListSnapshot(vr);
    }

    method PushMiss()
      requires CacheOk(vr, hr)
      modifies this`misses
      ensures misses == old(misses) + [MissSite(index, offset, DirtyList(vr, 1))]
    {
      var list := SnapshotDirty();
      misses := misses + [MissSite(index, offset, list)];
    }

    /** The inline TLB check on the address in h, every failing test with its own site. */
    method EmitTlbChecks(h: HReg, width: nat, store: bool)
      requires CacheOk(vr, hr)
      modifies this`code, this`misses
      ensures code == old(code) + CheckCode(h, width, store, policy.mode, policy.mxr, policy.sum, |old(misses)|)
      ensures |misses| == |old(misses)| + Sites(width) && old(misses) <= misses
      ensures Recorded(misses, |old(misses)|, Sites(width), index, offset, DirtyList(vr, 1))
    {
      hide CheckCode, DirtyList, CacheOk;
      code := code + CheckCode(h, width, store, policy.mode, policy.mxr, policy.sum, |misses|);
      var n := Sites(width);
      for i := 0 to n
        invariant |misses| == |old(misses)| + i && old(misses) <= misses
        invariant code == old(code) + CheckCode(h, width, store, policy.mode, policy.mxr, policy.sum, |old(misses)|)
        invariant Recorded(misses, |old(misses)|, i, index, offset, DirtyList(vr, 1))
      {
        PushMiss();
      }
    }

    /** A load into x0 keeps its fault semantics: translate and check, then discard. */
    method EmitProbe(a: Action, size: nat) returns (ghost frag: seq<Op>)
      requires Ready() && a.MemLoad? && a.rd == 0 && ActionOk(a) && SitesOk(misses, index)
      modifies this`vr, this`hr, this`code, this`misses
      ensures Ready() && code == old(code) + frag && old(misses) <= misses && SitesOk(misses, index + 1)
      ensures Implements(policy, old(vr), frag, vr, misses, exits, a, size, index, offset)
    {
      hide Keeps, Implements, CheckCode, CacheOk, ActionOk, Snapshot, DirtyList, Overwritable, Recorded, Settled,
           SitesOk;
      var s1, f1 := HregForRead(a.rs1, NONE);
      ghost var vr1, hr1 := vr, hr;
      ghost var site := |misses|;
      var slot := FreeSlot(a.rs1, NONE);
      var h := Pool(slot);
      SpillKeeps(vr1, hr1, slot);
      KeepsChain(old(vr), f1, vr1, SpillCode(vr1, hr1, slot), vr, -1);
      ghost var alloc := f1 + SpillCode(vr1, hr1, slot);
      OwnedOverwritable(vr, hr, slot);
      SnapshotNow(vr, hr);
      code := code + [Lea(h, s1, Int32(a.imm))];
      WidthOk(a);
      EmitTlbChecks(h, a.width, false);
      ProbeImplements(policy, old(vr), alloc, vr, hr, misses, exits, DirtyList(vr, 1), a, h, s1, site, size, index,
                      offset);
      frag := alloc + LoadFull(a, h, s1, policy, site);
      assert AccessCode(h, s1, a.imm, a.width, false, policy, site) + [] ==
             AccessCode(h, s1, a.imm, a.width, false, policy, site);
      SitesGrow(old(misses), misses, Sites(a.width), index, offset, DirtyList(vr, 1));
      Released(vr, hr1, hr, slot);
      hr := hr[slot := FREE];
    }

    method EmitLoad(a: Action, size: nat) returns (ghost frag: seq<Op>)
      requires Ready() && a.MemLoad? && ActionOk(a) && SitesOk(misses, index)
      modifies this`vr, this`hr, this`code, this`misses
      ensures Ready() && code == old(code) + frag && old(misses) <= misses && SitesOk(misses, index + 1)
      ensures Implements(policy, old(vr), frag, vr, misses, exits, a, size, index, offset)
    {
      hide Keeps, Implements, CheckCode, CacheOk, ActionOk, Snapshot, DirtyList, Overwritable, Recorded, Settled,
           SitesOk;
      if a.rd == 0 {
        frag := EmitProbe(a, size);
        return;
      }
      var s1, f1 := HregForRead(a.rs1, NONE);
      ghost var vr1 := vr;
      ghost var site := |misses|;
      ghost var f2 := FlushGuest(a.rd);
      ghost var vr2 := vr;
      var d, f3 := HregForWrite(a.rd, a.rs1, NONE);
      ghost var skip := if vr2[a.rd].slot >= 0 then -1 else a.rd;
      KeepsChain(old(vr), f1, vr1, f2, vr2, -1);
      KeepsChain(old(vr), f1 + f2, vr2, f3, vr, skip);
      ghost var alloc := f1 + f2 + f3;
      SnapshotNow(vr, hr);
      WidthOk(a);
      code := code + [Lea(d, s1, Int32(a.imm))];
      EmitTlbChecks(d, a.width, false);
      code := code + [LoadRam(d, d, a.width, a.signed)];
      LoadImplements(policy, old(vr), alloc, vr, hr, skip, misses, exits, DirtyList(vr, 1), a, d, s1, site, size,
                     index, offset);
      frag := alloc + LoadFull(a, d, s1, policy, site);
      SitesGrow(old(misses), misses, Sites(a.width), index, offset, DirtyList(vr, 1));
      MarkDirty(vr, hr, a.rd);
      vr := Written(vr, a.rd);
    }

    method EmitStore(a: Action, size: nat) returns (ghost frag: seq<Op>)
      requires Ready() && a.MemStore? && ActionOk(a) && SitesOk(misses, index)
      modifies this`vr, this`hr, this`code, this`misses
      ensures Ready() && code == old(code) + frag && old(misses) <= misses && SitesOk(misses, index + 1)
      ensures Implements(policy, old(vr), frag, vr, misses, exits, a, size, index, offset)
    {
      hide Keeps, Implements, CheckCode, CacheOk, ActionOk, Snapshot, DirtyList, Overwritable, Recorded, Settled,
           SitesOk;
      var v, f1 := HregForRead(a.rs2, NONE);
      ghost var vr1 := vr;
      var s1, f2 := HregForRead(a.rs1, a.rs2);
      ghost var vr2, hr2 := vr, hr;
      var slot := FreeSlot(a.rs1, a.rs2);
      var h := Pool(slot);
      SpillKeeps(vr2, hr2, slot);
      KeepsChain(old(vr), f1, vr1, f2, vr2, -1);
      KeepsChain(old(vr), f1 + f2, vr2, SpillCode(vr2, hr2, slot), vr, -1);
      ghost var alloc := f1 + f2 + SpillCode(vr2, hr2, slot);
      OwnedOverwritable(vr, hr, slot);
      SnapshotNow(vr, hr);
      ghost var site := |misses|;
      WidthOk(a);
      code := code + [Lea(h, s1, Int32(a.imm))];
      EmitTlbChecks(h, a.width, true);
      code := code + [StoreRam(h, v, a.width)];
      StoreImplements(policy, old(vr), alloc, vr, hr, misses, exits, DirtyList(vr, 1), a, h, s1, v, site, size, index,
                      offset);
      frag := alloc + StoreFull(a, h, s1, v, policy, site);
      SitesGrow(old(misses), misses, Sites(a.width), index, offset, DirtyList(vr, 1));
      Released(vr, hr2, hr, slot);
      hr := hr[slot := FREE];
    }

    // Exits ------------------------------------------------------------------------------

    /** A self-contained block exit through the next exit link. */
    method EmitChainTail(count: nat)
      requires exits < MAX_EXITS
      modifies this`code, this`exits
      ensures code == old(code) + TailCode(count, old(exits)) && exits == old(exits) + 1
    {
      code := code + [SetExit(RAX), SetEntry(RAX), SubBudget(count), Tail(exits)];
      exits := exits + 1;
    }

    /** Leave at entry + delta. */
    method EmitBlockExit(delta: int, count: nat) returns (ghost flush: seq<Op>)
      requires Ready() && exits < MAX_EXITS
      modifies this`vr, this`code, this`exits
      ensures Ready() && AllClean(vr) && exits == old(exits) + 1 && Keeps(old(vr), flush, vr, -1)
      ensures code == old(code) + flush + LeaveCode(delta, count, old(exits))
      ensures AllClean(old(vr)) ==> flush == [] && vr == old(vr)
    {
      hide Keeps, CacheOk, AllClean;
      flush := FlushAll();
      code := code + [LoadOp(RAX, CtxEntry), ArithImm(ADD64, RAX, Int32(delta))];
      EmitChainTail(count);
      assert code == old(code) + flush + LeaveCode(delta, count, old(exits));
    }

    /** Leave at the pc in RAX. */
    method EmitBlockExitRax(count: nat) returns (ghost flush: seq<Op>)
      requires Ready() && exits < MAX_EXITS
      modifies this`vr, this`code, this`exits
      ensures Ready() && AllClean(vr) && exits == old(exits) + 1 && Keeps(old(vr), flush, vr, -1)
      ensures code == old(code) + flush + TailCode(count, old(exits))
      ensures AllClean(old(vr)) ==> flush == [] && vr == old(vr)
    {
      hide Keeps, CacheOk, AllClean;
      flush := FlushAll();
      EmitChainTail(count);
    }

    /** The misalignment test of a branch or jump target in RAX. */
    method EmitAlignCheck(align: bool)
      requires CacheOk(vr, hr) && AllClean(vr) && SitesOk(misses, index)
      modifies this`code, this`misses
      ensures code == old(code) + EvenCode(align, |old(misses)|)
      ensures misses == old(misses) + if align then [MissSite(index, offset, [])] else []
      ensures SitesOk(misses, index + 1)
    {
      hide CacheOk, AllClean, SitesOk, DirtyList;
      SitesKeep(misses, index);
      if align {
        code := code + [TestImm(RAX, 1), MissIf(NE, |misses|)];
        CleanList(vr, 1);
        SitesPush(misses, index, MissSite(index, offset, []));
        PushMiss();
      }
    }

    /** Loads a branch's operands and writes everything back. */
    method EmitCompare(a: Action) returns (s1: HReg, s2: HReg, ghost alloc: seq<Op>)
      requires Ready() && (a.CondExit? || a.CondExitZero?)
      modifies this`vr, this`hr, this`code
      ensures Ready() && AllClean(vr) && Keeps(old(vr), alloc, vr, -1) && OperandsLoaded(vr, a, s1, s2)
      ensures code == old(code) + alloc + [CompareOp(a, s1, s2)]
    {
      hide Keeps, CacheOk, AllClean;
      ghost var f1: seq<Op>, f2: seq<Op> := [], [];
      if a.CondExit? {
        s1, f1 := HregForRead(a.rs1, NONE);
        ghost var vr1 := vr;
        KeepsNothing(vr1);
        if a.rs2 == a.rs1 {
          s2 := s1;
        } else {
          s2, f2 := HregForRead(a.rs2, a.rs1);
        }
        KeepsChain(old(vr), f1, vr1, f2, vr, -1);
        f1 := f1 + f2;
      } else {
        s1, f1 := HregForRead(a.rs, NONE);
        s2 := s1;
      }
      ghost var vr2 := vr;
      ghost var f3 := FlushAll();
      KeepsChain(old(vr), f1, vr2, f3, vr, -1);
      alloc := f1 + f3;
      code := code + [if a.CondExit? then Arith(CMP64, s1, s2) else Test(s1, s1)];
      assert code == old(code) + alloc + [CompareOp(a, s1, s2)];
    }

    /** The taken side leaves; the fall-through jumps over the tail and goes on. */
    method SuperCondExit(a: Action) returns (ghost frag: seq<Op>)
      requires CacheOk(vr, hr) && AllClean(vr) && (a.CondExit? || a.CondExitZero?) && SitesOk(misses, index)
      requires exits < MAX_EXITS
      modifies this`code, this`misses, this`exits, this`supers
      ensures exits == old(exits) + 1 && supers == old(supers) + 1 && code == old(code) + frag
      ensures misses == old(misses) + (if a.CondExit? && a.align then [MissSite(index, offset, [])] else [])
      ensures SitesOk(misses, index + 1)
      ensures var taken := TakenCode(offset + a.imm, a.CondExit? && a.align, |old(misses)|, index + 1, old(exits));
              frag == [SkipIf(Invert(a.cond), |taken|)] + taken
    {
      hide CacheOk, AllClean, SitesOk, TailCode, EvenCode;
      var align := a.CondExit? && a.align;
      ghost var taken := TakenCode(offset + a.imm, align, |misses|, index + 1, exits);
      TakenLength(offset + a.imm, align, |misses|, index + 1, exits);
      code := code + [SkipIf(Invert(a.cond), if align then 8 else 6)];
      code := code + [LoadOp(RAX, CtxEntry), ArithImm(ADD64, RAX, Int32(offset + a.imm))];
      EmitAlignCheck(align);
      EmitChainTail(index + 1);
      supers := supers + 1;
      frag := [SkipIf(Invert(a.cond), |taken|)] + taken;
      assert code == old(code) + frag;
    }

    /** Both sides of a branch leave the block. */
    method FinishCondExit(a: Action, size: nat) returns (ghost frag: seq<Op>)
      requires Ready() && AllClean(vr) && (a.CondExit? || a.CondExitZero?) && SitesOk(misses, index)
      requires exits + 2 <= MAX_EXITS
      modifies this`vr, this`code, this`misses, this`exits
      ensures Ready() && AllClean(vr) && vr == old(vr) && exits == old(exits) + 2 && code == old(code) + frag
      ensures misses == old(misses) + (if a.CondExit? && a.align then [MissSite(index, offset, [])] else [])
      ensures SitesOk(misses, index + 1)
      ensures frag == ([SkipIf(a.cond, |LeaveCode(offset + size, index + 1, old(exits))|)]
                       + LeaveCode(offset + size, index + 1, old(exits)))
                      + TakenCode(offset + a.imm, a.CondExit? && a.align, |old(misses)|, index + 1, old(exits) + 1)
    {
      hide Keeps, CacheOk, AllClean, SitesOk, TailCode, EvenCode, Settled;
      ghost var k := exits;
      TakenLength(offset + size, false, 0, index + 1, k);
      code := code + [SkipIf(a.cond, 6)];
      ghost var flush := EmitBlockExit(offset + size, index + 1);
      code := code + [LoadOp(RAX, CtxEntry), ArithImm(ADD64, RAX, Int32(offset + a.imm))];
      EmitAlignCheck(a.CondExit? && a.align);
      flush := EmitBlockExitRax(index + 1);
      frag := ([SkipIf(a.cond, 6)] + LeaveCode(offset + size, index + 1, k))
              + TakenCode(offset + a.imm, a.CondExit? && a.align, |old(misses)|, index + 1, k + 1);
      assert code == old(code) + frag;
    }

    /** A conditional exit.  While fewer than SUPERBLOCK_MAX branches are inline and the
        buffer is not full, the fall-through stays inline. */
    method EmitCondExit(a: Action, size: nat, full: bool) returns (inline: bool, ghost frag: seq<Op>)
      requires Open() && (a.CondExit? || a.CondExitZero?) && ActionOk(a) && SitesOk(misses, index)
      requires offset < 0x1000 && size <= 4
      modifies this`vr, this`hr, this`code, this`misses, this`exits, this`supers, this`exited
      ensures code == old(code) + frag && old(misses) <= misses && SitesOk(misses, index + 1)
      ensures if inline then Open() else Ready() && exited && exits <= MAX_EXITS
      ensures old(exits) <= exits
      ensures Implements(policy, old(vr), frag, vr, misses, exits, a, size, index, offset)
      ensures !inline ==> Closes(policy, old(vr), frag, offset)
    {
      hide Keeps, CacheOk, AllClean, Implements, Closes, SitesOk, ActionOk, OperandsLoaded, Settled, CompareOp,
           TakenCode, LeaveCode;
      var align := a.CondExit? && a.align;
      ghost var site, k := |misses|, exits;
      var s1, s2, alloc := EmitCompare(a);
      if supers < SUPERBLOCK_MAX && !full {
        frag := SuperCondExit(a);
        SuperImplements(policy, old(vr), alloc, vr, misses, exits, a, s1, s2, site, k, size, index, offset);
        ghost var super := SuperCode(CompareOp(a, s1, s2), a.cond,
                                     TakenCode(offset + a.imm, align, site, index + 1, k));
        assert alloc + super == alloc + [CompareOp(a, s1, s2)] + frag;
        frag := alloc + super;
        return true, frag;
      }
      inline := false;
      frag := FinishCondExit(a, size);
      FinalImplements(policy, old(vr), alloc, vr, misses, exits, a, s1, s2, site, k, size, index, offset);
      ghost var final := FinalCode(CompareOp(a, s1, s2), a.cond, LeaveCode(offset + size, index + 1, k),
                                   TakenCode(offset + a.imm, align, site, index + 1, k + 1));
      assert alloc + final == alloc + [CompareOp(a, s1, s2)] + frag;
      frag := alloc + final;
      exited := true;
    }

    /** Writes everything back and computes the jump target in RAX. */
    method EmitTarget(a: Action) returns (s1: HReg, ghost alloc: seq<Op>)
      requires Ready() && a.Jump?
      modifies this`vr, this`hr, this`code
      ensures Ready() && AllClean(vr) && Keeps(old(vr), alloc, vr, -1)
      ensures a.fromRs1 ==> Loaded(vr, a.rs1, s1, -1)
      ensures code == old(code) + alloc + JumpTarget(a, s1, offset)
    {
      hide Keeps, CacheOk, AllClean, Settled;
      alloc := FlushAll();
      s1 := Pool(0);
      if a.fromRs1 {
        ghost var vr1 := vr;
        ghost var f2;
        s1, f2 := HregForRead(a.rs1, NONE);
        KeepsChain(old(vr), alloc, vr1, f2, vr, -1);
        CleanStays(vr1, vr);
        alloc := alloc + f2;
        code := code + [Mov(RAX, s1)];
        if a.imm != 0 {
          code := code + [ArithImm(ADD64, RAX, Int32(a.imm))];
        }
        code := code + [ArithImm(AND64, RAX, -2)];
      } else {
        code := code + [LoadOp(RAX, CtxEntry), ArithImm(ADD64, RAX, Int32(offset + a.imm))];
      }
      assert code == old(code) + alloc + JumpTarget(a, s1, offset);
    }

    /** JAL, JALR and their compressed forms. */
    method EmitJump(a: Action, size: nat) returns (ghost frag: seq<Op>)
      requires Open() && a.Jump? && ActionOk(a) && SitesOk(misses, index) && offset < 0x1000 && size <= 4
      modifies this`vr, this`hr, this`code, this`misses, this`exits, this`exited
      ensures code == old(code) + frag && old(misses) <= misses && SitesOk(misses, index + 1)
      ensures Ready() && exited && old(exits) <= exits <= MAX_EXITS
      ensures Implements(policy, old(vr), frag, vr, misses, exits, a, size, index, offset)
      ensures Closes(policy, old(vr), frag, offset)
    {
      hide Keeps, CacheOk, AllClean, Implements, Closes, SitesOk, ActionOk, Settled, EvenCode, TailCode, JumpTarget,
           LinkFull, LinkAlloc, Loaded;
      ghost var site, k := |misses|, exits;
      var s1, alloc := EmitTarget(a);
      EmitAlignCheck(a.align);
      ghost var vr1 := vr;
      var d, f3, vr3, hr3, f4, skip := EmitLink(a, size);
      JumpImplements(policy, old(vr), alloc, a, vr1, hr3, s1, f3, vr3, f4, vr, d, skip, misses, exits, site, k, size,
                     index, offset);
      frag := alloc + JumpCode(a, s1, offset, size, site, f3, d, f4, index + 1, k);
      assert code == old(code) + frag;
      exited := true;
    }

    /** The link register, if any, then the exit that commits it. */
    method EmitLink(a: Action, size: nat)
      returns (d: HReg, ghost f3: seq<Op>, ghost vr3: VRegs, ghost hr3: Slots, ghost f4: seq<Op>, ghost skip: int)
      requires Ready() && a.Jump? && AllClean(vr) && exits < MAX_EXITS
      modifies this`vr, this`hr, this`code, this`exits
      ensures Ready() && exits == old(exits) + 1
      ensures LinkAlloc(old(vr), hr3, f3, vr3, f4, vr, a.link, d, skip)
      ensures code == old(code) + (LinkFull(a.link, f3, d, offset + size, f4) + TailCode(index + 1, old(exits)))
    {
      hide Keeps, CacheOk, AllClean, TailCode, Settled;
      d, f3, vr3, hr3, skip := Pool(0), [], vr, hr, -1;
      if a.link != 0 {
        d, f3 := HregForWrite(a.link, a.rs1, NONE);
        skip := if old(vr)[a.link].slot >= 0 then -1 else a.link;
        vr3, hr3 := vr, hr;
        code := code + [LoadOp(d, CtxEntry), ArithImm(ADD64, d, Int32(offset + size))];
        MarkDirty(vr, hr, a.link);
        vr := Written(vr, a.link);
      }
      f4 := EmitBlockExitRax(index + 1);
      assert code == old(code) + (LinkFull(a.link, f3, d, offset + size, f4) + TailCode(index + 1, old(exits)));
    }

    // One instruction ------------------------------------------------------------------------

    /** The emitter call of one translator.  Returns whether the block may go on. */
    method EmitAction(a: Action, size: nat, full: bool) returns (keep: bool, ghost frag: seq<Op>)
      requires Open() && ActionOk(a) && SitesOk(misses, index) && offset < 0x1000 && size <= 4
      modifies this`vr, this`hr, this`code, this`misses, this`exits, this`supers, this`exited
      ensures code == old(code) + frag && old(misses) <= misses && SitesOk(misses, index + 1)
      ensures old(exits) <= exits
      ensures if exited then !keep && Ready() && exits <= MAX_EXITS && Closes(policy, old(vr), frag, offset) else Open()
      ensures Implements(policy, old(vr), frag, vr, misses, exits, a, size, index, offset)
    {
      hide Keeps, CacheOk, Implements, Closes, SitesOk, ActionOk, Settled;
      SitesKeep(misses, index);
      keep := !full;
      match a
      case Nothing =>
        frag := [];
        NothingImplements(policy, vr, misses, exits, size, index, offset);
      case AluR(_, _, _, _, _) => frag := EmitR(a, size);
      case AluI(_, _, _, _, _) => frag := EmitI(a, size);
      case MulR(_, _, _, _, _) => frag := EmitM(a, size);
      case Upper(_, _) => frag := EmitU(a, size);
      case PcRelative(_, _) => frag := EmitU(a, size);
      case MemLoad(_, _, _, _, _) => frag := EmitLoad(a, size);
      case MemStore(_, _, _, _) => frag := EmitStore(a, size);
      case CondExit(_, _, _, _, _) => keep, frag := EmitCondExit(a, size, full);
      case CondExitZero(_, _, _) => keep, frag := EmitCondExit(a, size, full);
      case Jump(_, _, _, _, _) =>
        frag := EmitJump(a, size);
        keep := false;
    }
  }
}
