/** MMU::translate in Sv39 mode: the TLB in front of the walk (mmu.inl). */
module Mmus {
  import opened Words
  import opened Options
  import opened TlbEntries
  import opened PageMarks
  import opened Tlbs
  import opened Paging

  /** A hart's memory operations, the flushes SFENCE.VMA and compiling cause, and stores
      that find a stale mark and drop it. */
  datatype Event =
    | Access(access: Access, va: Word, asid: Asid, mode: Privilege, mxr: bool, sum: bool)
    | Fence(fva: Option<Word>, fasid: Option<Asid>)
    | Executing(page: nat)
    | Clearing(page: nat)

  /** What a hart without a TLB would answer: a fresh walk for every access. */
  function Walks(mem: Tables, roots: Asid -> nat, events: seq<Event>): seq<Option<nat>>
  {
    if events == [] then []
    else
      Walks(mem, roots, events[..|events| - 1]) +
      match events[|events| - 1]
      case Access(access, va, asid, mode, mxr, sum) => [Walk(mem, roots(asid), va, access, mode, mxr, sum)]
      case _ => []
  }

  /** The access is not served by a 1 GiB leaf. */
  predicate Small(mem: Tables, roots: Asid -> nat, e: Event)
  {
    e.Access? ==> var l := MappedBy(mem, roots(e.asid), e.va); l.Some? ==> l.value.level != 2
  }

  /** Through no address, address space or mode does a store hit reach a marked page. */
  ghost predicate NoMarkedStore(entries: seq<Entry>, generation: Word, executed: seq<bool>)
    requires |entries| == SIZE
  {
    forall va: Word, asid: Asid, mode: Privilege, mxr: bool, sum: bool ::
      var r := Lookup(entries, generation, va, STORE, asid, mode, mxr, sum);
          r.Some? ==> !Executed(executed, r.value / 0x1000)
  }

  class Mmu {
    const tlb: Tlb
    const roots: Asid -> nat
    const ram: RamMap
    var mem: Tables
    var executed: seq<bool>

    constructor (tables: Tables, rootOf: Asid -> nat, ramMap: RamMap)
      requires SharedGlobals(tables, rootOf)
      ensures Valid() && fresh(tlb) && mem == tables && roots == rootOf && executed == [] && tlb.generation == 1
      ensures ram == ramMap
      ensures Guarded() && !tlb.saturated
    {
      tlb := new Tlb();
      roots, ram, mem, executed := rootOf, ramMap, tables, [];
      new;
      hide Agreement, AllHostMapped, SharedGlobals;
      NoneAgree(tlb.entries, tlb.generation, mem, roots, ram);
    }

    ghost predicate Valid()
      reads this, tlb
    {
      && tlb.Valid() && Agreement(tlb.entries, tlb.generation, mem, roots) && SharedGlobals(mem, roots)
      && AllHostMapped(tlb.entries, tlb.generation, ram)
    }

    /** Unless a credit has saturated since the last full flush, the census is exact and W^X
        holds. */
    ghost predicate Guarded()
      reads this, tlb
    {
      !tlb.saturated ==> tlb.Guards(executed)
    }

    /** The walk loop: at most three levels. */
    method WalkTables(va: Word, root: nat) returns (r: Option<Leaf>)
      ensures r == FindLeaf(mem, root * 0x1000, va, 2)
    {
      hide V, R, W, X, Ppn, Vpn;
      var a: nat, i := root * 0x1000, 2;
      while true
        invariant 0 <= i < 3 && FindLeaf(mem, a, va, i) == FindLeaf(mem, root * 0x1000, va, 2)
        decreases i
      {
        var addr := a + Vpn(va, i) * 8;
        var pte := Read(mem, addr);
        if !V(pte) || (W(pte) && !R(pte)) { return None; }
        if R(pte) || X(pte) { return Some(Leaf(i, addr, pte)); }
        if i == 0 { return None; }
        i := i - 1;
        a := Ppn(pte) * 0x1000;
      }
    }

    /** The miss path: walk, check, write A and D back, fill the TLB. */
    method TranslateImpl(access: Access, va: Word, asid: Asid, mode: Privilege, mxr: bool, sum: bool)
        returns (r: Option<nat>)
      requires Valid() && mode != Machine
      modifies this`mem, tlb
      ensures Valid() && SameTables(old(mem), mem) && tlb.generation == old(tlb.generation)
      ensures r == Walk(old(mem), roots(asid), va, access, mode, mxr, sum)
      ensures old(tlb.saturated) ==> tlb.saturated
      ensures old(Guarded()) && Small(old(mem), roots, Access(access, va, asid, mode, mxr, sum)) ==> Guarded()
    {
      hide FindLeaf, Canonical, Ppn, Permitted, Agreement, SharedGlobals, AllHostMapped, SameTables, Filled, Touched,
           A, D, Exact, WritableXorExecuted, Honest, Narrow, Unsaturated, WideWrite, FillPerm, HostOf, G, PageBase;
      SameSelf(mem);
      if !Canonical(va) { return None; }
      var found := WalkTables(va, roots(asid));
      if found.None? { return None; }
      var l := found.value;
      if Ppn(l.pte) % Span(l.level) != 0 { return None; }
      if !Permitted(l.pte, access, mode, mxr, sum) { return None; }
      var pte := l.pte;
      if !A(pte) || (access == STORE && !D(pte)) {
        pte := Touched(pte, access);
        mem := mem[l.addr := pte];
      }
      WriteBack(old(mem), mem, roots, tlb.entries, tlb.generation, va, asid, l, pte, access);
      FillTlb(access, va, asid, l, pte);
      return Some(Physical(l, va));
    }

    /** The entry of va's slot is filled from the leaf. */
    method FillTlb(access: Access, va: Word, asid: Asid, l: Leaf, pte: Word)
      requires Valid() && SameMapping(pte, l.pte) && Ppn(l.pte) % Span(l.level) == 0
      requires MappedBy(mem, roots(asid), va).Some? && SameLeaf(Some(l), MappedBy(mem, roots(asid), va))
      modifies tlb
      ensures Valid() && tlb.generation == old(tlb.generation)
      ensures old(tlb.saturated) ==> tlb.saturated
      ensures old(Guarded()) && l.level != 2 ==> Guarded()
    {
      hide FindLeaf, Canonical, Ppn, Agreement, SharedGlobals, AllHostMapped, SameTables, Filled, MappedBy, SameLeaf,
           Exact, WritableXorExecuted, Honest, Narrow, Unsaturated, WideWrite, FillPerm, HostOf, G, PageBase;
      var pa := Physical(l, va);
      var perm := FillPerm(pte, access, Executed(executed, pa / 0x1000));
      var base := Ppn(l.pte) * 0x1000;
      FilledServes(l, va, pte, access, executed, asid, ram, tlb.generation);
      Inserted(mem, roots, ram, tlb.entries, tlb.generation, va, asid, l, pte, access, executed);
      tlb.Insert(va, base, BitsOf(l.level), perm, asid, G(l.pte), HostOf(ram, base, BitsOf(l.level)), executed);
    }

    /** Whatever the TLB holds, translation answers as the walk does. */
    method Translate(access: Access, va: Word, asid: Asid, mode: Privilege, mxr: bool, sum: bool)
        returns (r: Option<nat>)
      requires Valid() && mode != Machine
      modifies this`mem, tlb
      ensures Valid() && SameTables(old(mem), mem) && tlb.generation == old(tlb.generation)
      ensures r == Walk(old(mem), roots(asid), va, access, mode, mxr, sum)
      ensures old(tlb.saturated) ==> tlb.saturated
      ensures old(Guarded()) && Small(old(mem), roots, Access(access, va, asid, mode, mxr, sum)) ==> Guarded()
    {
      hide Agreement, SharedGlobals, AllHostMapped, SameTables, Walk, Lookup;
      SameSelf(mem);
      HitAgrees(tlb.entries, tlb.generation, mem, roots, va, access, asid, mode, mxr, sum);
      var hit := Lookup(tlb.entries, tlb.generation, va, access, asid, mode, mxr, sum);
      if hit.Some? { return Some(hit.value); }
      r := TranslateImpl(access, va, asid, mode, mxr, sum);
    }

    /** SFENCE.VMA in its four forms. */
    method Fence(va: Option<Word>, asid: Option<Asid>)
      requires Valid() && tlb.generation < M64 - 1
      modifies tlb
      ensures Valid() && old(tlb.generation) <= tlb.generation <= old(tlb.generation) + 1
      ensures tlb.saturated == (old(tlb.saturated) && tlb.generation == old(tlb.generation))
      ensures old(Guarded()) ==> Guarded()
      ensures va.Some? || asid.Some? ==>
                tlb.generation == old(tlb.generation)
                && Flushed(old(tlb.entries), tlb.entries, tlb.generation, va, asid, SIZE)
      ensures va.None? && asid.None? ==> forall i | 0 <= i < SIZE :: tlb.entries[i].generation != tlb.generation
    {
      hide Agreement, SharedGlobals, AllHostMapped, WritableXorExecuted, Honest, Exact, Flushed;
      if va.None? && asid.None? {
        tlb.FlushAll();
        NoneAgree(tlb.entries, tlb.generation, mem, roots, ram);
        return;
      }
      if va.None? {
        tlb.FlushAsid(asid.value);
      } else if asid.None? {
        tlb.FlushAddr(va.value);
      } else {
        tlb.FlushAddrAsid(va.value, asid.value);
      }
      FencedAgrees(old(tlb.entries), tlb.entries, tlb.generation, mem, roots, ram, va, asid);
    }

    /** The guest installs other tables and fences everything. */
    method Remap(tables: Tables)
      requires tlb.Valid() && tlb.generation < M64 - 1 && SharedGlobals(tables, roots)
      modifies this`mem, tlb
      ensures Valid() && Guarded() && mem == tables && tlb.generation == old(tlb.generation) + 1 && !tlb.saturated
    {
      hide Agreement, SharedGlobals, AllHostMapped, WritableXorExecuted, Exact, Narrow;
      mem := tables;
      tlb.FlushAll();
      NoneAgree(tlb.entries, tlb.generation, mem, roots, ram);
    }

    /** A page starts hosting code: no live entry lets stores through to it afterwards. */
    method Executing(page: nat)
      requires Valid() && tlb.generation < M64 - 1
      modifies this`executed, tlb
      ensures Valid() && old(tlb.generation) <= tlb.generation <= old(tlb.generation) + 1
      ensures Executed(executed, page)
              && forall p: nat | p != page :: Executed(executed, p) == Executed(old(executed), p)
      ensures tlb.saturated == (old(tlb.saturated) && tlb.generation == old(tlb.generation))
      ensures old(Guarded()) ==> Guarded()
    {
      hide Agreement, SharedGlobals, AllHostMapped, WritableXorExecuted, Honest, Exact, Narrow;
      executed := tlb.MarkExecuted(page, executed);
      if tlb.generation != old(tlb.generation) {
        NoneAgree(tlb.entries, tlb.generation, mem, roots, ram);
      }
    }

    /** A store finds a mark without current code behind it and drops it. */
    method Clearing(page: nat)
      requires Valid()
      modifies this`executed
      ensures Valid() && (old(Guarded()) ==> Guarded())
      ensures forall p: nat :: Executed(executed, p) == (p != page && Executed(old(executed), p))
    {
      hide Agreement, SharedGlobals, AllHostMapped;
      if page < |executed| {
        executed := executed[page := false];
      }
    }

    /** Any run of translations, fences, code marks and cleared marks: every translation,
        hit or miss, answers what a fresh walk of the tables as they were at the start
        answers; and if no 1 GiB leaf is used and no credit saturates, the census counts
        exactly the live writable entries and no store hit can reach a marked page. */
    method Run(events: seq<Event>) returns (answers: seq<Option<nat>>)
      requires Valid() && tlb.generation + |events| < M64
      requires forall e | e in events && e.Access? :: e.mode != Machine
      modifies this, tlb
      ensures Valid() && SameTables(old(mem), mem)
      ensures answers == Walks(old(mem), roots, events)
      ensures old(Guarded()) && (forall e | e in events :: Small(old(mem), roots, e)) ==>
                Guarded() && (!tlb.saturated ==> NoMarkedStore(tlb.entries, tlb.generation, executed))
    {
      hide Agreement, SharedGlobals, AllHostMapped, SameTables, Walk, Exact, WritableXorExecuted, Guarded, Small,
           NoMarkedStore, MappedBy;
      answers := [];
      SameSelf(mem);
      ghost var small := old(Guarded()) && forall e | e in events :: Small(mem, roots, e);
      for i := 0 to |events|
        invariant Valid() && SameTables(old(mem), mem) && tlb.generation <= old(tlb.generation) + i
        invariant answers == Walks(old(mem), roots, events[..i])
        invariant small ==> Guarded()
      {
        var e := events[i];
        assert events[..i + 1][..i] == events[..i];
        match e
        case Access(access, va, asid, mode, mxr, sum) =>
          ghost var now := mem;
          SameWalk(old(mem), mem, roots(asid), va, access, mode, mxr, sum);
          if small { SameSmall(old(mem), mem, roots, e); }
          var got := Translate(access, va, asid, mode, mxr, sum);
          SameTrans(old(mem), now, mem);
          answers := answers + [got];
        case Fence(va, asid) => Fence(va, asid);
        case Executing(page) => Executing(page);
        case Clearing(page) => Clearing(page);
      }
      assert events[..|events|] == events;
      if small { GuardedStores(this); }
    }
  }

  lemma GuardedStores(m: Mmu)
    requires m.tlb.Valid() && m.Guarded()
    ensures !m.tlb.saturated ==> NoMarkedStore(m.tlb.entries, m.tlb.generation, m.executed)
  {
    if !m.tlb.saturated {
      hide Exact, Lookup;
      var t := m.tlb;
      forall va: Word, asid: Asid, mode: Privilege, mxr: bool, sum: bool
        ensures var r := Lookup(t.entries, t.generation, va, STORE, asid, mode, mxr, sum);
                r.Some? ==> !Executed(m.executed, r.value / 0x1000)
      {
        if t.entries[Index(va)].generation == t.generation {
          NoStoreHit(t.entries, t.generation, m.executed, va, asid, mode, mxr, sum);
        } else {
          DeadEntry(t.entries, t.generation, va, STORE, asid, mode, mxr, sum);
        }
      }
    }
  }

  lemma DeadEntry(entries: seq<Entry>, generation: Word, va: Word, access: Access, asid: Asid, mode: Privilege,
                  mxr: bool, sum: bool)
    requires |entries| == SIZE && entries[Index(va)].generation != generation
    ensures Lookup(entries, generation, va, access, asid, mode, mxr, sum) == None
  {
  }

  /** Write-backs of A and D do not change which leaves are wide. */
  lemma SameSmall(mem: Tables, mem': Tables, roots: Asid -> nat, e: Event)
    requires SameTables(mem, mem') && Small(mem, roots, e)
    ensures Small(mem', roots, e)
  {
    hide MappedBy, SameTables;
    if e.Access? { SameMapped(mem, mem', roots(e.asid), e.va); }
  }

  /** An empty TLB agrees with anything. */
  lemma NoneAgree(entries: seq<Entry>, generation: Word, mem: Tables, roots: Asid -> nat, ram: RamMap)
    requires forall i | 0 <= i < |entries| :: entries[i].generation != generation
    ensures Agreement(entries, generation, mem, roots) && AllHostMapped(entries, generation, ram)
  {
  }

  lemma FencedAgrees(before: seq<Entry>, after: seq<Entry>, generation: Word, mem: Tables, roots: Asid -> nat,
                     ram: RamMap, va: Option<Word>, asid: Option<Asid>)
    requires |before| == SIZE && Flushed(before, after, generation, va, asid, SIZE) && generation > 0
    requires Agreement(before, generation, mem, roots) && AllHostMapped(before, generation, ram)
    ensures Agreement(after, generation, mem, roots) && AllHostMapped(after, generation, ram)
  {
    hide WellFormed, EntryAgrees, HostMapped, Fenced;
  }

  lemma SameTrans(a: Tables, b: Tables, c: Tables)
    requires SameTables(a, b) && SameTables(b, c)
    ensures SameTables(a, c)
  {
    hide SameMapping;
    forall addr: nat ensures SameMapping(Read(a, addr), Read(c, addr)) {
      SameMappingTrans(Read(a, addr), Read(b, addr), Read(c, addr));
    }
  }

  lemma SameMappingTrans(p: Word, q: Word, r: Word)
    ensures SameMapping(p, q) && SameMapping(q, r) ==> SameMapping(p, r)
  {
  }

  lemma SameWalk(mem: Tables, mem': Tables, root: nat, va: Word, access: Access, mode: Privilege, mxr: bool, sum: bool)
    requires SameTables(mem, mem')
    ensures Walk(mem', root, va, access, mode, mxr, sum) == Walk(mem, root, va, access, mode, mxr, sum)
  {
    hide Ppn, MappedBy, SameTables;
    SameMapped(mem, mem', root, va);
    var x, y := MappedBy(mem, root, va), MappedBy(mem', root, va);
    if x.Some? { SameFields(x.value.pte, y.value.pte); }
  }

  lemma SameSelf(mem: Tables)
    ensures SameTables(mem, mem)
  {
  }

  /** Writing A and D back leaves everything known about the tables true. */
  lemma WriteBack(mem: Tables, mem': Tables, roots: Asid -> nat, entries: seq<Entry>, generation: Word, va: Word,
                  asid: Asid, l: Leaf, pte: Word, access: Access)
    requires Agreement(entries, generation, mem, roots) && SharedGlobals(mem, roots)
    requires MappedBy(mem, roots(asid), va) == Some(l)
    requires (mem' == mem && pte == l.pte) || (pte == Touched(l.pte, access) && mem' == mem[l.addr := pte])
    ensures SameTables(mem, mem') && Agreement(entries, generation, mem', roots) && SharedGlobals(mem', roots)
    ensures SameMapping(pte, l.pte)
    ensures MappedBy(mem', roots(asid), va).Some? && SameLeaf(Some(l), MappedBy(mem', roots(asid), va))
  {
    hide Agreement, SharedGlobals, Touched, FindLeaf, Ppn, Canonical, Span;
    if mem' == mem {
      SameSelf(mem);
      TouchedKeeps(l.pte, access);
    } else {
      FoundThere(mem, roots(asid) * 0x1000, va, 2);
      WriteBackSame(mem, l.addr, access);
      TouchedKeeps(l.pte, access);
    }
    AgreementKeeps(entries, generation, mem, mem', roots);
    SharedKeeps(mem, mem', roots);
    SameMapped(mem, mem', roots(asid), va);
  }

  lemma {:induction false} FoundThere(mem: Tables, a: nat, va: Word, i: Level)
    ensures var l := FindLeaf(mem, a, va, i); l.Some? ==> Read(mem, l.value.addr) == l.value.pte
    decreases i
  {
    hide V, R, W, X, Ppn, Vpn;
    if i > 0 { FoundThere(mem, Ppn(Read(mem, a + Vpn(va, i) * 8)) * 0x1000, va, i - 1); }
  }

  /** The filled slot keeps the TLB in agreement with the walk. */
  lemma Inserted(mem: Tables, roots: Asid -> nat, ram: RamMap, entries: seq<Entry>, generation: Word, va: Word,
                 asid: Asid, l: Leaf, pte: Word, access: Access, executed: seq<bool>)
    requires |entries| == SIZE && Agreement(entries, generation, mem, roots) && SharedGlobals(mem, roots)
    requires AllHostMapped(entries, generation, ram)
    requires SameMapping(pte, l.pte) && Ppn(l.pte) % Span(l.level) == 0
    requires MappedBy(mem, roots(asid), va).Some? && SameLeaf(Some(l), MappedBy(mem, roots(asid), va))
    ensures Ppn(l.pte) * 0x1000 < M64 && PageSize(BitsOf(l.level))
    ensures var pa := Ppn(l.pte) * 0x1000;
            var perm := FillPerm(pte, access, Executed(executed, Physical(l, va) / 0x1000));
            var e := Filled(va, pa, BitsOf(l.level), perm, asid, G(l.pte), HostOf(ram, pa, BitsOf(l.level)),
                            generation, executed);
            Agreement(entries[Index(va) := e], generation, mem, roots)
                && AllHostMapped(entries[Index(va) := e], generation, ram)
  {
    hide Ppn, FillPerm, Physical, HostOf, Filled, G, Agreement, AllHostMapped, SharedGlobals, MappedBy, SameLeaf,
         Serves, WellFormed, HostMapped, EntryAgrees, Index, Executed, PageBase, SameMapping, Span;
    FilledServes(l, va, pte, access, executed, asid, ram, generation);
    var pa := Ppn(l.pte) * 0x1000;
    var perm := FillPerm(pte, access, Executed(executed, Physical(l, va) / 0x1000));
    var host := HostOf(ram, pa, BitsOf(l.level));
    var e := Filled(va, pa, BitsOf(l.level), perm, asid, G(l.pte), host, generation, executed);
    FilledOk(va, pa, BitsOf(l.level), perm, asid, G(l.pte), host, generation, executed);
    FilledShape(va, pa, BitsOf(l.level), perm, asid, G(l.pte), host, generation, executed);
    LeafNow(mem, roots, va, asid, l, e);
    PutAgrees(entries, generation, mem, roots, ram, Index(va), e);
  }

  lemma FilledShape(va: Word, pa: Word, bits: nat, perm: Byte, asid: Asid, global: bool, host: Option<Word>,
                    generation: Word, executed: seq<bool>)
    requires PageSize(bits)
    ensures var e := Filled(va, pa, bits, perm, asid, global, host, generation, executed);
            e.pageBits == bits && e.vbase == PageBase(va, bits) && e.asid == asid && e.global == global
  {
    hide Pow2, PageBase, WithoutWrite;
  }

  lemma LeafNow(mem: Tables, roots: Asid -> nat, va: Word, asid: Asid, l: Leaf, e: Entry)
    requires MappedBy(mem, roots(asid), va).Some? && SameLeaf(Some(l), MappedBy(mem, roots(asid), va))
    requires SharedGlobals(mem, roots)
    requires e.pageBits == BitsOf(l.level) && e.vbase == PageBase(va, e.pageBits) && e.asid == asid
    requires e.global == G(l.pte)
    requires Serves(Some(l), e)
    ensures EntryAgrees(mem, roots, e)
  {
    hide MappedBy, PageBase, Serves, G, SharedGlobals, EntryAgrees, BitsOf, SameMapping;
    var l' := MappedBy(mem, roots(asid), va).value;
    SameFields(l.pte, l'.pte);
    ServesSame(Some(l), Some(l'), e);
    FillAgrees(mem, roots, va, asid, l', e);
  }

  lemma PutAgrees(entries: seq<Entry>, generation: Word, mem: Tables, roots: Asid -> nat, ram: RamMap, i: nat, e: Entry)
    requires i < |entries| && Agreement(entries, generation, mem, roots) && AllHostMapped(entries, generation, ram)
    requires WellFormed(e) && EntryAgrees(mem, roots, e) && HostMapped(e, ram.base, ram.size, ram.host)
    ensures Agreement(entries[i := e], generation, mem, roots) && AllHostMapped(entries[i := e], generation, ram)
  {
    hide WellFormed, EntryAgrees, HostMapped;
  }
}
