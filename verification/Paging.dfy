/** The Sv39 page walk (mmu.inl, mmu.hpp) and its agreement with the TLB. */
module Paging {
  import opened Words
  import opened Options
  import opened TlbEntries
  import opened PageMarks
  import opened Tlbs

  /** Page-table memory, by the address of each 8-byte entry; elsewhere reads give 0. */
  type Tables = map<nat, Word>

  function Read(mem: Tables, addr: nat): Word { if addr in mem then mem[addr] else 0 }

  type Level = i: int | 0 <= i < 3

  function PageBytes(i: Level): nat { if i == 0 then 0x1000 else if i == 1 then 0x20_0000 else 0x4000_0000 }

  function Vpn(va: Word, i: Level): nat { va / PageBytes(i) % 512 }

  /** Bits 63 to 39 repeat bit 38. */
  predicate Canonical(va: Word)
  {
    var shifted := S64(va) / 0x40_0000_0000;
    shifted == 0 || shifted == -1
  }

  // Entry fields -----------------------------------------------------------------------------------

  predicate V(pte: Word) { pte % 2 == 1 }
  predicate R(pte: Word) { pte / 2 % 2 == 1 }
  predicate W(pte: Word) { pte / 4 % 2 == 1 }
  predicate X(pte: Word) { pte / 8 % 2 == 1 }
  predicate U(pte: Word) { pte / 16 % 2 == 1 }
  predicate G(pte: Word) { pte / 32 % 2 == 1 }
  predicate A(pte: Word) { pte / 64 % 2 == 1 }
  predicate D(pte: Word) { pte / 128 % 2 == 1 }
  function Ppn(pte: Word): nat { pte / 1024 % 0x1000_0000_0000 }

  /** The entry with A set, and D too for a store. */
  function Touched(pte: Word, access: Access): Word
  {
    var low := pte % 64;
    var high := pte / 256;
    low + 64 + (if D(pte) || access == STORE then 128 else 0) + high * 256
  }

  /** Everything but A and D. */
  predicate SameMapping(p: Word, q: Word) { p % 64 == q % 64 && p / 256 == q / 256 }

  // The walk ------------------------------------------------------------------------------------------

  datatype Leaf = Leaf(level: Level, addr: nat, pte: Word)

  /** The leaf entry reached from the table at `a`, level i. */
  function FindLeaf(mem: Tables, a: nat, va: Word, i: Level): Option<Leaf>
    decreases i
  {
    var addr := a + Vpn(va, i) * 8;
    var pte := Read(mem, addr);
    if !V(pte) || (W(pte) && !R(pte)) then None
    else if R(pte) || X(pte) then Some(Leaf(i, addr, pte))
    else if i == 0 then None
    else FindLeaf(mem, Ppn(pte) * 0x1000, va, i - 1)
  }

  predicate Permitted(pte: Word, access: Access, mode: Privilege, mxr: bool, sum: bool)
  {
    && (mode == User ==> U(pte))
    && (mode == Supervisor && U(pte) ==> access != EXEC && sum)
    && (match access case LOAD => R(pte) || (X(pte) && mxr) case STORE => W(pte) case EXEC => X(pte))
  }

  /** Pages in units of which a level-i leaf must be aligned. */
  function Span(i: Level): nat { if i == 0 then 1 else if i == 1 then 512 else 0x4_0000 }

  /** The leaf that maps va, if the address is canonical and a superpage is aligned. */
  function MappedBy(mem: Tables, root: nat, va: Word): Option<Leaf>
  {
    if !Canonical(va) then None
    else
      match FindLeaf(mem, root * 0x1000, va, 2)
      case None => None
      case Some(l) => if Ppn(l.pte) % Span(l.level) != 0 then None else Some(l)
  }

  function Physical(l: Leaf, va: Word): nat { Ppn(l.pte) * 0x1000 + va % PageBytes(l.level) }

  /** What the walk answers: a physical address, or a page fault. */
  function Walk(mem: Tables, root: nat, va: Word, access: Access, mode: Privilege, mxr: bool, sum: bool): Option<nat>
  {
    match MappedBy(mem, root, va)
    case None => None
    case Some(l) => if Permitted(l.pte, access, mode, mxr, sum) then Some(Physical(l, va)) else None
  }

  // A and D do not matter --------------------------------------------------------------------------------

  lemma Low(pte: Word, k: nat)
    requires k in {1, 2, 4, 8, 16, 32}
    ensures pte / k % 2 == pte % 64 / k % 2
  {
    var q, r := pte / 64, pte % 64;
    var n := 64 / k;
    assert n * k == 64 && n % 2 == 0;
    var t, u := r / k, r % k;
    assert pte == k * (n * q + t) + u;
    DivModUnique(pte, k, n * q + t, u);
    var h := n / 2;
    assert n * q == 2 * (h * q);
    ParityShift(h * q, t);
  }

  lemma ParityShift(a: int, t: int)
    ensures (2 * a + t) % 2 == t % 2
  {
  }

  /** Entries that differ only in A and D have the same mapping bits. */
  lemma SameFields(p: Word, q: Word)
    requires SameMapping(p, q)
    ensures V(p) == V(q) && R(p) == R(q) && W(p) == W(q) && X(p) == X(q) && U(p) == U(q) && G(p) == G(q)
    ensures Ppn(p) == Ppn(q)
  {
    Low(p, 1); Low(q, 1); Low(p, 2); Low(q, 2); Low(p, 4); Low(q, 4);
    Low(p, 8); Low(q, 8); Low(p, 16); Low(q, 16); Low(p, 32); Low(q, 32);
    DivDiv(p); DivDiv(q);
  }

  lemma DivDiv(p: Word)
    ensures p / 1024 == p / 256 / 4
  {
  }

  lemma TouchedKeeps(pte: Word, access: Access)
    ensures SameMapping(Touched(pte, access), pte)
  {
    var bits := 64 + (if D(pte) || access == STORE then 128 else 0);
    DivModUnique(Touched(pte, access), 256, pte / 256, pte % 64 + bits);
    DivModUnique(Touched(pte, access), 64, bits / 64 + pte / 256 * 4, pte % 64);
  }

  /** Two memories with the same mapping bits everywhere. */
  ghost predicate SameTables(mem: Tables, mem': Tables)
  {
    forall addr: nat :: SameMapping(Read(mem, addr), Read(mem', addr))
  }

  ghost predicate SameLeaf(x: Option<Leaf>, y: Option<Leaf>)
  {
    && x.Some? == y.Some?
    && (x.Some? ==>
          x.value.level == y.value.level && x.value.addr == y.value.addr && SameMapping(x.value.pte, y.value.pte))
  }

  lemma {:induction false} SameFind(mem: Tables, mem': Tables, a: nat, va: Word, i: Level)
    requires SameTables(mem, mem')
    ensures SameLeaf(FindLeaf(mem, a, va, i), FindLeaf(mem', a, va, i))
    decreases i
  {
    hide Vpn, SameMapping, V, R, W, X, Ppn;
    var addr := a + Vpn(va, i) * 8;
    var p, q := Read(mem, addr), Read(mem', addr);
    assert SameMapping(p, q);
    SameFields(p, q);
    if i > 0 { SameFind(mem, mem', Ppn(p) * 0x1000, va, i - 1); }
  }

  lemma SameMapped(mem: Tables, mem': Tables, root: nat, va: Word)
    requires SameTables(mem, mem')
    ensures SameLeaf(MappedBy(mem, root, va), MappedBy(mem', root, va))
  {
    hide FindLeaf, SameMapping, Ppn, Canonical;
    SameFind(mem, mem', root * 0x1000, va, 2);
    var x, y := FindLeaf(mem, root * 0x1000, va, 2), FindLeaf(mem', root * 0x1000, va, 2);
    if x.Some? { SameFields(x.value.pte, y.value.pte); }
  }

  /** The A/D write-back of one walk changes no other walk's answer. */
  lemma WriteBackKeepsWalks(mem: Tables, addr: nat, access: Access, root: nat, va: Word, other: Access, mode: Privilege,
                            mxr: bool, sum: bool)
    ensures Walk(mem[addr := Touched(Read(mem, addr), access)], root, va, other, mode, mxr, sum) ==
            Walk(mem, root, va, other, mode, mxr, sum)
  {
    hide FindLeaf, Ppn, MappedBy, Touched;
    var mem' := mem[addr := Touched(Read(mem, addr), access)];
    WriteBackSame(mem, addr, access);
    SameMapped(mem, mem', root, va);
    var x, y := MappedBy(mem, root, va), MappedBy(mem', root, va);
    if x.Some? { SameFields(x.value.pte, y.value.pte); }
  }

  lemma WriteBackSame(mem: Tables, addr: nat, access: Access)
    ensures SameTables(mem, mem[addr := Touched(Read(mem, addr), access)])
  {
    hide Touched;
    TouchedKeeps(Read(mem, addr), access);
  }

  // One leaf serves its whole page -----------------------------------------------------------------------

  lemma {:induction false} LeafLevel(mem: Tables, a: nat, va: Word, i: Level)
    ensures var l := FindLeaf(mem, a, va, i); l.Some? ==> l.value.level <= i
    decreases i
  {
    hide Vpn, V, R, W, X;
    if i > 0 { LeafLevel(mem, Ppn(Read(mem, a + Vpn(va, i) * 8)) * 0x1000, va, i - 1); }
  }

  lemma CoarserPage(va: Word, i: Level, j: Level)
    requires i <= j
    ensures va / PageBytes(j) == va / PageBytes(i) / (PageBytes(j) / PageBytes(i))
  {
    var n := PageBytes(j) / PageBytes(i);
    assert PageBytes(j) == PageBytes(i) * n;
    DivTwice(va, PageBytes(i), n);
  }

  lemma {:induction false} SamePageFind(mem: Tables, a: nat, va: Word, va': Word, i: Level)
    requires var l := FindLeaf(mem, a, va, i);
             l.Some? && va / PageBytes(l.value.level) == va' / PageBytes(l.value.level)
    ensures FindLeaf(mem, a, va', i) == FindLeaf(mem, a, va, i)
    decreases i
  {
    hide V, R, W, X, Ppn, PageBytes;
    var l := FindLeaf(mem, a, va, i).value;
    LeafLevel(mem, a, va, i);
    CoarserPage(va, l.level, i);
    CoarserPage(va', l.level, i);
    assert Vpn(va, i) == Vpn(va', i);
    var pte := Read(mem, a + Vpn(va, i) * 8);
    if !R(pte) && !X(pte) { SamePageFind(mem, Ppn(pte) * 0x1000, va, va', i - 1); }
  }

  lemma CanonicalPage(va: Word, va': Word, i: Level)
    requires va / PageBytes(i) == va' / PageBytes(i)
    ensures Canonical(va) == Canonical(va')
  {
    CoarserPage(va, i, 2);
    CoarserPage(va', i, 2);
    CanonicalBy(va);
    CanonicalBy(va');
  }

  lemma CanonicalBy(va: Word)
    ensures Canonical(va) <==> va / 0x4000_0000 < 0x100 || va / 0x4000_0000 >= 0x4_0000_0000 - 0x100
  {
  }

  lemma SamePageMapped(mem: Tables, root: nat, va: Word, va': Word)
    requires var l := MappedBy(mem, root, va);
             l.Some? && va / PageBytes(l.value.level) == va' / PageBytes(l.value.level)
    ensures MappedBy(mem, root, va') == MappedBy(mem, root, va)
  {
    hide FindLeaf, Canonical, PageBytes, Ppn, Span;
    SamePageFind(mem, root * 0x1000, va, va', 2);
    CanonicalPage(va, va', MappedBy(mem, root, va).value.level);
  }

  // Agreement ---------------------------------------------------------------------------------------------

  function BitsOf(i: Level): nat { 12 + 9 * i }

  lemma BitsBytes(i: Level)
    ensures Pow2(BitsOf(i)) == PageBytes(i) && PageSize(BitsOf(i))
  {
    PageSizes();
  }

  /** The entry says about va what the leaf says, or less. */
  ghost predicate Serves(l: Option<Leaf>, e: Entry)
  {
    && l.Some? && BitsOf(l.value.level) == e.pageBits && Ppn(l.value.pte) * 0x1000 == e.pbase
    && U(l.value.pte) == IsUser(e.perm) && (CanRead(e.perm) ==> R(l.value.pte))
    && (CanWrite(e.perm) ==> W(l.value.pte)) && (CanExec(e.perm) ==> X(l.value.pte))
  }

  /** For every address and address space the entry answers for. */
  ghost predicate EntryAgrees(mem: Tables, roots: Asid -> nat, e: Entry)
  {
    forall va: Word, asid: Asid | PageBase(va, e.pageBits) == e.vbase && (e.global || asid == e.asid) ::
      Serves(MappedBy(mem, roots(asid), va), e)
  }

  ghost predicate Agreement(entries: seq<Entry>, generation: Word, mem: Tables, roots: Asid -> nat)
  {
    forall i | 0 <= i < |entries| && entries[i].generation == generation ::
          WellFormed(entries[i]) && EntryAgrees(mem, roots, entries[i])
  }

  /** Global leaves are shared by all address spaces. */
  ghost predicate SharedGlobals(mem: Tables, roots: Asid -> nat)
  {
    forall va: Word, a: Asid, b: Asid | MappedBy(mem, roots(a), va).Some? && G(MappedBy(mem, roots(a), va).value.pte) ::
      Alike(MappedBy(mem, roots(a), va), MappedBy(mem, roots(b), va))
  }

  ghost predicate Alike(x: Option<Leaf>, y: Option<Leaf>)
  {
    x.Some? && y.Some? && x.value.level == y.value.level && SameMapping(x.value.pte, y.value.pte)
  }

  lemma GrantsPermitted(e: Entry, l: Leaf, access: Access, mode: Privilege, mxr: bool, sum: bool)
    requires Serves(Some(l), e) && Grants(e.perm, access, mode, mxr, sum)
    ensures Permitted(l.pte, access, mode, mxr, sum)
  {
    hide U, R, W, X, Ppn, CanRead, CanWrite, CanExec, IsUser, IsDirty;
  }

  /** Every hit is what the walk answers. */
  lemma HitAgrees(entries: seq<Entry>, generation: Word, mem: Tables, roots: Asid -> nat, va: Word, access: Access,
                  asid: Asid, mode: Privilege, mxr: bool, sum: bool)
    requires |entries| == SIZE && Agreement(entries, generation, mem, roots)
    ensures var r := Lookup(entries, generation, va, access, asid, mode, mxr, sum);
            r.Some? ==> Walk(mem, roots(asid), va, access, mode, mxr, sum) == Some(r.value as nat)
  {
    hide Index, MappedBy, Grants, Permitted, Pow2, Bits, Ppn, U, R, W, X;
    var r := Lookup(entries, generation, va, access, asid, mode, mxr, sum);
    var e := entries[Index(va)];
    if r.Some? {
      assert EntryAgrees(mem, roots, e);
      var l := MappedBy(mem, roots(asid), va);
      assert Serves(l, e);
      GrantsPermitted(e, l.value, access, mode, mxr, sum);
      BitsBytes(l.value.level);
      ModBound(va, Pow2(e.pageBits));
      OrDisjoint(e.pbase, va % Pow2(e.pageBits), e.pageBits);
    }
  }

  /** Agreement does not depend on A and D bits. */
  lemma AgreementKeeps(entries: seq<Entry>, generation: Word, mem: Tables, mem': Tables, roots: Asid -> nat)
    requires Agreement(entries, generation, mem, roots) && SameTables(mem, mem')
    ensures Agreement(entries, generation, mem', roots)
  {
    hide WellFormed, PageBase, MappedBy, SameTables, Serves;
    forall i | 0 <= i < |entries| && entries[i].generation == generation ensures EntryAgrees(mem', roots, entries[i]) {
      var e := entries[i];
      forall va: Word, asid: Asid | PageBase(va, e.pageBits) == e.vbase && (e.global || asid == e.asid)
        ensures Serves(MappedBy(mem', roots(asid), va), e)
      {
        assert Serves(MappedBy(mem, roots(asid), va), e);
        SameMapped(mem, mem', roots(asid), va);
        ServesSame(MappedBy(mem, roots(asid), va), MappedBy(mem', roots(asid), va), e);
      }
    }
  }

  lemma ServesSame(x: Option<Leaf>, y: Option<Leaf>, e: Entry)
    requires Serves(x, e) && (SameLeaf(x, y) || Alike(x, y))
    ensures Serves(y, e)
  {
    hide U, R, W, X, Ppn, CanRead, CanWrite, CanExec, IsUser, SameMapping;
    SameFields(x.value.pte, y.value.pte);
  }

  lemma SharedKeeps(mem: Tables, mem': Tables, roots: Asid -> nat)
    requires SharedGlobals(mem, roots) && SameTables(mem, mem')
    ensures SharedGlobals(mem', roots)
  {
    hide MappedBy, SameTables, G;
    forall va: Word, a: Asid, b: Asid | MappedBy(mem', roots(a), va).Some? && G(MappedBy(mem', roots(a), va).value.pte)
      ensures Alike(MappedBy(mem', roots(a), va), MappedBy(mem', roots(b), va))
    {
      SameMapped(mem, mem', roots(a), va);
      SameMapped(mem, mem', roots(b), va);
      SameFields(MappedBy(mem, roots(a), va).value.pte, MappedBy(mem', roots(a), va).value.pte);
      assert Alike(MappedBy(mem, roots(a), va), MappedBy(mem, roots(b), va));
    }
  }

  // Filling -------------------------------------------------------------------------------------------------

  /** The TLB permission bits of a leaf. */
  function PermOf(pte: Word): (p: Byte)
    ensures CanRead(p) == R(pte) && CanWrite(p) == W(pte) && CanExec(p) == X(pte) && IsUser(p) == U(pte)
    ensures IsDirty(p) == D(pte)
  {
    var r, w, x, u, a, d := pte / 2 % 2, pte / 4 % 2, pte / 8 % 2, pte / 16 % 2, pte / 64 % 2, pte / 128 % 2;
    PermParts(r + 2 * w + 4 * x + 8 * u + 16 * a + 32 * d, r, w, x, u, a, d, 0);
    r + 2 * w + 4 * x + 8 * u + 16 * a + 32 * d
  }

  lemma LeafAligned(l: Leaf)
    requires Ppn(l.pte) % Span(l.level) == 0
    ensures Ppn(l.pte) * 0x1000 % PageBytes(l.level) == 0
  {
    var q := Ppn(l.pte) / Span(l.level);
    assert Ppn(l.pte) == Span(l.level) * q;
    assert PageBytes(l.level) == 0x1000 * Span(l.level);
    assert Ppn(l.pte) * 0x1000 == PageBytes(l.level) * q;
    DivModUnique(Ppn(l.pte) * 0x1000, PageBytes(l.level), q, 0);
  }

  lemma SameBase(va: Word, va': Word, bits: nat, m: nat)
    requires Pow2(bits) == m && PageBase(va, bits) == PageBase(va', bits)
    ensures va / m == va' / m
  {
    assert va - va % m == va' - va' % m;
    assert va == m * (va / m) + va % m && va' == m * (va' / m) + va' % m;
    DivModUnique(va - va % m, m, va / m, 0);
    DivModUnique(va' - va' % m, m, va' / m, 0);
  }

  /** An entry filled from a leaf agrees with the walk on its whole page, in every address
      space it answers for. */
  lemma FillAgrees(mem: Tables, roots: Asid -> nat, va: Word, asid: Asid, l: Leaf, e: Entry)
    requires MappedBy(mem, roots(asid), va) == Some(l) && SharedGlobals(mem, roots)
    requires e.pageBits == BitsOf(l.level) && e.vbase == PageBase(va, e.pageBits) && e.asid == asid
    requires e.global == G(l.pte)
    requires Serves(Some(l), e)
    ensures EntryAgrees(mem, roots, e)
  {
    hide MappedBy, PageBase, Serves, G, PageBytes, SharedGlobals, Alike, BitsOf;
    forall va': Word, asid': Asid | PageBase(va', e.pageBits) == e.vbase && (e.global || asid' == e.asid)
      ensures Serves(MappedBy(mem, roots(asid'), va'), e)
    {
      BitsBytes(l.level);
      SameBase(va, va', e.pageBits, PageBytes(l.level));
      SamePageMapped(mem, roots(asid), va, va');
      if asid' != asid {
        GlobalAlike(mem, roots, va', asid, asid');
        ServesSame(MappedBy(mem, roots(asid), va'), MappedBy(mem, roots(asid'), va'), e);
      }
    }
  }

  lemma GlobalAlike(mem: Tables, roots: Asid -> nat, va: Word, a: Asid, b: Asid)
    requires SharedGlobals(mem, roots) && MappedBy(mem, roots(a), va).Some? && G(MappedBy(mem, roots(a), va).value.pte)
    ensures Alike(MappedBy(mem, roots(a), va), MappedBy(mem, roots(b), va))
  {
    hide MappedBy, G, Alike;
  }

  /** Where RAM is, in guest and host addresses. */
  datatype RamMap = RamMap(base: Word, size: nat, host: Word)

  function HostOf(ram: RamMap, pa: nat, bits: nat): Option<Word>
  {
    if ram.base <= pa && pa - ram.base + Pow2(bits) <= ram.size
        && ram.host + (pa - ram.base) < M64 then Some(ram.host + (pa - ram.base))
    else None
  }

  ghost predicate AllHostMapped(entries: seq<Entry>, generation: Word, ram: RamMap)
  {
    forall i | 0 <= i < |entries| && entries[i].generation == generation ::
          HostMapped(entries[i], ram.base, ram.size, ram.host)
  }

  /** The permissions the walk hands to insert(). */
  function FillPerm(pte: Word, access: Access, executed: bool): Byte
  {
    if executed || access == EXEC then WithoutWrite(PermOf(pte)) else PermOf(pte)
  }

  lemma FilledServes(l: Leaf, va: Word, pte: Word, access: Access, executed: seq<bool>, asid: Asid, ram: RamMap,
                     generation: Word)
    requires Ppn(l.pte) % Span(l.level) == 0 && SameMapping(pte, l.pte)
    ensures Ppn(l.pte) * 0x1000 < M64 && PageSize(BitsOf(l.level))
    ensures var pa := Ppn(l.pte) * 0x1000;
            var perm := FillPerm(pte, access, Executed(executed, Physical(l, va) / 0x1000));
            var e := Filled(va, pa, BitsOf(l.level), perm, asid, G(l.pte), HostOf(ram, pa, BitsOf(l.level)),
                            generation, executed);
            Serves(Some(l), e) && HostMapped(e, ram.base, ram.size, ram.host)
  {
    hide *;
    SameFields(pte, l.pte);
    LeafBase(l);
    FillKeeps(pte, l.pte, access, Executed(executed, Physical(l, va) / 0x1000));
    EntryServes(l, va, FillPerm(pte, access, Executed(executed, Physical(l, va) / 0x1000)), executed, asid, ram,
                generation);
  }

  lemma LeafBase(l: Leaf)
    requires Ppn(l.pte) % Span(l.level) == 0
    ensures var pa := Ppn(l.pte) * 0x1000; pa < M64 && PageSize(BitsOf(l.level)) && PageBase(pa, BitsOf(l.level)) == pa
  {
    hide Pow2, PageBytes;
    LeafAligned(l);
    BitsBytes(l.level);
  }

  /** Filling never grants more than the leaf. */
  lemma FillKeeps(pte: Word, mapped: Word, access: Access, executed: bool)
    requires R(pte) == R(mapped) && W(pte) == W(mapped) && X(pte) == X(mapped) && U(pte) == U(mapped)
    ensures var p := FillPerm(pte, access, executed);
            U(mapped) == IsUser(p) && (CanRead(p) ==> R(mapped)) && (CanWrite(p) ==> W(mapped))
                && (CanExec(p) ==> X(mapped))
  {
    hide R, W, X, U, D, CanRead, CanWrite, CanExec, IsUser, IsDirty, PermOf, WithoutWrite;
  }

  lemma EntryServes(l: Leaf, va: Word, perm: Byte, executed: seq<bool>, asid: Asid, ram: RamMap, generation: Word)
    requires var pa := Ppn(l.pte) * 0x1000; pa < M64 && PageSize(BitsOf(l.level)) && PageBase(pa, BitsOf(l.level)) == pa
    requires U(l.pte) == IsUser(perm) && (CanRead(perm) ==> R(l.pte)) && (CanWrite(perm) ==> W(l.pte))
    requires (CanExec(perm) ==> X(l.pte))
    ensures var pa := Ppn(l.pte) * 0x1000;
            var e := Filled(va, pa, BitsOf(l.level), perm, asid, G(l.pte), HostOf(ram, pa, BitsOf(l.level)),
                            generation, executed);
            Serves(Some(l), e) && HostMapped(e, ram.base, ram.size, ram.host)
  {
    hide Pow2, WithoutWrite, R, W, X, U, G, Ppn, CanRead, CanWrite, CanExec, IsUser, IsDirty, PageBase, Offset,
         Executed, BitsOf;
  }
}
