/** The direct-mapped TLB, its census of writable pages, and W^X (tlb.hpp, tlb.cpp). */
module Tlbs {
  import opened Words
  import opened Options
  import opened TlbEntries
  import opened PageMarks

  const CREDIT_CAP_PAGES: nat := 512
  const NO_ENTRY: Entry := Entry(M64 - 1, M64 - 1, 0, 0, 0, 0, 12, 0, false)

  predicate PageSize(bits: nat) { bits == 12 || bits == 21 || bits == 30 }

  /** 4 KiB pages in a mapping. */
  function PageCount(bits: nat): nat { if bits == 12 then 1 else if bits == 21 then 512 else 0x4_0000 }

  /** A resident entry that lets stores through to the physical page, for some address. */
  predicate Covers(e: Entry, generation: Word, page: nat)
  {
    && e.generation == generation && CanWrite(e.perm)
    && e.pbase / 0x1000 <= page < e.pbase / 0x1000 + PageCount(e.pageBits)
  }

  /** How many of the first n entries cover the page. */
  ghost function Count(entries: seq<Entry>, generation: Word, page: nat, n: nat): nat
    requires n <= |entries|
  {
    if n == 0 then 0
    else Count(entries, generation, page, n - 1) + if Covers(entries[n - 1], generation, page) then 1 else 0
  }

  function Credit(writable: seq<nat>, page: nat): nat { if page < |writable| then writable[page] else 0 }

  lemma {:induction false} CountUpdate(entries: seq<Entry>, generation: Word, page: nat, n: nat, i: nat, e: Entry)
    requires n <= |entries| && i < |entries|
    ensures Count(entries[i := e], generation, page, n) ==
            if i < n then
              Count(entries, generation, page, n) - (if Covers(entries[i], generation, page) then 1 else 0)
              + (if Covers(e, generation, page) then 1 else 0)
            else Count(entries, generation, page, n)
  {
    if n > 0 { CountUpdate(entries, generation, page, n - 1, i, e); }
  }

  lemma {:induction false} CountZero(entries: seq<Entry>, generation: Word, page: nat, n: nat)
    requires n <= |entries|
    ensures Count(entries, generation, page, n) == 0 <==> forall i | 0 <= i < n :: !Covers(entries[i], generation, page)
  {
    if n > 0 { CountZero(entries, generation, page, n - 1); }
  }

  /** The census is right: no mapping is too wide for it, and each page's credit is the
      number of resident writable entries covering it. */
  ghost predicate Exact(entries: seq<Entry>, generation: Word, writable: seq<nat>, oversized: bool)
  {
    && !oversized
    && (forall i | 0 <= i < |entries| && entries[i].generation == generation && CanWrite(entries[i].perm) ::
          PageCount(entries[i].pageBits) <= CREDIT_CAP_PAGES)
    && (forall page: nat :: Credit(writable, page) == Count(entries, generation, page, |entries|))
  }

  /** The run invariant: unless a wide mapping has raised the oversized flag, the census
      is right. */
  ghost predicate Honest(entries: seq<Entry>, generation: Word, writable: seq<nat>, oversized: bool)
  {
    !oversized ==> Exact(entries, generation, writable, oversized)
  }

  /** No page has more writable entries than a credit can count. */
  ghost predicate Unsaturated(entries: seq<Entry>, generation: Word)
  {
    forall page: nat :: Count(entries, generation, page, |entries|) <= 255
  }

  /** No live mapping is wider than 2 MiB. */
  ghost predicate Narrow(entries: seq<Entry>, generation: Word)
  {
    forall i | 0 <= i < |entries| && entries[i].generation == generation :: entries[i].pageBits != 30
  }

  // Where a hit lands ------------------------------------------------------------------------

  /** The one 4 KiB page an entry at slot i serves, for mappings up to 2 MiB. */
  function ServedPage(e: Entry, i: nat): nat { e.pbase / 0x1000 + i % PageCount(e.pageBits) }

  lemma SubPage(va: Word, bits: nat)
    requires bits == 12 || bits == 21
    ensures va % Pow2(bits) / 0x1000 == Index(va) % PageCount(bits)
  {
    hide Pow2;
    PageSizes();
    if bits == 21 {
      PageInBig(va, va / 0x20_0000, va % 0x20_0000);
      var p := va / 0x1000;
      IndexLow(p, p / 0x20000, p % 0x20000);
    }
  }

  lemma PageInBig(va: nat, q: nat, r: nat)
    requires va == 0x20_0000 * q + r && r < 0x20_0000
    ensures r / 0x1000 == va / 0x1000 % 512
  {
    assert va / 0x1000 == 512 * q + r / 0x1000;
    assert r / 0x1000 < 512;
  }

  lemma IndexLow(p: nat, q: nat, r: nat)
    requires p == 0x20000 * q + r
    ensures p % 512 == r % 512
  {
    assert p == 512 * (256 * q) + r;
  }

  lemma BasePlus(pbase: Word, off: nat)
    requires pbase % 0x1000 == 0
    ensures (pbase + off) / 0x1000 == pbase / 0x1000 + off / 0x1000
  {
  }

  lemma BaseAligned(pbase: Word, bits: nat)
    requires PageSize(bits) && pbase % Pow2(bits) == 0
    ensures pbase % 0x1000 == 0
  {
    hide Pow2;
    PageSizes();
    var q := pbase / Pow2(bits);
    var n := PageCount(bits);
    assert Pow2(bits) == 0x1000 * n;
    assert pbase == Pow2(bits) * q;
    assert pbase == 0x1000 * (n * q);
    DivModUnique(pbase, 0x1000, n * q, 0);
  }

  /** The index keeps a 2 MiB entry serving only the 4 KiB page it was filled for. */
  lemma HitLands(entries: seq<Entry>, generation: Word, va: Word, access: Access, asid: Asid, mode: Privilege,
                 mxr: bool, sum: bool)
    requires |entries| == SIZE
    requires var e := entries[Index(va)]; WellFormed(e) && e.pageBits != 30
    ensures var r := Lookup(entries, generation, va, access, asid, mode, mxr, sum);
            r.Some? ==> r.value / 0x1000 == ServedPage(entries[Index(va)], Index(va))
  {
    hide Grants, Bits, Pow2, Index, PageCount;
    var e := entries[Index(va)];
    var off := va % Pow2(e.pageBits);
    ModBound(va, Pow2(e.pageBits));
    OrDisjoint(e.pbase, off, e.pageBits);
    SubPage(va, e.pageBits);
    BaseAligned(e.pbase, e.pageBits);
    BasePlus(e.pbase, off);
  }

  // W^X ------------------------------------------------------------------------------------------

  /** No resident entry lets stores through to an executed page it serves.  Mappings wider
      than 2 MiB are not covered. */
  ghost predicate WritableXorExecuted(entries: seq<Entry>, generation: Word, executed: seq<bool>)
  {
    forall i | 0 <= i < |entries| && entries[i].generation == generation && CanWrite(entries[i].perm)
        && entries[i].pageBits != 30 ::
      !Executed(executed, ServedPage(entries[i], i))
  }

  /** So no store hit, through any virtual alias, lands on an executed page. */
  lemma NoStoreHit(entries: seq<Entry>, generation: Word, executed: seq<bool>, va: Word, asid: Asid, mode: Privilege,
                   mxr: bool, sum: bool)
    requires |entries| == SIZE && WritableXorExecuted(entries, generation, executed)
    requires var e := entries[Index(va)]; WellFormed(e) && e.pageBits != 30
    ensures var r := Lookup(entries, generation, va, STORE, asid, mode, mxr, sum);
            r.Some? ==> !Executed(executed, r.value / 0x1000)
  {
    hide Bits, Pow2;
    HitLands(entries, generation, va, STORE, asid, mode, mxr, sum);
  }

  lemma ServedIsCovered(e: Entry, generation: Word, i: nat)
    requires PageSize(e.pageBits) && e.generation == generation && CanWrite(e.perm)
    ensures Covers(e, generation, ServedPage(e, i))
  {
  }

  /** Marking a page that no resident writable entry serves keeps W^X, and only that does. */
  lemma MarkExactly(entries: seq<Entry>, generation: Word, executed: seq<bool>, executed': seq<bool>, page: nat)
    requires WritableXorExecuted(entries, generation, executed)
    requires Executed(executed', page) && forall p: nat | p != page :: Executed(executed', p) == Executed(executed, p)
    ensures WritableXorExecuted(entries, generation, executed') <==>
            forall i | 0 <= i < |entries| && entries[i].generation == generation && CanWrite(entries[i].perm)
                && entries[i].pageBits != 30 ::
              ServedPage(entries[i], i) != page
  {
    if !WritableXorExecuted(entries, generation, executed') {
      var i :| 0 <= i < |entries| && entries[i].generation == generation && CanWrite(entries[i].perm)
          && entries[i].pageBits != 30 &&
        Executed(executed', ServedPage(entries[i], i));
      assert ServedPage(entries[i], i) == page;
    }
  }

  // The entry insert() builds -----------------------------------------------------------------------

  /** The permission bits with W and D cleared. */
  function WithoutWrite(perm: Byte): (r: Byte)
    ensures !CanWrite(r) && !IsDirty(r) && CanRead(r) == CanRead(perm) && CanExec(r) == CanExec(perm)
    ensures IsUser(r) == IsUser(perm)
  {
    PermParts(perm, perm % 2, perm / 2 % 2, perm / 4 % 2, perm / 8 % 2, perm / 16 % 2, perm / 32 % 2, perm / 64);
    PermParts(perm % 2 + perm / 4 % 2 * 4 + perm / 8 % 2 * 8 + perm / 16 % 2 * 16 + perm / 64 * 64,
              perm % 2, 0, perm / 4 % 2, perm / 8 % 2, perm / 16 % 2, 0, perm / 64);
    perm % 2 + perm / 4 % 2 * 4 + perm / 8 % 2 * 8 + perm / 16 % 2 * 16 + perm / 64 * 64
  }

  lemma PermParts(perm: nat, r: nat, w: nat, x: nat, u: nat, a: nat, d: nat, h: nat)
    requires r < 2 && w < 2 && x < 2 && u < 2 && a < 2 && d < 2
    ensures perm == r + 2 * w + 4 * x + 8 * u + 16 * a + 32 * d + 64 * h ==>
              perm % 2 == r && perm / 2 % 2 == w && perm / 4 % 2 == x && perm / 8 % 2 == u && perm / 32 % 2 == d
  {
    if perm == r + 2 * w + 4 * x + 8 * u + 16 * a + 32 * d + 64 * h {
      hide *;
      var p32 := d + 2 * h;
      var p8 := u + 2 * a + 4 * p32;
      var p4 := x + 2 * p8;
      var p2 := w + 2 * p4;
      DivModUnique(perm, 2, p2, r);
      DivModUnique(perm, 4, p4, r + 2 * w);
      DivModUnique(perm, 8, p8, r + 2 * w + 4 * x);
      DivModUnique(perm, 32, p32, r + 2 * w + 4 * x + 8 * u + 16 * a);
      DivModUnique(p2, 2, p4, w);
      DivModUnique(p4, 2, p8, x);
      DivModUnique(p8, 2, a + 2 * p32, u);
      DivModUnique(p32, 2, h, d);
    }
  }

  function Filled(va: Word, pa: Word, bits: nat, perm: Byte, asid: Asid, global: bool, host: Option<Word>,
                  generation: Word, executed: seq<bool>): Entry
    requires PageSize(bits)
  {
    PageSizes();
    var vbase := PageBase(va, bits);
    var pbase := PageBase(pa, bits);
    var leaf := (pbase + Offset(va, bits)) / 0x1000;
    Entry(M64 - Pow2(bits), vbase, generation, if host.Some? then U64(host.value - vbase) else 0, pbase, asid, bits,
          if CanWrite(perm) && Executed(executed, leaf) then WithoutWrite(perm) else perm, global)
  }

  lemma FilledOk(va: Word, pa: Word, bits: nat, perm: Byte, asid: Asid, global: bool, host: Option<Word>,
                 generation: Word, executed: seq<bool>)
    requires PageSize(bits)
    ensures var e := Filled(va, pa, bits, perm, asid, global, host, generation, executed);
            && WellFormed(e) && e.generation == generation && e.pageBits == bits
            && (CanWrite(e.perm) && bits != 30 ==> !Executed(executed, ServedPage(e, Index(va))))
  {
    hide Pow2, WithoutWrite;
    PageSizes();
    Aligned(va, Pow2(bits));
    Aligned(pa, Pow2(bits));
    var e := Filled(va, pa, bits, perm, asid, global, host, generation, executed);
    BaseAligned(e.pbase, bits);
    BasePlus(e.pbase, Offset(va, bits));
    if bits != 30 { SubPage(va, bits); }
  }

  lemma Aligned(x: nat, m: nat)
    requires m > 0
    ensures (x - x % m) % m == 0
  {
    assert x - x % m == x / m * m;
    MultipleMod(x / m, m);
  }

  lemma MultipleMod(q: nat, m: nat)
    requires m > 0
    ensures q * m % m == 0
  {
    DivModUnique(q * m, m, q, 0);
  }

  /** The census step of replacing entry i: its credits go, the new entry's come. */
  lemma CensusStep(entries: seq<Entry>, generation: Word, writable: seq<nat>, i: nat, e: Entry, dropped: seq<nat>,
                   added: seq<nat>)
    requires i < |entries| && Exact(entries, generation, writable, false) && e.generation == generation
    requires Debited(writable, dropped, entries[i], generation)
    requires Credited(dropped, added, e, generation)
    requires CanWrite(e.perm) ==> PageCount(e.pageBits) <= CREDIT_CAP_PAGES
    requires Unsaturated(entries[i := e], generation)
             || forall p: nat | Covers(e, generation, p) :: Credit(dropped, p) != 255
    ensures Exact(entries[i := e], generation, added, false)
  {
    hide Covers, Credit, CanWrite;
    forall page: nat ensures Credit(added, page) == Count(entries[i := e], generation, page, |entries|) {
      CountUpdate(entries, generation, page, |entries|, i, e);
      if Unsaturated(entries[i := e], generation) {
        assert Count(entries[i := e], generation, page, |entries|) <= 255;
      }
      CoveredCounts(entries, generation, page, |entries|, i);
    }
  }

  lemma {:induction false} CoveredCounts(entries: seq<Entry>, generation: Word, page: nat, n: nat, i: nat)
    requires i < n <= |entries|
    ensures Covers(entries[i], generation, page) ==> Count(entries, generation, page, n) > 0
  {
    if i < n - 1 { CoveredCounts(entries, generation, page, n - 1, i); }
  }

  /** An entry invalidated in place gives its credits back. */
  lemma CensusDrop(entries: seq<Entry>, generation: Word, writable: seq<nat>, i: nat, dropped: seq<nat>)
    requires i < |entries| && Exact(entries, generation, writable, false) && generation != 0
    requires Debited(writable, dropped, entries[i], generation)
    ensures Exact(entries[i := entries[i].(generation := 0)], generation, dropped, false)
  {
    hide Covers, Credit, CanWrite;
    var e := entries[i].(generation := 0);
    forall page: nat ensures Credit(dropped, page) == Count(entries[i := e], generation, page, |entries|) {
      CountUpdate(entries, generation, page, |entries|, i, e);
      CoveredCounts(entries, generation, page, |entries|, i);
      NotResident(e, generation, page);
    }
  }

  lemma NotResident(e: Entry, generation: Word, page: nat)
    requires e.generation != generation
    ensures !Covers(e, generation, page)
  {
  }

  /** After a flush of everything nothing is resident, and an empty census is right. */
  lemma CensusEmpty(entries: seq<Entry>, generation: Word, writable: seq<nat>)
    requires forall i | 0 <= i < |entries| :: entries[i].generation != generation
    requires forall p: nat :: Credit(writable, p) == 0
    ensures Exact(entries, generation, writable, false)
  {
    forall page: nat ensures Count(entries, generation, page, |entries|) == 0 {
      CountZero(entries, generation, page, |entries|);
    }
  }

  lemma WideOnly(bits: nat)
    requires PageSize(bits)
    ensures PageCount(bits) <= CREDIT_CAP_PAGES <==> bits != 30
  {
  }

  lemma ReadOnly(e: Entry, generation: Word, dropped: seq<nat>, added: seq<nat>)
    requires !CanWrite(e.perm) ==> added == dropped
    ensures !CanWrite(e.perm) ==> Credited(dropped, added, e, generation)
  {
  }

  /** A resident writable mapping too wide for the census. */
  predicate WideWrite(e: Entry, generation: Word)
  {
    e.generation == generation && CanWrite(e.perm) && PageCount(e.pageBits) > CREDIT_CAP_PAGES
  }

  /** A page the entry makes writable has no room in its credit. */
  ghost predicate Overflows(e: Entry, writable: seq<nat>)
  {
    PageCount(e.pageBits) <= CREDIT_CAP_PAGES
        && exists p: nat :: Covers(e, e.generation, p) && Credit(writable, p) == 255
  }

  ghost predicate FullWithin(writable: seq<nat>, first: nat, n: nat)
  {
    exists p: nat :: first <= p < first + n && Credit(writable, p) == 255
  }

  lemma OneMorePage(writable: seq<nat>, first: nat, n: nat)
    ensures FullWithin(writable, first, n + 1) <==> FullWithin(writable, first, n) || Credit(writable, first + n) == 255
  {
    hide Credit;
    if FullWithin(writable, first, n) {
      var p: nat :| first <= p < first + n && Credit(writable, p) == 255;
      assert first <= p < first + (n + 1);
    }
  }

  /** With an exact census, an entry overflows exactly if a page would have more than 255
      writable entries. */
  lemma OverflowsExactly(entries: seq<Entry>, generation: Word, writable: seq<nat>, i: nat, e: Entry, dropped: seq<nat>)
    requires i < |entries| && Exact(entries, generation, writable, false) && e.generation == generation
    requires Unsaturated(entries, generation) && PageCount(e.pageBits) <= CREDIT_CAP_PAGES
    requires Debited(writable, dropped, entries[i], generation)
    ensures Overflows(e, dropped) <==> !Unsaturated(entries[i := e], generation)
  {
    hide Covers, Credit, CanWrite, Count;
    forall p: nat
      ensures Count(entries[i := e], generation, p, |entries|) == Credit(dropped, p)
              + (if Covers(e, generation, p) then 1 else 0)
      ensures Credit(dropped, p) <= 255
    {
      CountUpdate(entries, generation, p, |entries|, i, e);
      CoveredCounts(entries, generation, p, |entries|, i);
      assert Count(entries, generation, p, |entries|) <= 255;
    }
    if Overflows(e, dropped) {
      var p: nat :| Covers(e, e.generation, p) && Credit(dropped, p) == 255;
      assert Count(entries[i := e], generation, p, |entries[i := e]|) == 256;
    }
    if !Unsaturated(entries[i := e], generation) {
      var p: nat :| Count(entries[i := e], generation, p, |entries[i := e]|) > 255;
      assert Covers(e, e.generation, p) && Credit(dropped, p) == 255;
    }
  }

  /** Unless the new entry overflows a credit, the census stays exact. */
  lemma InsertCensus(entries: seq<Entry>, generation: Word, writable: seq<nat>, i: nat, e: Entry, dropped: seq<nat>,
                     added: seq<nat>)
    requires i < |entries| && Exact(entries, generation, writable, false) && e.generation == generation
    requires PageCount(e.pageBits) <= CREDIT_CAP_PAGES
    requires Debited(writable, dropped, entries[i], generation)
    requires Credited(dropped, added, e, generation)
    ensures !Overflows(e, dropped) ==> Exact(entries[i := e], generation, added, false)
    ensures Unsaturated(entries, generation) ==> (Overflows(e, dropped) <==> !Unsaturated(entries[i := e], generation))
  {
    hide Covers, Credit, CanWrite, Count, Exact, Unsaturated;
    if !Overflows(e, dropped) { CensusStep(entries, generation, writable, i, e, dropped, added); }
    if Unsaturated(entries, generation) { OverflowsExactly(entries, generation, writable, i, e, dropped); }
  }

  /** The entry's credits are given back. */
  ghost predicate Debited(before: seq<nat>, after: seq<nat>, e: Entry, generation: Word)
  {
    forall p: nat :: Credit(after, p) == Credit(before, p) -
                       if Covers(e, generation, p) && Credit(before, p) != 0 then 1 else 0
  }

  /** The entry's credits are taken, as far as they can be counted. */
  ghost predicate Credited(before: seq<nat>, after: seq<nat>, e: Entry, generation: Word)
  {
    forall p: nat :: Credit(after, p) == Credit(before, p) +
                       if Covers(e, generation, p) && Credit(before, p) != 255 then 1 else 0
  }

  lemma PutXor(entries: seq<Entry>, generation: Word, executed: seq<bool>, i: nat, e: Entry)
    requires i < |entries| && (CanWrite(e.perm) && e.pageBits != 30 ==> !Executed(executed, ServedPage(e, i)))
    ensures WritableXorExecuted(entries, generation, executed) ==>
              WritableXorExecuted(entries[i := e], generation, executed)
  {
  }

  lemma ExactNarrow(entries: seq<Entry>, generation: Word, writable: seq<nat>, i: nat)
    requires i < |entries|
    ensures Exact(entries, generation, writable, false) ==> !WideWrite(entries[i], generation)
  {
  }

  lemma NarrowUpdate(entries: seq<Entry>, generation: Word, i: nat, e: Entry)
    requires i < |entries| && (entries[i].generation == generation ==> WellFormed(entries[i]))
    ensures Narrow(entries, generation) && (e.generation == generation ==> e.pageBits != 30) ==>
              Narrow(entries[i := e], generation)
    ensures Narrow(entries, generation) ==> !WideWrite(entries[i], generation)
  {
  }

  /** What SFENCE.VMA with an optional address and an optional ASID removes. */
  predicate Fenced(i: nat, e: Entry, va: Option<Word>, asid: Option<Asid>)
  {
    (va.Some? ==> i == Index(va.value)) && (asid.Some? ==> !e.global && e.asid == asid.value)
  }

  /** Exactly the fenced resident entries are gone. */
  ghost predicate Flushed(before: seq<Entry>, after: seq<Entry>, generation: Word, va: Option<Word>, asid: Option<Asid>,
                          n: nat)
  {
    && |after| == |before|
    && forall i: nat | i < |before| ::
         after[i] == if i < n && before[i].generation == generation
             && Fenced(i, before[i], va, asid) then before[i].(generation := 0)
                     else before[i]
  }

  lemma NoneResident(entries: seq<Entry>, generation: Word, page: nat)
    requires forall i | 0 <= i < |entries| :: entries[i].generation < generation
    ensures forall i | 0 <= i < |entries| :: !Covers(entries[i], generation, page)
  {
  }

  lemma Uncovered(entries: seq<Entry>, generation: Word, executed: seq<bool>, marked: seq<bool>, page: nat)
    requires WritableXorExecuted(entries, generation, executed)
    requires forall i | 0 <= i < |entries| && entries[i].generation == generation :: WellFormed(entries[i])
    requires Executed(marked, page) && forall p: nat | p != page :: Executed(marked, p) == Executed(executed, p)
    requires forall i | 0 <= i < |entries| :: !Covers(entries[i], generation, page)
    ensures WritableXorExecuted(entries, generation, marked)
  {
    MarkExactly(entries, generation, executed, marked, page);
    forall i | 0 <= i < |entries| && entries[i].generation == generation && CanWrite(entries[i].perm)
        && entries[i].pageBits != 30
      ensures ServedPage(entries[i], i) != page
    {
      ServedIsCovered(entries[i], generation, i);
    }
  }

  class Tlb {
    var entries: seq<Entry>
    var generation: Word
    var writable: seq<nat>
    var oversized: bool
    /** Since the last flush of everything, some credit could not be counted up.  The code does
        not keep this; its runs are judged by it. */
    var saturated: bool

    constructor ()
      ensures forall executed: seq<bool> :: Guards(executed)
      ensures !saturated
      ensures Valid() && generation == 1 && Exact(entries, generation, writable, oversized) && !oversized
      ensures forall i | 0 <= i < SIZE :: entries[i].generation != generation
      ensures forall executed: seq<bool> :: WritableXorExecuted(entries, generation, executed)
    {
      entries := seq(SIZE, _ => NO_ENTRY);
      generation := 1;
      writable := [];
      oversized := false;
      saturated := false;
      new;
      CensusEmpty(entries, generation, writable);
    }

    ghost predicate Valid()
      reads this
    {
      && |entries| == SIZE && generation > 0
      && (forall i | 0 <= i < SIZE :: entries[i].generation <= generation)
      && (forall i | 0 <= i < SIZE && entries[i].generation == generation :: WellFormed(entries[i]))
    }

    /** The census is exact, W^X holds, and no live mapping is wider than 2 MiB. */
    ghost predicate Guards(executed: seq<bool>)
      reads this
    {
      && !oversized && Exact(entries, generation, writable, oversized)
      && WritableXorExecuted(entries, generation, executed) && Narrow(entries, generation)
    }

    method AddWritable(e: Entry)
      requires WellFormed(e)
      modifies this`writable, this`oversized, this`saturated
      ensures CanWrite(e.perm) && PageCount(e.pageBits) > CREDIT_CAP_PAGES ==> oversized && writable == old(writable)
      ensures !CanWrite(e.perm) || PageCount(e.pageBits) <= CREDIT_CAP_PAGES ==> oversized == old(oversized)
      ensures PageCount(e.pageBits) <= CREDIT_CAP_PAGES ==> Credited(old(writable), writable, e, e.generation)
      ensures !CanWrite(e.perm) ==> writable == old(writable)
      ensures saturated <==> old(saturated) || Overflows(e, old(writable))
    {
      hide Pow2, WellFormed;
      if !CanWrite(e.perm) { return; }
      var first, pages := e.pbase / 0x1000, PageCount(e.pageBits);
      if pages > CREDIT_CAP_PAGES {
        oversized := true;
        return;
      }
      if first + pages > |writable| {
        writable := writable + seq(first + pages + 8192 - |writable|, _ => 0);
      }
      for i := 0 to pages
        invariant |writable| >= first + pages && oversized == old(oversized)
        invariant saturated <==> old(saturated) || FullWithin(old(writable), first, i)
        invariant forall p: nat :: Credit(writable, p) == Credit(old(writable), p) +
                    if first <= p < first + i && Credit(old(writable), p) != 255 then 1 else 0
      {
        assert Credit(writable, first + i) == Credit(old(writable), first + i);
        OneMorePage(old(writable), first, i);
        if writable[first + i] != 255 {
          writable := writable[first + i := writable[first + i] + 1];
        } else {
          saturated := true;
        }
      }
    }

    method DropWritable(e: Entry)
      requires WellFormed(e) || e.generation != generation
      modifies this`writable, this`oversized
      ensures WideWrite(e, generation) ==> oversized && writable == old(writable)
      ensures !WideWrite(e, generation) ==>
                oversized == old(oversized) && Debited(old(writable), writable, e, generation)
    {
      hide Pow2, WellFormed;
      if e.generation != generation || !CanWrite(e.perm) { return; }
      var first, pages := e.pbase / 0x1000, PageCount(e.pageBits);
      if pages > CREDIT_CAP_PAGES {
        oversized := true;
        return;
      }
      var i := 0;
      while first + i < |writable|
        invariant 0 <= i <= pages && |writable| == |old(writable)| && oversized == old(oversized)
        invariant forall p: nat :: Credit(writable, p) == Credit(old(writable), p) -
                    if first <= p < first + i && Credit(old(writable), p) != 0 then 1 else 0
      {
        if i >= pages { break; }
        if writable[first + i] != 0 {
          writable := writable[first + i := writable[first + i] - 1];
        }
        i := i + 1;
      }
    }

    /** Fills the slot of va.  The census stays right unless the mapping is wider than
        2 MiB or a page would have more than 255 writable entries. */
    method Insert(va: Word, pa: Word, bits: nat, perm: Byte, asid: Asid, global: bool, host: Option<Word>,
                  executed: seq<bool>)
      requires Valid() && PageSize(bits)
      modifies this`entries, this`writable, this`oversized, this`saturated
      ensures Valid()
      ensures old(saturated) ==> saturated
      ensures old(Guards(executed)) && bits != 30 && !saturated ==> Guards(executed)
      ensures old(Guards(executed)) && bits != 30 && !old(saturated) && old(Unsaturated(entries, generation)) ==>
                (saturated <==> !Unsaturated(entries, generation))
      ensures entries == old(entries)[Index(va) := Filled(va, pa, bits, perm, asid, global, host, generation, executed)]
      ensures old(Honest(entries, generation, writable, oversized)) && Unsaturated(entries, generation) ==>
                Honest(entries, generation, writable, oversized)
      ensures oversized == (old(oversized) || WideWrite(old(entries)[Index(va)], generation)
                            || WideWrite(entries[Index(va)], generation))
      ensures old(WritableXorExecuted(entries, generation, executed)) ==>
                WritableXorExecuted(entries, generation, executed)
    {
      hide Filled, Covers, Credit, Count, WellFormed, ServedPage, PageCount, CanWrite, Exact, Unsaturated, Overflows,
           WritableXorExecuted, Narrow, Index, Debited, Credited;
      var i := Index(va);
      var e := Filled(va, pa, bits, perm, asid, global, host, generation, executed);
      FilledOk(va, pa, bits, perm, asid, global, host, generation, executed);
      DropWritable(entries[i]);
      ghost var dropped := writable;
      entries := entries[i := e];
      AddWritable(e);
      ghost var before := old(entries);
      WideOnly(bits);
      ExactNarrow(before, generation, old(writable), i);
      if !old(oversized) && !oversized && old(Exact(entries, generation, writable, oversized)) {
        if Unsaturated(entries, generation) {
          ReadOnly(e, generation, dropped, writable);
          CensusStep(before, generation, old(writable), i, e, dropped, writable);
        }
        if bits != 30 { InsertCensus(before, generation, old(writable), i, e, dropped, writable); }
      }
      NarrowUpdate(before, generation, i, e);
      PutXor(before, generation, executed, i, e);
    }

    /** Everything goes; the census starts over and is right again. */
    method FlushAll()
      requires Valid() && generation < M64 - 1
      modifies this`generation, this`writable, this`oversized, this`saturated
      ensures Valid() && generation == old(generation) + 1 && !oversized
      ensures Exact(entries, generation, writable, oversized)
      ensures !saturated && forall executed: seq<bool> :: Guards(executed)
      ensures forall i | 0 <= i < SIZE :: entries[i].generation != generation
      ensures forall executed: seq<bool> :: WritableXorExecuted(entries, generation, executed)
    {
      hide WellFormed;
      generation := generation + 1;
      writable := seq(|writable|, _ => 0);
      oversized, saturated := false, false;
      CensusEmpty(entries, generation, writable);
    }

    /** Invalidates slot i in place. */
    method Invalidate(i: nat)
      requires Valid() && i < SIZE && entries[i].generation == generation
      modifies this`entries, this`writable, this`oversized
      ensures Valid() && entries == old(entries)[i := old(entries)[i].(generation := 0)]
      ensures old(Honest(entries, generation, writable, oversized)) ==> Honest(entries, generation, writable, oversized)
      ensures forall executed: seq<bool> | old(WritableXorExecuted(entries, generation, executed)) ::
                WritableXorExecuted(entries, generation, executed)
      ensures forall executed: seq<bool> | old(Guards(executed)) :: Guards(executed)
    {
      hide WellFormed, Covers, Credit, Count, ServedPage;
      DropWritable(entries[i]);
      entries := entries[i := entries[i].(generation := 0)];
      if old(Honest(entries, generation, writable, oversized)) && !oversized {
        CensusDrop(old(entries), generation, old(writable), i, writable);
      }
      NarrowUpdate(old(entries), generation, i, entries[i]);
    }

    /** SFENCE.VMA with an address: the one slot that could serve va. */
    method FlushAddr(va: Word)
      requires Valid()
      modifies this`entries, this`writable, this`oversized
      ensures Valid() && Flushed(old(entries), entries, generation, Some(va), None, SIZE)
      ensures old(Honest(entries, generation, writable, oversized)) ==> Honest(entries, generation, writable, oversized)
      ensures forall executed: seq<bool> | old(WritableXorExecuted(entries, generation, executed)) ::
                WritableXorExecuted(entries, generation, executed)
      ensures forall executed: seq<bool> | old(Guards(executed)) :: Guards(executed)
    {
      hide WellFormed, Honest, WritableXorExecuted, Index;
      if entries[Index(va)].generation == generation {
        Invalidate(Index(va));
      }
    }

    /** SFENCE.VMA with an address and an ASID. */
    method FlushAddrAsid(va: Word, asid: Asid)
      requires Valid()
      modifies this`entries, this`writable, this`oversized
      ensures Valid() && Flushed(old(entries), entries, generation, Some(va), Some(asid), SIZE)
      ensures old(Honest(entries, generation, writable, oversized)) ==> Honest(entries, generation, writable, oversized)
      ensures forall executed: seq<bool> | old(WritableXorExecuted(entries, generation, executed)) ::
                WritableXorExecuted(entries, generation, executed)
      ensures forall executed: seq<bool> | old(Guards(executed)) :: Guards(executed)
    {
      hide WellFormed, Honest, WritableXorExecuted, Index;
      var e := entries[Index(va)];
      if e.generation == generation && !e.global && e.asid == asid {
        Invalidate(Index(va));
      }
    }

    /** SFENCE.VMA with an ASID: every non-global entry of it. */
    method FlushAsid(asid: Asid)
      requires Valid()
      modifies this`entries, this`writable, this`oversized
      ensures Valid() && Flushed(old(entries), entries, generation, None, Some(asid), SIZE)
      ensures old(Honest(entries, generation, writable, oversized)) ==> Honest(entries, generation, writable, oversized)
      ensures forall executed: seq<bool> | old(WritableXorExecuted(entries, generation, executed)) ::
                WritableXorExecuted(entries, generation, executed)
      ensures forall executed: seq<bool> | old(Guards(executed)) :: Guards(executed)
    {
      hide WellFormed, Honest, WritableXorExecuted;
      for i := 0 to SIZE
        invariant Valid() && Flushed(old(entries), entries, generation, None, Some(asid), i)
        invariant old(Honest(entries, generation, writable, oversized)) ==>
                    Honest(entries, generation, writable, oversized)
        invariant forall executed: seq<bool> | old(WritableXorExecuted(entries, generation, executed)) ::
                    WritableXorExecuted(entries, generation, executed)
        invariant forall executed: seq<bool> | old(Guards(executed)) :: Guards(executed)
      {
        var e := entries[i];
        if e.generation == generation && !e.global && e.asid == asid {
          Invalidate(i);
        }
      }
    }

    /** A page starts hosting code: drop the entries that still make it writable. */
    method NoteExec(page: nat)
      requires Valid() && generation < M64 - 1
      modifies this`generation, this`writable, this`oversized, this`saturated
      ensures Valid()
      ensures generation == old(generation) + (if !old(oversized) && Credit(old(writable), page) != 0 then 1 else 0)
      ensures oversized == old(oversized)
      ensures saturated == (old(saturated) && generation == old(generation))
      ensures generation != old(generation) ==> forall executed: seq<bool> :: Guards(executed)
      ensures old(Honest(entries, generation, writable, oversized)) ==> Honest(entries, generation, writable, oversized)
      ensures old(Honest(entries, generation, writable, oversized)) ==>
                ((forall i | 0 <= i < SIZE :: !Covers(entries[i], generation, page)) <==>
                 (!old(oversized) || forall i | 0 <= i < SIZE :: !Covers(entries[i], old(generation), page)))
      ensures forall executed: seq<bool> | old(WritableXorExecuted(entries, generation, executed)) ::
                WritableXorExecuted(entries, generation, executed)
      ensures forall executed: seq<bool> | old(Guards(executed)) :: Guards(executed)
    {
      hide WellFormed, WritableXorExecuted, Covers;
      if !oversized && Credit(writable, page) != 0 {
        FlushAll();
        NoneResident(entries, generation, page);
      } else if !oversized {
        CountZero(entries, generation, page, SIZE);
      }
    }

    /** mark_block_executed() for one page: the mark, then note_exec. */
    method MarkExecuted(page: nat, executed: seq<bool>) returns (marked: seq<bool>)
      requires Valid() && generation < M64 - 1
      modifies this`generation, this`writable, this`oversized, this`saturated
      ensures Valid() && old(generation) <= generation <= old(generation) + 1
      ensures generation != old(generation) ==> forall i | 0 <= i < SIZE :: entries[i].generation != generation
      ensures Executed(marked, page) && forall p: nat | p != page :: Executed(marked, p) == Executed(executed, p)
      ensures saturated == (old(saturated) && generation == old(generation))
      ensures old(Guards(executed)) || generation != old(generation) ==> Guards(marked)
    {
      hide WellFormed, WritableXorExecuted, Covers, Exact, Narrow;
      marked := if page >= |executed| then executed + seq(page + 8192 - |executed|, _ => false) else executed;
      marked := marked[page := true];
      NoteExec(page);
      if old(Guards(executed)) { Uncovered(entries, generation, executed, marked, page); }
    }
  }

  /** The header says a wide mapping makes note_exec() flush when in doubt.  It does the
      opposite: here a 1 GiB writable mapping survives it, still covering the page. */
  method WideMappingSurvives() returns (page: nat, before: Entry, after: Entry, generation: Word)
    ensures Covers(before, 1, page) && after == before && generation == 1
  {
    hide WithoutWrite, Pow2, WellFormed, Exact, WritableXorExecuted;
    PageSizes();
    page := 0x80000;
    var t := new Tlb();
    t.Insert(0x8000_0000, 0x8000_0000, 30, 63, 0, true, None, []);
    before := t.entries[Index(0x8000_0000)];
    assert WideWrite(before, 1);
    t.NoteExec(page);
    after, generation := t.entries[Index(0x8000_0000)], t.generation;
  }
}
