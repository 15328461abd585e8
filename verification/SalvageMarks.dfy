/** A run in which salvage marks a page again while a live TLB entry still lets stores through
    to it: salvage calls mark_page_code without note_exec (rvjit.cpp). */
module SalvageMarks {
  import opened Words
  import opened Options
  import opened TlbEntries
  import opened PageMarks
  import opened Outcomes
  import C = CodeCache
  import T = Tlbs

  const START: nat := 0x8000_0000
  const VA: Word := 0x4000_0000
  const USER: Policy := Policy(User, false, false)

  /** A page with one instruction. */
  function Text(): seq<Byte> { seq(0x1000, i => if i == 0 then 0x13 else 0) }

  /** After compiling and a new epoch, the same text can be salvaged. */
  lemma CanSalvage(w: C.World, ways: seq<C.Way>, issued: set<C.Issue>, w': C.World, code: C.Code)
    requires |ways| == C.BUCKETS * C.WAYS && C.Sound(w, ways, issued) && C.Live(w, START, code) && |code.text| > 0
    requires C.Cached(ways, START, USER, w.epoch, code)
    requires w'.epoch != w.epoch && w'.arenaGen == w.arenaGen && w'.ram == w.ram && w'.base == w.base
    ensures exists k :: 0 <= k < C.WAYS && C.Salvageable(w', C.Bucket(ways, START)[k], START, USER)
  {
    hide C.IndexOf, C.Bucket, C.Sound;
    var k :| 0 <= k < C.WAYS && C.Hit(C.Bucket(ways, START)[k], START, USER, w.epoch)
        && C.Bucket(ways, START)[k].code == code;
    C.BucketAt(ways, START, k);
    C.StaleWay(w, ways, issued, C.IndexOf(START) * C.WAYS + k);
    assert C.Salvageable(w', C.Bucket(ways, START)[k], START, USER);
  }

  /** Writing a byte that is there already drops the stale mark and nothing else. */
  lemma MarkDropped(w: C.World)
    requires w.base == START && w.ram == Text() && Executed(w.executed, 0x80000)
    requires !C.CodeAt(w.codeGen, 0x80000, w.epoch)
    ensures C.InRam(w, START, 1)
    ensures C.Stored(w, START, [0x13]) == w.(executed := w.executed[0x80000 := false])
    ensures !C.Overlooked(w, START, [0x13])
  {
    assert Text()[..0] + [0x13] + Text()[1..] == Text();
  }

  /** The entry a user page gets while its page has no mark lets stores through. */
  lemma StoreHits(entries: seq<Entry>, generation: Word, executed: seq<bool>, va: Word, pa: Word)
    requires |entries| == SIZE && !Executed(executed, pa / C.PAGE) && va % C.PAGE == 0 && pa % C.PAGE == 0
    requires entries[Index(va)] == T.Filled(va, pa, 12, 63, 0, false, None, generation, executed)
    ensures Lookup(entries, generation, va, STORE, 0, User, false, false) == Some(pa)
  {
    hide Pow2, Bits, T.WithoutWrite, Index;
    PageSizes();
    OrDisjoint(pa, 0, 12);
  }

  method SalvageLeavesStores() returns (j: C.JitContext, t: T.Tlb)
    ensures Executed(j.executed, START / C.PAGE) && |t.entries| == SIZE
    ensures Lookup(t.entries, t.generation, VA, STORE, 0, User, false, false) == Some(START)
  {
    hide C.Sound, C.IndexOf, C.Bucket, C.Stored, C.Overlooked, Text, T.Exact, T.WritableXorExecuted, T.Filled, Lookup;
    j := new C.JitContext(START, Text());
    t := new T.Tlb();
    TextSize();
    var code := j.Compile(START, USER, 4, 64);
    Marks(j.Now(), code);
    ghost var w := j.Now();
    t.NoteExec(START / C.PAGE);
    j.InvalidateAll();
    ghost var stale := j.Now();
    MarkDropped(stale);
    j.StoreChecked(START, [0x13]);
    CanSalvage(w, j.ways, j.issued, j.Now(), code);
    t.Insert(VA, START, 12, 63, 0, false, None, j.executed);
    StoreHits(t.entries, t.generation, j.executed, VA, START);
    var r := j.Salvage(START, USER);
    Marks(j.Now(), r.value);
  }

  lemma TextSize()
    ensures |Text()| == 0x1000
  {
  }

  lemma Marks(w: C.World, code: C.Code)
    requires C.Live(w, START, code) && |code.text| > 0
    ensures Executed(w.executed, 0x80000) && C.CodeAt(w.codeGen, 0x80000, w.epoch)
  {
    assert C.Touches(START, |code.text|, 0x80000);
  }
}
