/** The cache of compiled blocks and the self-modifying-code protocol that keeps it in
    step with guest memory (rvjit.cpp, self_mod.hpp). */
module CodeCache {
  import opened Words
  import opened Options
  import opened TlbEntries
  import opened Outcomes
  import opened PageMarks

  const WAYS: nat := 8
  const BUCKETS: nat := 0x40000
  const ARENA_BYTES: nat := 0x40_0000
  const MAX_CACHE_BYTES: nat := 0x4000_0000
  const PAGE: nat := 0x1000
  const HITS_LIMIT: nat := 0x1_0000_0000

  /** Host code: the guest bytes it was compiled from, and the arena generation its
      bytes live in. */
  datatype Code = Code(text: seq<Byte>, arena: nat)

  /** One way of the cache.  `digest` is the text the stored digest stands for. */
  datatype Way = Way(valid: bool, code: Code, start: nat, epoch: nat, policy: Policy, hits: nat, bytes: nat,
                     digest: seq<Byte>, arenaGen: nat)

  /** A block handed to the runner, and the epoch it was current at. */
  datatype Issue = Issue(start: nat, code: Code, epoch: nat)

  /** What the cache's entries are judged against: the global counters, the page marks
      and guest memory. */
  datatype World = World(epoch: nat, arenaGen: nat, executed: seq<bool>, codeGen: seq<nat>, base: nat, ram: seq<Byte>)

  function IndexOf(phys: nat): (i: nat)
    ensures i < BUCKETS
  {
    U64(Bits(Xor, phys / 2, phys / 2 / 0x2_0000) * 0x9E37_79B9_7F4A_7C15) / 0x10_0000 % BUCKETS
  }

  predicate CodeAt(codeGen: seq<nat>, page: nat, epoch: nat) { page < |codeGen| && codeGen[page] == epoch }

  function FirstPage(start: nat): nat { start / PAGE }
  function EndPage(start: nat, bytes: nat): nat { (start + bytes + 0xFFF) / PAGE }

  /** The block of `bytes` bytes at `start` has its marks on this page. */
  predicate Touches(start: nat, bytes: nat, page: nat) { FirstPage(start) <= page < EndPage(start, bytes) }

  lemma TextOnPages(start: nat, bytes: nat, at: nat)
    requires start <= at < start + bytes
    ensures Touches(start, bytes, at / PAGE)
  {
  }

  predicate InRam(w: World, start: nat, bytes: nat) { w.base <= start && start - w.base + bytes <= |w.ram| }

  function TextAt(w: World, start: nat, bytes: nat): seq<Byte>
    requires InRam(w, start, bytes)
  {
    w.ram[start - w.base..start - w.base + bytes]
  }

  /** Code that may run now: its text is what memory holds, its pages are watched at
      the current epoch, and its arena has not been released. */
  ghost predicate Live(w: World, start: nat, code: Code)
  {
    && InRam(w, start, |code.text|) && TextAt(w, start, |code.text|) == code.text
    && (forall page: nat | Touches(start, |code.text|, page) ::
          Executed(w.executed, page) && CodeAt(w.codeGen, page, w.epoch))
    && code.arena == w.arenaGen
  }

  ghost predicate WayOk(w: World, e: Way)
  {
    && e.bytes == |e.code.text| && e.digest == e.code.text && e.arenaGen == e.code.arena
    && e.epoch <= w.epoch && e.arenaGen <= w.arenaGen
    && (e.epoch == w.epoch ==> Live(w, e.start, e.code))
  }

  /** The invariant of every run: whatever is keyed at the current epoch, in the cache or
      already handed out, is live. */
  ghost predicate Sound(w: World, ways: seq<Way>, issued: set<Issue>)
  {
    && (forall i | 0 <= i < |ways| && ways[i].valid :: WayOk(w, ways[i]))
    && (forall i | i in issued :: i.epoch <= w.epoch && (i.epoch == w.epoch ==> Live(w, i.start, i.code)))
  }

  // The four ways the world moves -----------------------------------------------------------

  /** Page marks only grow. */
  ghost predicate Marked(w: World, w': World)
  {
    && w'.epoch == w.epoch && w'.arenaGen == w.arenaGen && w'.base == w.base && w'.ram == w.ram
    && (forall p: nat | Executed(w.executed, p) :: Executed(w'.executed, p))
    && (forall p: nat | CodeAt(w.codeGen, p, w.epoch) :: CodeAt(w'.codeGen, p, w.epoch))
  }

  lemma MarkedSound(w: World, w': World, ways: seq<Way>, issued: set<Issue>)
    requires Sound(w, ways, issued) && Marked(w, w')
    ensures Sound(w', ways, issued)
  {
  }

  /** A new epoch: nothing is keyed at it yet. */
  lemma BumpedSound(w: World, w': World, ways: seq<Way>, issued: set<Issue>)
    requires Sound(w, ways, issued) && w'.epoch > w.epoch && w'.arenaGen >= w.arenaGen
    ensures Sound(w', ways, issued)
  {
  }

  /** The mark of a page without current code is dropped. */
  lemma DroppedSound(w: World, w': World, ways: seq<Way>, issued: set<Issue>, page: nat)
    requires Sound(w, ways, issued) && w'.(executed := w.executed) == w
    requires !CodeAt(w.codeGen, page, w.epoch)
    requires forall p: nat | p != page && Executed(w.executed, p) :: Executed(w'.executed, p)
    ensures Sound(w', ways, issued)
  {
  }

  /** The page hosts code of the current epoch and still has its mark. */
  predicate Watched(w: World, page: nat) { Executed(w.executed, page) && CodeAt(w.codeGen, page, w.epoch) }

  /** Only memory changes. */
  ghost predicate Wrote(w: World, w': World) { w'.(ram := w.ram) == w && |w'.ram| == |w.ram| }

  /** No changed byte lies on a watched page. */
  ghost predicate Unwatched(w: World, w': World)
    requires Wrote(w, w')
  {
    forall i | 0 <= i < |w.ram| && w'.ram[i] != w.ram[i] :: !Watched(w, (w.base + i) / PAGE)
  }

  lemma WroteLive(w: World, w': World, start: nat, code: Code)
    requires Live(w, start, code) && Wrote(w, w') && Unwatched(w, w')
    ensures Live(w', start, code)
  {
    var n := |code.text|;
    forall i | 0 <= i < n
      ensures TextAt(w', start, n)[i] == code.text[i]
    {
      TextOnPages(start, n, start + i);
      assert w.base + (start - w.base + i) == start + i;
      assert TextAt(w, start, n)[i] == w.ram[start - w.base + i];
    }
    assert TextAt(w', start, n) == code.text;
  }

  lemma WroteSound(w: World, w': World, ways: seq<Way>, issued: set<Issue>)
    requires Sound(w, ways, issued) && Wrote(w, w') && Unwatched(w, w')
    ensures Sound(w', ways, issued)
  {
    hide Live, Unwatched;
    forall i | 0 <= i < |ways| && ways[i].valid ensures WayOk(w', ways[i]) {
      assert WayOk(w, ways[i]);
      if ways[i].epoch == w.epoch { WroteLive(w, w', ways[i].start, ways[i].code); }
    }
    forall i | i in issued ensures i.epoch <= w'.epoch && (i.epoch == w'.epoch ==> Live(w', i.start, i.code)) {
      if i.epoch == w.epoch { WroteLive(w, w', i.start, i.code); }
    }
  }

  /** A changed byte on a watched page breaks the cache that holds just that byte. */
  lemma WatchedBreaks(w: World, w': World, i: nat)
    requires w'.base == w.base && w'.epoch == w.epoch && |w'.ram| == |w.ram|
    requires i < |w.ram| && w'.ram[i] != w.ram[i] && Watched(w, (w.base + i) / PAGE)
    ensures var one := {Issue(w.base + i, Code([w.ram[i]], w.arenaGen), w.epoch)};
            Sound(w, [], one) && !Sound(w', [], one)
  {
    var start, code := w.base + i, Code([w.ram[i]], w.arenaGen);
    assert TextAt(w, start, 1) == code.text;
    assert TextAt(w', start, 1)[0] != code.text[0];
    assert EndPage(start, 1) == FirstPage(start) + 1;
    assert Issue(start, code, w.epoch) in {Issue(start, code, w.epoch)};
  }

  // Stores ------------------------------------------------------------------------------------

  /** smc_store_hit(): the world after a store has reported its page. */
  function Reported(w: World, page: nat): World
  {
    if !Executed(w.executed, page) then w
    else if CodeAt(w.codeGen, page, w.epoch) then w.(epoch := w.epoch + 1)
    else w.(executed := w.executed[page := false])
  }

  function Written(w: World, at: nat, data: seq<Byte>): (w': World)
    requires InRam(w, at, |data|)
    ensures Wrote(w, w')
    ensures forall i | 0 <= i < |w.ram| ::
              w'.ram[i] == if at <= w.base + i < at + |data| then data[w.base + i - at] else w.ram[i]
  {
    var o := at - w.base;
    w.(ram := w.ram[..o] + data + w.ram[o + |data|..])
  }

  /** The interpreter's store: the first page is reported, then the bytes are written. */
  function Stored(w: World, at: nat, data: seq<Byte>): World
    requires InRam(w, at, |data|)
  {
    Written(Reported(w, at / PAGE), at, data)
  }

  /** How many bytes of a store at `at` fit on its first page. */
  function Room(at: nat): nat { PAGE - at % PAGE }

  /** The store crosses into a watched page and changes a byte there, while its first page,
      the only one reported, is not watched. */
  predicate Overlooked(w: World, at: nat, data: seq<Byte>)
    requires InRam(w, at, |data|)
  {
    && !Watched(w, at / PAGE) && |data| > Room(at) && Watched(w, at / PAGE + 1)
    && data[Room(at)..] != TextAt(w, at + Room(at), |data| - Room(at))
  }

  lemma PageOfByte(at: nat, n: nat, k: nat)
    requires k < n <= PAGE
    ensures (at + k) / PAGE == if k < Room(at) then at / PAGE else at / PAGE + 1
  {
    DivModUnique(at + k, PAGE, if k < Room(at) then at / PAGE else at / PAGE + 1,
                 if k < Room(at) then at % PAGE + k else at % PAGE + k - PAGE);
  }

  /** After the report the first page is unwatched or the epoch has moved; no other page
      changes. */
  lemma ReportedSound(w: World, page: nat, ways: seq<Way>, issued: set<Issue>)
    requires Sound(w, ways, issued)
    ensures Sound(Reported(w, page), ways, issued)
  {
    hide Sound;
    if Executed(w.executed, page) {
      if CodeAt(w.codeGen, page, w.epoch) {
        BumpedSound(w, Reported(w, page), ways, issued);
      } else {
        DroppedSound(w, Reported(w, page), ways, issued, page);
      }
    }
  }

  lemma ReportedWatches(w: World, page: nat)
    requires !Watched(w, page)
    ensures var w1 := Reported(w, page);
            w1.epoch == w.epoch && !Watched(w1, page) && forall p: nat | p != page :: Watched(w1, p) == Watched(w, p)
  {
  }

  /** A byte a store that is not overlooked changes lies on its first page or on one without code. */
  lemma ByteChanged(w: World, at: nat, data: seq<Byte>, i: nat)
    requires InRam(w, at, |data|) && 0 < |data| <= 8 && !Overlooked(w, at, data) && !Watched(w, at / PAGE)
    requires i < |w.ram| && Stored(w, at, data).ram[i] != w.ram[i]
    ensures var page := (w.base + i) / PAGE; page == at / PAGE || (page == at / PAGE + 1 && !Watched(w, page))
  {
    hide Watched;
    var k := w.base + i - at;
    PageOfByte(at, |data|, k);
    if k >= Room(at) {
      var r := Room(at);
      assert data[r..][k - r] == data[k] != w.ram[i] == TextAt(w, at + r, |data| - r)[k - r];
    }
  }

  lemma NotOverlooked(w: World, at: nat, data: seq<Byte>, ways: seq<Way>, issued: set<Issue>)
    requires InRam(w, at, |data|) && 0 < |data| <= 8 && !Overlooked(w, at, data) && Sound(w, ways, issued)
    ensures Sound(Stored(w, at, data), ways, issued)
  {
    hide Sound, Watched;
    var w1 := Reported(w, at / PAGE);
    var w2 := Stored(w, at, data);
    ReportedSound(w, at / PAGE, ways, issued);
    if Watched(w, at / PAGE) {
      MovedOn(w, at);
      BumpedSound(w, w2, ways, issued);
    } else {
      ReportedWatches(w, at / PAGE);
      forall i | 0 <= i < |w1.ram| && w2.ram[i] != w1.ram[i] ensures !Watched(w1, (w1.base + i) / PAGE) {
        ByteChanged(w, at, data, i);
      }
      WroteSound(w1, w2, ways, issued);
    }
  }

  lemma MovedOn(w: World, at: nat)
    requires Watched(w, at / PAGE)
    ensures Reported(w, at / PAGE).epoch == w.epoch + 1
  {
  }

  lemma OverlookedBreaks(w: World, at: nat, data: seq<Byte>) returns (one: set<Issue>)
    requires InRam(w, at, |data|) && 0 < |data| <= 8 && Overlooked(w, at, data)
    ensures Sound(w, [], one) && !Sound(Stored(w, at, data), [], one)
  {
    hide Sound;
    var w2 := Stored(w, at, data);
    var r := Room(at);
    var there := TextAt(w, at + r, |data| - r);
    var j :| 0 <= j < |there| && data[r..][j] != there[j];
    var i := at + r + j - w.base;
    ReportedWatches(w, at / PAGE);
    PageOfByte(at, |data|, r + j);
    assert w2.ram[i] == data[r + j] && w.ram[i] == there[j];
    WatchedBreaks(w, w2, i);
    one := {Issue(w.base + i, Code([w.ram[i]], w.arenaGen), w.epoch)};
  }

  /** A store of at most 8 bytes, on one page or across two, leaves every sound cache sound
      exactly if it is not overlooked. */
  lemma StoreSafeExactly(w: World, at: nat, data: seq<Byte>)
    requires InRam(w, at, |data|) && 0 < |data| <= 8
    ensures !Overlooked(w, at, data) <==>
            forall ways: seq<Way>, issued: set<Issue> | Sound(w, ways, issued) ::
                  Sound(Stored(w, at, data), ways, issued)
  {
    hide Sound, Overlooked, Stored;
    if Overlooked(w, at, data) {
      var one := OverlookedBreaks(w, at, data);
    } else {
      forall ways: seq<Way>, issued: set<Issue> | Sound(w, ways, issued)
        ensures Sound(Stored(w, at, data), ways, issued)
      {
        NotOverlooked(w, at, data, ways, issued);
      }
    }
  }

  /** Once the arenas are released nothing installed or handed out before can run. */
  lemma ReleasedDead(w: World, w': World, ways: seq<Way>, issued: set<Issue>)
    requires Sound(w, ways, issued) && w'.epoch > w.epoch && w'.arenaGen > w.arenaGen
    ensures Sound(w', ways, issued)
    ensures forall i | 0 <= i < |ways| && ways[i].valid ::
              ways[i].epoch != w'.epoch && !Live(w', ways[i].start, ways[i].code)
    ensures forall i | i in issued && i.epoch == w.epoch :: i.epoch != w'.epoch && !Live(w', i.start, i.code)
  {
    BumpedSound(w, w', ways, issued);
    forall i | 0 <= i < |ways| && ways[i].valid
      ensures ways[i].epoch != w'.epoch && !Live(w', ways[i].start, ways[i].code)
    {
      assert WayOk(w, ways[i]);
    }
  }

  // Ways ----------------------------------------------------------------------------------------

  predicate Matches(w: Way, phys: nat, p: Policy) { w.valid && w.start == phys && w.policy == p }

  predicate Hit(w: Way, phys: nat, p: Policy, epoch: nat) { Matches(w, phys, p) && w.epoch == epoch }

  /** A stale way whose code still exists and whose text is what memory holds. */
  predicate Salvageable(w: World, e: Way, phys: nat, p: Policy)
  {
    && Matches(e, phys, p) && e.epoch != w.epoch && e.arenaGen == w.arenaGen
    && e.bytes > 0 && InRam(w, phys, e.bytes) && TextAt(w, phys, e.bytes) == e.digest
  }

  /** The victim of an install: the first free way, else the first of those hit least. */
  ghost predicate VictimOk(ways: seq<Way>, v: nat)
    requires |ways| == WAYS
  {
    && v < WAYS
    && if exists w :: 0 <= w < WAYS && !ways[w].valid then
         !ways[v].valid && forall w | 0 <= w < v :: ways[w].valid
       else
         (forall w | 0 <= w < WAYS :: ways[v].hits <= ways[w].hits)
             && forall w | 0 <= w < v :: ways[v].hits < ways[w].hits
  }

  lemma PutSound(w: World, ways: seq<Way>, issued: set<Issue>, i: nat, e: Way)
    requires Sound(w, ways, issued) && i < |ways| && WayOk(w, e)
    ensures Sound(w, ways[i := e], issued)
  {
  }

  lemma IssueSound(w: World, ways: seq<Way>, issued: set<Issue>, start: nat, code: Code)
    requires Sound(w, ways, issued) && Live(w, start, code)
    ensures Sound(w, ways, issued + {Issue(start, code, w.epoch)})
  {
  }

  lemma HitLive(w: World, ways: seq<Way>, issued: set<Issue>, i: nat)
    requires Sound(w, ways, issued) && i < |ways| && ways[i].valid && ways[i].epoch == w.epoch
    ensures Live(w, ways[i].start, ways[i].code)
    ensures forall n: nat :: WayOk(w, ways[i].(hits := n))
  {
  }

  /** A write within one unmarked page. */
  lemma OnePage(w: World, w': World, at: nat, n: nat)
    requires InRam(w, at, n) && 0 < n && at / PAGE == (at + n - 1) / PAGE && !Executed(w.executed, at / PAGE)
    requires Wrote(w, w')
    requires forall i | 0 <= i < |w.ram| && !(at - w.base <= i < at - w.base + n) :: w'.ram[i] == w.ram[i]
    ensures Unwatched(w, w')
  {
    forall i | 0 <= i < |w.ram| && w'.ram[i] != w.ram[i] ensures !Watched(w, (w.base + i) / PAGE) {
      assert at <= w.base + i <= at + n - 1;
      assert (w.base + i) / PAGE == at / PAGE;
    }
  }

  lemma BucketBound(phys: nat)
    ensures IndexOf(phys) * WAYS + WAYS <= BUCKETS * WAYS
  {
  }

  /** The eight ways a physical pc may live in. */
  function Bucket(ways: seq<Way>, phys: nat): (b: seq<Way>)
    requires |ways| == BUCKETS * WAYS
    ensures |b| == WAYS
  {
    BucketBound(phys);
    ways[IndexOf(phys) * WAYS..IndexOf(phys) * WAYS + WAYS]
  }

  lemma BucketAt(ways: seq<Way>, phys: nat, w: nat)
    requires |ways| == BUCKETS * WAYS && w < WAYS
    ensures IndexOf(phys) * WAYS + w < |ways| && Bucket(ways, phys)[w] == ways[IndexOf(phys) * WAYS + w]
  {
    BucketBound(phys);
  }

  /** A way holds this code for this pc and policy, keyed at this epoch. */
  ghost predicate Cached(ways: seq<Way>, phys: nat, p: Policy, epoch: nat, code: Code)
    requires |ways| == BUCKETS * WAYS
  {
    exists w :: 0 <= w < WAYS && Hit(Bucket(ways, phys)[w], phys, p, epoch) && Bucket(ways, phys)[w].code == code
  }

  /** Only hit counters differ. */
  ghost predicate SameButHits(a: seq<Way>, b: seq<Way>)
  {
    |a| == |b| && forall i | 0 <= i < |a| :: a[i].(hits := 0) == b[i].(hits := 0)
  }

  /** No way of the bucket answers for this pc and policy at this epoch. */
  predicate Missing(ways: seq<Way>, phys: nat, p: Policy, epoch: nat)
    requires |ways| == BUCKETS * WAYS
  {
    forall w | 0 <= w < WAYS :: !Hit(Bucket(ways, phys)[w], phys, p, epoch)
  }

  /** What the valid ways hold: where, which code, for which policy. */
  ghost predicate Stocks(ways: seq<Way>, start: nat, code: Code, p: Policy)
  {
    exists i ::
      0 <= i < |ways| && ways[i].valid && ways[i].start == start && ways[i].code == code && ways[i].policy == p
  }

  lemma CachedStocks(ways: seq<Way>, phys: nat, p: Policy, epoch: nat, code: Code)
    requires |ways| == BUCKETS * WAYS && Cached(ways, phys, p, epoch, code)
    ensures Stocks(ways, phys, code, p)
  {
    hide IndexOf, Bucket;
    var w :| 0 <= w < WAYS && Hit(Bucket(ways, phys)[w], phys, p, epoch) && Bucket(ways, phys)[w].code == code;
    BucketAt(ways, phys, w);
    assert ways[IndexOf(phys) * WAYS + w].valid;
  }

  lemma SameStock(a: seq<Way>, b: seq<Way>)
    requires SameButHits(a, b)
    ensures forall start: nat, code: Code, p: Policy :: Stocks(a, start, code, p) == Stocks(b, start, code, p)
  {
    forall start: nat, code: Code, p: Policy ensures Stocks(a, start, code, p) == Stocks(b, start, code, p) {
      if i :| 0 <= i < |a| && a[i].valid && a[i].start == start && a[i].code == code && a[i].policy == p {
        assert a[i].(hits := 0) == b[i].(hits := 0);
      }
      if i :| 0 <= i < |b| && b[i].valid && b[i].start == start && b[i].code == code && b[i].policy == p {
        assert a[i].(hits := 0) == b[i].(hits := 0);
      }
    }
  }

  lemma PutStock(ways: seq<Way>, at: nat, e: Way)
    requires at < |ways|
    ensures forall start: nat, code: Code, p: Policy | Stocks(ways[at := e], start, code, p) ::
              Stocks(ways, start, code, p) || (start == e.start && code == e.code && p == e.policy)
  {
    forall start: nat, code: Code, p: Policy | Stocks(ways[at := e], start, code, p)
      ensures Stocks(ways, start, code, p) || (start == e.start && code == e.code && p == e.policy)
    {
      var i :| 0 <= i < |ways| && ways[at := e][i].valid && ways[at := e][i].start == start &&
        ways[at := e][i].code == code && ways[at := e][i].policy == p;
    }
  }

  predicate NoneValid(ways: seq<Way>) { forall i | 0 <= i < |ways| :: !ways[i].valid }

  predicate OnlyCode(ways: seq<Way>, code: Code) { forall i | 0 <= i < |ways| && ways[i].valid :: ways[i].code == code }

  lemma NoneOnly(ways: seq<Way>, code: Code)
    requires NoneValid(ways)
    ensures OnlyCode(ways, code)
  {
  }

  lemma PutFirst(ways: seq<Way>, i: nat, e: Way)
    requires NoneValid(ways) && i < |ways|
    ensures OnlyCode(ways[i := e], e.code)
  {
  }

  /** A cache without valid ways has no hit, and one whose valid ways hold one code finds it. */
  lemma CachedAmong(ways: seq<Way>, phys: nat, p: Policy, epoch: nat, code: Code)
    requires |ways| == BUCKETS * WAYS && OnlyCode(ways, code)
    ensures forall c | Cached(ways, phys, p, epoch, c) :: c == code
    ensures NoneValid(ways) ==> Missing(ways, phys, p, epoch)
  {
    hide IndexOf, Bucket;
    forall w | 0 <= w < WAYS
      ensures IndexOf(phys) * WAYS + w < |ways| && Bucket(ways, phys)[w] == ways[IndexOf(phys) * WAYS + w]
    {
      BucketAt(ways, phys, w);
    }
  }

  predicate Counted(ways: seq<Way>) { forall i | 0 <= i < |ways| :: ways[i].hits < HITS_LIMIT }

  lemma StaleWay(w: World, ways: seq<Way>, issued: set<Issue>, i: nat)
    requires Sound(w, ways, issued) && i < |ways| && ways[i].valid
    ensures WayOk(w, ways[i])
  {
  }

  /** A way with its old text back and its pages marked anew is live again. */
  lemma Revived(w: World, w': World, e: Way, phys: nat)
    requires WayOk(w, e) && e.start == phys && e.arenaGen == w.arenaGen && Marked(w, w')
    requires InRam(w, phys, e.bytes) && TextAt(w, phys, e.bytes) == e.digest
    requires forall page: nat | Touches(phys, e.bytes, page) ::
               Executed(w'.executed, page) && CodeAt(w'.codeGen, page, w'.epoch)
    ensures Live(w', phys, e.code)
    ensures forall n: nat :: WayOk(w', e.(epoch := w'.epoch, hits := n))
  {
  }

  lemma Installed(w: World, e: Way)
    requires InRam(w, e.start, e.bytes) && e.digest == TextAt(w, e.start, e.bytes)
    requires e.code == Code(e.digest, w.arenaGen)
    requires e.epoch == w.epoch && e.arenaGen == w.arenaGen
    requires forall page: nat | Touches(e.start, e.bytes, page) ::
               Executed(w.executed, page) && CodeAt(w.codeGen, page, w.epoch)
    ensures WayOk(w, e) && Live(w, e.start, e.code)
  {
  }

  /** Whatever the runner may do with the cache. */
  datatype Event =
    | Find(phys: nat, p: Policy)
    | Revive(phys: nat, p: Policy)
    | Translate(phys: nat, p: Policy, bytes: nat, size: nat)
    | Interpreted(page: nat)
    | Invalidate
    | Checked(at: nat, data: seq<Byte>)
    | Direct(at: nat, data: seq<Byte>)

  /** Code handed out, and what memory held at its address at that moment. */
  datatype Answer = Answer(code: Code, memory: seq<Byte>, arenaGen: nat)

  /** Chunks are rounded up to 16 bytes and still fit. */
  lemma RoundedUp(used: nat, nbytes: nat)
    requires used % 16 == 0 && used + nbytes <= ARENA_BYTES
    ensures var end := used + (nbytes + 15) / 16 * 16; end % 16 == 0 && used + nbytes <= end <= ARENA_BYTES
  {
    var q := (nbytes + 15) / 16;
    DivModUnique(used + q * 16, 16, used / 16 + q, 0);
  }

  class JitContext {
    var epoch: nat
    var arenaGen: nat
    var executed: seq<bool>
    var codeGen: seq<nat>
    var ways: seq<Way>
    var arenas: nat
    var hasCurrent: bool
    var used: nat
    var ram: seq<Byte>
    const base: nat
    /** Every block handed out so far, evicted ones included. */
    ghost var issued: set<Issue>

    constructor (ramBase: nat, memory: seq<Byte>)
      ensures Valid() && base == ramBase && ram == memory && issued == {}
      ensures epoch == 0 && arenaGen == 0 && executed == [] && NoneValid(ways)
    {
      base := ramBase;
      ram := memory;
      epoch, arenaGen, executed, codeGen := 0, 0, [], [];
      ways := seq(BUCKETS * WAYS, _ => Way(false, Code([], 0), 0, 0, Policy(User, false, false), 0, 0, [], 0));
      arenas, hasCurrent, used := 0, false, 0;
      issued := {};
    }

    function Now(): World
      reads this
    {
      World(epoch, arenaGen, executed, codeGen, base, ram)
    }

    ghost predicate Shaped()
      reads this
    {
      && |ways| == BUCKETS * WAYS && Counted(ways)
      && (hasCurrent ==> arenas > 0) && used <= ARENA_BYTES && used % 16 == 0
    }

    ghost predicate Valid()
      reads this
    {
      Shaped() && Sound(Now(), ways, issued)
    }

    // self_mod.hpp ---------------------------------------------------------------------

    method MarkPageExecuted(page: nat)
      modifies this`executed
      ensures Executed(executed, page)
      ensures forall p: nat | p != page :: Executed(executed, p) == Executed(old(executed), p)
    {
      if page >= |executed| {
        executed := executed + seq(page + 8192 - |executed|, _ => false);
      }
      executed := executed[page := true];
    }

    /** Records that the page hosts code of the current epoch, and re-arms its mark. */
    method MarkPageCode(page: nat)
      modifies this`executed, this`codeGen
      ensures CodeAt(codeGen, page, epoch) && Executed(executed, page)
      ensures forall p: nat | p != page :: Executed(executed, p) == Executed(old(executed), p)
      ensures forall p: nat | p != page && p < |old(codeGen)| :: p < |codeGen| && codeGen[p] == old(codeGen)[p]
    {
      if page >= |codeGen| {
        codeGen := codeGen + seq(page + 8192 - |codeGen|, _ => 0);
      }
      codeGen := codeGen[page := epoch];
      MarkPageExecuted(page);
    }

    /** A store to a marked page: a new epoch if the page hosts current code, else the
        stale mark is dropped.  Either way the page may now be written. */
    method SmcStoreHit(page: nat)
      modifies this`executed, this`epoch
      ensures Now() == Reported(old(Now()), page)
      ensures epoch == old(epoch) + (if Watched(old(Now()), page) then 1 else 0)
      ensures epoch == old(epoch) ==> !Executed(executed, page)
      ensures forall p: nat | p != page :: Executed(executed, p) == Executed(old(executed), p)
      ensures old(Valid()) ==> Valid()
    {
      hide Sound;
      if old(Valid()) { ReportedSound(Now(), page, ways, issued); }
      if page < |executed| && executed[page] {
        if page < |codeGen| && codeGen[page] == epoch {
          epoch := epoch + 1;
        } else {
          executed := executed[page := false];
        }
      }
    }

    method InvalidateAll()
      requires Valid()
      modifies this`epoch
      ensures Valid() && epoch == old(epoch) + 1
    {
      ghost var w := Now();
      epoch := epoch + 1;
      BumpedSound(w, Now(), ways, issued);
    }

    // Guest stores ---------------------------------------------------------------------------

    method WriteRam(at: nat, data: seq<Byte>)
      requires InRam(Now(), at, |data|)
      modifies this`ram
      ensures Now() == Written(old(Now()), at, data)
    {
      var o := at - base;
      ram := ram[..o] + data + ram[o + |data|..];
    }

    /** A store that reaches memory without the check: only to an unmarked page. */
    method StoreDirect(at: nat, data: seq<Byte>)
      requires Valid() && InRam(Now(), at, |data|) && 0 < |data| && at / PAGE == (at + |data| - 1) / PAGE
      requires !Executed(executed, at / PAGE)
      modifies this`ram
      ensures Valid() && Now() == Written(old(Now()), at, data)
    {
      hide Sound;
      ghost var w := Now();
      WriteRam(at, data);
      OnePage(w, Now(), at, |data|);
      WroteSound(w, Now(), ways, issued);
    }

    /** The interpreter's store, on one page or across two: the check on the first page,
        then the write.  The cache stays sound unless the store is overlooked. */
    method StoreChecked(at: nat, data: seq<Byte>)
      requires Shaped() && InRam(Now(), at, |data|) && 0 < |data| <= 8
      modifies this`executed, this`epoch, this`ram
      ensures Shaped() && Now() == Stored(old(Now()), at, data)
      ensures old(Valid()) && !Overlooked(old(Now()), at, data) ==> Valid()
    {
      hide Sound;
      if old(Valid()) && !Overlooked(Now(), at, data) {
        NotOverlooked(Now(), at, data, ways, issued);
      }
      SmcStoreHit(at / PAGE);
      WriteRam(at, data);
    }

    // Arenas -----------------------------------------------------------------------------------

    /** Frees all host code; the caller has moved to a new epoch. */
    method ReleaseArenas()
      modifies this`arenaGen, this`arenas, this`hasCurrent, this`used
      ensures arenaGen == old(arenaGen) + 1 && arenas == 0 && !hasCurrent && used == 0
    {
      arenaGen := arenaGen + 1;
      arenas, hasCurrent, used := 0, false, 0;
    }

    /** Room for nbytes in the current arena, in a new one, or after dropping everything. */
    method ArenaAlloc(nbytes: nat) returns (arena: nat, offset: nat)
      requires Valid() && nbytes <= ARENA_BYTES
      modifies this`epoch, this`arenaGen, this`arenas, this`hasCurrent, this`used
      ensures Valid() && hasCurrent && arena == arenas - 1
      ensures offset % 16 == 0 && offset + nbytes <= used <= ARENA_BYTES
      ensures arenas * ARENA_BYTES <= MAX_CACHE_BYTES || arenas == old(arenas)
      ensures epoch == old(epoch) && arenaGen == old(arenaGen) ==>
                if old(hasCurrent) && arenas == old(arenas) then offset == old(used)
                else arenas == old(arenas) + 1 && offset == 0
      ensures (epoch, arenaGen) == (old(epoch), old(arenaGen))
              || (epoch, arenaGen) == (old(epoch) + 1, old(arenaGen) + 1)
    {
      hide Sound;
      ghost var w := Now();
      if !hasCurrent || used + nbytes > ARENA_BYTES {
        if arenas * ARENA_BYTES >= MAX_CACHE_BYTES {
          epoch := epoch + 1;
          ReleaseArenas();
          ReleasedDead(w, Now(), ways, issued);
        }
        arenas := arenas + 1;
        hasCurrent := true;
        used := 0;
      }
      arena, offset := arenas - 1, used;
      RoundedUp(used, nbytes);
      used := used + (nbytes + 15) / 16 * 16;
    }

    // The cache -----------------------------------------------------------------------------------

    /** Code for the block at phys under policy p, if a way has it at this epoch. */
    method Lookup(phys: nat, p: Policy) returns (r: Option<Code>)
      requires Shaped()
      modifies this`ways, this`issued
      ensures Shaped() && old(issued) <= issued
      ensures r.Some? <==> exists w :: 0 <= w < WAYS && Hit(Bucket(old(ways), phys)[w], phys, p, epoch)
      ensures r.Some? ==> Issue(phys, r.value, epoch) in issued && Cached(ways, phys, p, epoch, r.value)
      ensures r.None? ==> ways == old(ways) && issued == old(issued)
      ensures SameButHits(ways, old(ways))
      ensures old(Valid()) ==> Valid() && (r.Some? ==> Live(Now(), phys, r.value))
    {
      hide Sound, Live, IndexOf, Bucket;
      for w := 0 to WAYS
        invariant ways == old(ways) && issued == old(issued)
        invariant forall v | 0 <= v < w :: !Hit(Bucket(ways, phys)[v], phys, p, epoch)
      {
        var at := IndexOf(phys) * WAYS + w;
        BucketAt(ways, phys, w);
        var e := ways[at];
        if Hit(e, phys, p, epoch) {
          var e' := e.(hits := (e.hits + 1) % HITS_LIMIT);
          if old(Valid()) {
            HitLive(Now(), ways, issued, at);
            PutSound(Now(), ways, issued, at, e');
            IssueSound(Now(), ways[at := e'], issued, phys, e.code);
          }
          ways := ways[at := e'];
          BucketAt(ways, phys, w);
          issued := issued + {Issue(phys, e.code, epoch)};
          return Some(e.code);
        }
      }
      r := None;
    }

    /** Marks every page the block lies on as hosting code of this epoch. */
    method MarkPages(start: nat, bytes: nat)
      requires Valid()
      modifies this`executed, this`codeGen
      ensures Valid()
      ensures forall page: nat | Touches(start, bytes, page) :: Executed(executed, page) && CodeAt(codeGen, page, epoch)
      ensures forall page: nat | !Touches(start, bytes, page) ::
                Executed(executed, page) == Executed(old(executed), page)
      ensures Marked(old(Now()), Now())
    {
      hide Sound;
      var page := FirstPage(start);
      while page < EndPage(start, bytes)
        invariant FirstPage(start) <= page && Marked(old(Now()), Now())
        invariant forall p: nat | !Touches(start, bytes, p) :: Executed(executed, p) == Executed(old(executed), p)
        invariant forall p: nat | FirstPage(start) <= p < page :: Executed(executed, p) && CodeAt(codeGen, p, epoch)
      {
        MarkPageCode(page);
        page := page + 1;
      }
      MarkedSound(old(Now()), Now(), ways, issued);
    }

    /** Re-keys a stale way whose text is what memory holds again, instead of compiling. */
    method Salvage(phys: nat, p: Policy) returns (r: Option<Code>)
      requires Valid()
      modifies this`ways, this`executed, this`codeGen, this`issued
      ensures Valid() && old(issued) <= issued
      ensures r.Some? <==> exists w :: 0 <= w < WAYS && Salvageable(old(Now()), Bucket(old(ways), phys)[w], phys, p)
      ensures r.Some? ==>
                Live(Now(), phys, r.value) && Issue(phys, r.value, epoch) in issued
                && Cached(ways, phys, p, epoch, r.value)
      ensures r.Some? ==> |r.value.text| > 0
      ensures r.None? ==> ways == old(ways) && Now() == old(Now()) && issued == old(issued)
    {
      hide Sound, Live, IndexOf, Bucket, TextAt;
      for w := 0 to WAYS
        invariant ways == old(ways) && issued == old(issued) && Now() == old(Now())
        invariant forall v | 0 <= v < w :: !Salvageable(Now(), Bucket(ways, phys)[v], phys, p)
      {
        var at := IndexOf(phys) * WAYS + w;
        BucketAt(ways, phys, w);
        var e := ways[at];
        if Salvageable(Now(), e, phys, p) {
          StaleWay(Now(), ways, issued, at);
          MarkPages(phys, e.bytes);
          Revived(old(Now()), Now(), e, phys);
          var e' := e.(epoch := epoch, hits := (e.hits + 1) % HITS_LIMIT);
          PutSound(Now(), ways, issued, at, e');
          ways := ways[at := e'];
          BucketAt(ways, phys, w);
          IssueSound(Now(), ways, issued, phys, e.code);
          issued := issued + {Issue(phys, e.code, epoch)};
          return Some(e.code);
        }
      }
      r := None;
    }

    /** The way an install replaces. */
    method Victim(phys: nat) returns (v: nat)
      requires |ways| == BUCKETS * WAYS && Counted(ways)
      ensures VictimOk(Bucket(ways, phys), v)
    {
      hide IndexOf, Bucket;
      v := 0;
      var min := HITS_LIMIT - 1;
      for w := 0 to WAYS
        invariant if w == 0 then v == 0 && min == HITS_LIMIT - 1 else v < w
        invariant forall u | 0 <= u < w :: Bucket(ways, phys)[u].valid && min <= Bucket(ways, phys)[u].hits
        invariant w > 0 ==> Bucket(ways, phys)[v].hits == min
        invariant forall u | 0 <= u < v :: min < Bucket(ways, phys)[u].hits
      {
        BucketAt(ways, phys, w);
        var e := ways[IndexOf(phys) * WAYS + w];
        if !e.valid {
          return w;
        }
        if e.hits < min {
          min, v := e.hits, w;
        }
      }
    }

    /** compile(): after the stream is translated, place the code in an arena, put its
        pages under watch and install it.  `bytes` guest bytes were decoded, and the host
        code takes `size` bytes. */
    method Compile(phys: nat, p: Policy, bytes: nat, size: nat) returns (r: Code)
      requires Valid() && 0 < bytes && InRam(Now(), phys, bytes) && size <= ARENA_BYTES
      modifies this`ways, this`executed, this`codeGen, this`issued, this`epoch, this`arenaGen, this`arenas,
               this`hasCurrent, this`used
      ensures Valid() && old(issued) <= issued
      ensures Live(Now(), phys, r) && Issue(phys, r, epoch) in issued
      ensures Cached(ways, phys, p, epoch, r) && ram == old(ram) && epoch >= old(epoch)
      ensures forall page: nat | !Touches(phys, bytes, page) ::
                Executed(executed, page) == Executed(old(executed), page)
      ensures Missing(old(ways), phys, p, old(epoch)) ==> |r.text| == bytes
      ensures forall start: nat, code: Code, q: Policy | Stocks(ways, start, code, q) ::
                Stocks(old(ways), start, code, q) || (start == phys && code == r && q == p)
      ensures NoneValid(old(ways)) ==> |r.text| == bytes && OnlyCode(ways, r)
    {
      hide Sound, Live, IndexOf, Bucket, NoneValid, OnlyCode, Touches, Stocks;
      if NoneValid(ways) {
        NoneOnly(ways, Code([], 0));
        CachedAmong(ways, phys, p, epoch, Code([], 0));
      }
      var fast := Lookup(phys, p);
      SameStock(ways, old(ways));
      if fast.Some? {
        r := fast.value;
        return;
      }
      var text := TextAt(Now(), phys, bytes);
      var arena, offset := ArenaAlloc(size);
      r := Code(text, arenaGen);
      MarkPages(phys, bytes);
      var v := Victim(phys);
      var at := IndexOf(phys) * WAYS + v;
      BucketAt(ways, phys, v);
      var e := Way(true, r, phys, epoch, p, 0, bytes, text, arenaGen);
      Installed(Now(), e);
      PutSound(Now(), ways, issued, at, e);
      if NoneValid(ways) { PutFirst(ways, at, e); }
      PutStock(ways, at, e);
      ways := ways[at := e];
      BucketAt(ways, phys, v);
      IssueSound(Now(), ways, issued, phys, r);
      issued := issued + {Issue(phys, r, epoch)};
    }

    /** One step of any run.  Events whose guard does not hold do nothing: a direct store
        to a marked page is what the writable-page rule excludes, and an overlooked store is
        the one the check misses. */
    method Handle(e: Event) returns (answers: seq<Answer>)
      requires Valid()
      modifies this
      ensures Valid() && old(issued) <= issued
      ensures forall a | a in answers :: a.code.text == a.memory && a.code.arena == a.arenaGen
    {
      hide Sound, IndexOf, Bucket;
      answers := [];
      match e
      case Find(phys, p) =>
        var r := Lookup(phys, p);
        if r.Some? {
          answers := [Answer(r.value, TextAt(Now(), phys, |r.value.text|), arenaGen)];
        }
      case Revive(phys, p) =>
        var r := Salvage(phys, p);
        if r.Some? {
          answers := [Answer(r.value, TextAt(Now(), phys, |r.value.text|), arenaGen)];
        }
      case Translate(phys, p, bytes, size) =>
        if 0 < bytes && InRam(Now(), phys, bytes) && size <= ARENA_BYTES {
          var r := Compile(phys, p, bytes, size);
          answers := [Answer(r, TextAt(Now(), phys, |r.text|), arenaGen)];
        }
      case Interpreted(page) =>
        ghost var w := Now();
        MarkPageExecuted(page);
        MarkedSound(w, Now(), ways, issued);
      case Invalidate => InvalidateAll();
      case Checked(at, data) =>
        if InRam(Now(), at, |data|) && 0 < |data| <= 8 && !Overlooked(Now(), at, data) {
          StoreChecked(at, data);
        }
      case Direct(at, data) =>
        if InRam(Now(), at, |data|) && 0 < |data| && at / PAGE == (at + |data| - 1) / PAGE
            && !Executed(executed, at / PAGE) {
          StoreDirect(at, data);
        }
    }

    /** Over any run, every block handed out matched guest memory when it was, and was in
        a live arena. */
    method Drive(events: seq<Event>) returns (answers: seq<Answer>)
      requires Valid()
      modifies this
      ensures Valid() && old(issued) <= issued
      ensures forall a | a in answers :: a.code.text == a.memory && a.code.arena == a.arenaGen
    {
      hide Sound;
      answers := [];
      for i := 0 to |events|
        invariant Valid() && old(issued) <= issued
        invariant forall a | a in answers :: a.code.text == a.memory && a.code.arena == a.arenaGen
      {
        var more := Handle(events[i]);
        answers := answers + more;
      }
    }
  }

  /** The run that goes wrong: code is compiled on one page, a store begins on the page
      before, which has no mark, and lookup then hands out the old text. */
  method CrossingStoreIsMissed() returns (code: Code, memory: seq<Byte>)
    ensures code.text == [0x13, 0, 0, 0] && memory == [0x93, 0, 0, 0]
  {
    hide Sound, IndexOf, Bucket, Stored, Overlooked, Cached;
    var ram := seq(0x3000, i => if i == 0x1000 then 0x13 else 0);
    var j := new JitContext(0x8000_0000, ram);
    var p := Policy(Machine, false, false);
    var start, at, data := 0x8000_1000, 0x8000_0FFC, [0, 0, 0, 0, 0x93, 0, 0, 0];
    code := j.Compile(start, p, 4, 64);
    assert code.text == [0x13, 0, 0, 0] by { assert TextAt(j.Now(), start, 4) == [0x13, 0, 0, 0]; }
    ghost var w := j.Now();
    assert !Touches(start, 4, at / PAGE);
    j.StoreChecked(at, data);
    OffMark(w, at, data);
    ghost var ways := j.ways;
    var again := j.Lookup(start, p);
    assert forall i | 0 <= i < |ways| && j.ways[i].valid :: j.ways[i].(hits := 0) == ways[i].(hits := 0);
    CachedAmong(j.ways, start, p, j.epoch, code);
    CachedHits(ways, start, p, j.epoch, code);
    code := again.value;
    memory := TextAt(j.Now(), start, 4);
    assert memory == [0x93, 0, 0, 0];
  }

  lemma OffMark(w: World, at: nat, data: seq<Byte>)
    requires InRam(w, at, |data|) && !Executed(w.executed, at / PAGE)
    ensures Stored(w, at, data) == Written(w, at, data)
  {
  }

  lemma CachedHits(ways: seq<Way>, phys: nat, p: Policy, epoch: nat, code: Code)
    requires |ways| == BUCKETS * WAYS
    ensures Cached(ways, phys, p, epoch, code) ==>
              exists w :: 0 <= w < WAYS && Hit(Bucket(ways, phys)[w], phys, p, epoch)
  {
    hide IndexOf, Bucket;
  }
}
