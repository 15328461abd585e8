/** What the address space holds, instruction by instruction (fetchInstruction in hart.cpp and
    the decode loop of compile in rvjit.cpp), and when a cached block's text is that. */
module Fetching {
  import opened Words
  import opened Options
  import opened TlbEntries
  import opened Guest
  import opened Decoding
  import opened Outcomes
  import opened Blocks
  import opened Chains
  import C = CodeCache
  import P = Paging

  const PAGE: nat := 0x1000

  function HalfAt(bytes: seq<Byte>, at: nat): nat
    requires at + 2 <= |bytes|
  {
    (bytes[at] as nat) + 256 * (bytes[at + 1] as nat)
  }

  /** The instruction at an offset of a text, if all of it is there and it decodes. */
  function FetchAt(bytes: seq<Byte>, at: nat): (r: Option<Decoded>)
    ensures r.Some? ==> Registered(r.value) && at + Size(r.value) <= |bytes|
  {
    if at + 2 > |bytes| then None
    else
      var lo := HalfAt(bytes, at);
      if lo % 4 != 3 then Decode(lo)
      else if at + 4 > |bytes| then None
      else
        WideWord(lo, HalfAt(bytes, at + 2));
        Decode(lo + 0x1_0000 * HalfAt(bytes, at + 2))
  }

  lemma WideWord(lo: nat, hi: nat)
    ensures (lo + 0x1_0000 * hi) % 4 == lo % 4
  {
    SameMod(lo + 0x1_0000 * hi, lo, 4, 0x4000 * hi);
  }

  /** The text is exactly this stream of instructions. */
  ghost predicate Parses(bytes: seq<Byte>, prog: seq<Decoded>)
  {
    |bytes| == Bytes(prog) && forall i | 0 <= i < |prog| :: FetchAt(bytes, Bytes(prog[..i])) == Some(prog[i])
  }

  /** The decode loop: instructions from the start of the bytes on, up to the limit. */
  method DecodeStream(bytes: seq<Byte>) returns (prog: Stream)
    ensures Bytes(prog) <= |bytes| && Parses(bytes[..Bytes(prog)], prog) && |prog| <= MAX_INSTRUCTIONS
    ensures |prog| == MAX_INSTRUCTIONS || FetchAt(bytes, Bytes(prog)) == None
    ensures prog == [] <==> FetchAt(bytes, 0) == None
  {
    hide FetchAt, Bytes;
    prog := [];
    NoBytes();
    var at := 0;
    while |prog| < MAX_INSTRUCTIONS
      invariant at == Bytes(prog) <= |bytes| && |prog| <= MAX_INSTRUCTIONS
      invariant prog != [] ==> FetchAt(bytes, 0).Some?
      invariant forall i | 0 <= i < |prog| :: FetchAt(bytes, Bytes(prog[..i])) == Some(prog[i])
      decreases MAX_INSTRUCTIONS - |prog|
    {
      var got := FetchAt(bytes, at);
      if got.None? { break; }
      BytesSnoc(prog, got.value);
      assert forall i | 0 <= i <= |prog| :: (prog + [got.value])[..i] == prog[..i];
      assert prog[..|prog|] == prog;
      prog := prog + [got.value];
      at := at + Size(got.value);
    }
    Truncated(bytes, prog);
  }

  lemma NoBytes()
    ensures Bytes([]) == 0
  {
  }

  lemma Truncated(bytes: seq<Byte>, prog: seq<Decoded>)
    requires Bytes(prog) <= |bytes| && forall i | 0 <= i < |prog| :: FetchAt(bytes, Bytes(prog[..i])) == Some(prog[i])
    ensures Parses(bytes[..Bytes(prog)], prog)
  {
    hide FetchAt, Bytes;
    forall i | 0 <= i < |prog| ensures FetchAt(bytes[..Bytes(prog)], Bytes(prog[..i])) == Some(prog[i]) {
      assert prog[..i + 1] == prog[..i] + [prog[i]];
      BytesSnoc(prog[..i], prog[i]);
      BytesMono(prog, i + 1);
      var at, n := Bytes(prog[..i]), Size(prog[i]);
      assert bytes[at..at + n] == bytes[..Bytes(prog)][at..at + n];
      SameFetch(bytes, bytes[..Bytes(prog)], at, at);
    }
  }

  /** A fetch depends only on the bytes of its instruction. */
  lemma SameFetch(a: seq<Byte>, b: seq<Byte>, i: nat, j: nat)
    requires FetchAt(a, i).Some? && j + Size(FetchAt(a, i).value) <= |b|
    requires var n := Size(FetchAt(a, i).value); a[i..i + n] == b[j..j + n]
    ensures FetchAt(b, j) == FetchAt(a, i)
  {
    hide Decode;
    var n := Size(FetchAt(a, i).value);
    assert a[i..i + n][0] == b[j..j + n][0] && a[i..i + n][1] == b[j..j + n][1];
    if HalfAt(a, i) % 4 == 3 {
      WideWord(HalfAt(a, i), HalfAt(a, i + 2));
      assert a[i..i + n][2] == b[j..j + n][2] && a[i..i + n][3] == b[j..j + n][3];
    }
  }

  /** A prefix of a stream is parsed from a prefix of its text. */
  lemma ParsesPrefix(bytes: seq<Byte>, prog: seq<Decoded>, n: nat)
    requires Parses(bytes, prog) && n <= |prog|
    ensures Bytes(prog[..n]) <= |bytes| && Parses(bytes[..Bytes(prog[..n])], prog[..n])
  {
    hide FetchAt, Bytes;
    BytesMono(prog, n);
    forall i | 0 <= i < n ensures FetchAt(bytes, Bytes(prog[..n][..i])) == Some(prog[..n][i]) {
      assert prog[..n][..i] == prog[..i];
    }
    Truncated(bytes, prog[..n]);
  }

  // The address space -------------------------------------------------------------------------------

  /** Where instruction fetch finds each pc in physical memory. */
  type Space = Word -> Option<nat>

  /** Addresses of one page are translated alike. */
  ghost predicate Paged(space: Space)
  {
    forall pc: Word, k: nat | pc % PAGE + k < PAGE && space(pc).Some? :: space(Add(pc, k)) == Some(space(pc).value + k)
  }

  function FetchPc(space: Space, base: nat, ram: Ram, pc: Word): (r: Option<Decoded>)
    ensures r.Some? ==> Registered(r.value)
  {
    match space(pc)
    case None => None
    case Some(pa) =>
      if pa < base then None
      else if pc % PAGE <= 0xFFC || pa - base + 2 > |ram|
          || HalfAt(ram, pa - base) % 4 != 3 then FetchAt(ram, pa - base)
      else
        match space(Add(pc, 2))
        case None => None
        case Some(pa2) =>
          if pa2 < base || pa2 - base + 2 > |ram| then None
          else Decode(HalfAt(ram, pa - base) + 0x1_0000 * HalfAt(ram, pa2 - base))
  }

  /** Everything the address space holds. */
  ghost function TextOf(space: Space, base: nat, ram: Ram): Program
  {
    imap pc: Word | FetchPc(space, base, ram, pc).Some? :: FetchPc(space, base, ram, pc).value
  }

  /** Where the Sv39 walk of these tables fetches instructions, for the modes of a policy. */
  function FetchSpace(mem: P.Tables, root: nat, p: Policy): Space
  {
    (pc: Word) => P.Walk(mem, root, pc, EXEC, p.mode, p.mxr, p.sum)
  }

  /** The walk translates page by page. */
  lemma WalkIsPaged(mem: P.Tables, root: nat, p: Policy)
    ensures Paged(FetchSpace(mem, root, p))
  {
    hide P.Walk;
    var space := FetchSpace(mem, root, p);
    forall pc: Word, k: nat | pc % PAGE + k < PAGE && space(pc).Some?
      ensures space(Add(pc, k)) == Some(space(pc).value + k)
    {
      WalkMoves(mem, root, pc, k, p.mode, p.mxr, p.sum);
    }
  }

  lemma WalkMoves(mem: P.Tables, root: nat, pc: Word, k: nat, mode: Privilege, mxr: bool, sum: bool)
    requires pc % PAGE + k < PAGE && P.Walk(mem, root, pc, EXEC, mode, mxr, sum).Some?
    ensures P.Walk(mem, root, Add(pc, k), EXEC, mode, mxr, sum) ==
            Some(P.Walk(mem, root, pc, EXEC, mode, mxr, sum).value + k)
  {
    hide P.MappedBy, P.PageBytes, P.Permitted, P.Ppn, Add;
    var l := P.MappedBy(mem, root, pc).value;
    WidthOf(l.level);
    InsidePage(pc, k, P.PageBytes(l.level), P.Span(l.level));
    P.SamePageMapped(mem, root, pc, Add(pc, k));
  }

  lemma WidthOf(i: P.Level)
    ensures P.PageBytes(i) == PAGE * P.Span(i) && P.Span(i) > 0
  {
  }

  lemma InsidePage(pc: Word, k: nat, m: nat, n: nat)
    requires pc % PAGE + k < PAGE && n > 0 && m == PAGE * n
    ensures m > 0 && Add(pc, k) == pc + k && (pc + k) / m == pc / m && (pc + k) % m == pc % m + k
  {
    NoWrap(pc, k);
    MulMono(PAGE, 1, n);
    ModBound(pc, m);
    InBigPage(pc, k, m, n, pc / m, pc % m, pc % m / PAGE, pc % m % PAGE);
  }

  lemma InBigPage(pc: nat, k: nat, m: nat, n: nat, q: nat, r: nat, t: nat, u: nat)
    requires m == PAGE * n && pc == m * q + r && r < m && r == PAGE * t + u && u < PAGE && pc % PAGE + k < PAGE
    ensures m > 0 && (pc + k) / m == q && (pc + k) % m == r + k
  {
    hide *;
    assert m * q == PAGE * (n * q) by { assert PAGE * n * q == PAGE * (n * q); }
    assert PAGE * (n * q + t) == PAGE * (n * q) + PAGE * t;
    DivModUnique(pc, PAGE, n * q + t, u);
    if t >= n { MulMono(PAGE, n, t); }
    MulMono(PAGE, t + 1, n);
    assert PAGE * (t + 1) == PAGE * t + PAGE;
    DivModUnique(pc + k, m, q, r + k);
  }

  lemma NoWrap(pc: Word, k: nat)
    requires pc % PAGE + k < PAGE
    ensures Add(pc, k) == pc + k && (pc + k) % PAGE == pc % PAGE + k
  {
    DivModUnique(pc + k, PAGE, pc / PAGE, pc % PAGE + k);
  }

  // Cached blocks ------------------------------------------------------------------------------------

  /** The address space shows this text from pc on. */
  ghost predicate Shows(space: Space, base: nat, ram: Ram, pc: Word, text: seq<Byte>)
  {
    && space(pc).Some? && base <= space(pc).value && space(pc).value - base + |text| <= |ram|
    && ram[space(pc).value - base..space(pc).value - base + |text|] == text
  }

  /** A block's stream is what the address space holds from its pc on, exactly if the address
      space shows there the text it was parsed from. */
  lemma FitsExactly(space: Space, base: nat, ram: Ram, pc: Word, text: seq<Byte>, prog: Stream)
    requires Paged(space) && prog != [] && Parses(text, prog) && pc % PAGE + |text| <= PAGE
    ensures Fits(TextOf(space, base, ram), pc, prog) <==> Shows(space, base, ram, pc, text)
  {
    hide FetchAt, Bytes, FetchPc, Registered, Paged;
    if Shows(space, base, ram, pc, text) {
      forall i | 0 <= i < |prog| ensures Holds1(TextOf(space, base, ram), Add(pc, Bytes(prog[..i])), prog[i]) {
        ShownFetch(space, base, ram, pc, text, Bytes(prog[..i]), prog[i]);
      }
    }
    if Fits(TextOf(space, base, ram), pc, prog) {
      FitsShows(space, base, ram, pc, text, prog, |prog|);
      assert prog[..|prog|] == prog && text[..|text|] == text;
    }
  }

  lemma ShownFetch(space: Space, base: nat, ram: Ram, pc: Word, text: seq<Byte>, off: nat, d: Decoded)
    requires Paged(space) && Shows(space, base, ram, pc, text) && pc % PAGE + |text| <= PAGE
    requires FetchAt(text, off) == Some(d)
    ensures FetchPc(space, base, ram, Add(pc, off)) == Some(d)
  {
    hide FetchAt, Add, HalfAt;
    var pa := space(pc).value;
    var at, n := pa - base, Size(d);
    NoWrap(pc, off);
    SliceSlice(ram, at, |text|, off, n);
    SameFetch(text, ram, off, at + off);
    FetchInPage(space, base, ram, Add(pc, off), pa + off, d);
  }

  lemma SliceSlice(ram: Ram, at: nat, m: nat, off: nat, n: nat)
    requires at + m <= |ram| && off + n <= m
    ensures ram[at..at + m][off..off + n] == ram[at + off..at + off + n]
  {
    var x, y := ram[at..at + m][off..off + n], ram[at + off..at + off + n];
    forall k | 0 <= k < |x| ensures x[k] == y[k] {
    }
  }

  lemma FetchInPage(space: Space, base: nat, ram: Ram, pc: Word, pa: nat, d: Decoded)
    requires space(pc) == Some(pa) && pc % PAGE + Size(d) <= PAGE
    ensures base <= pa && FetchAt(ram, pa - base) == Some(d) <==> FetchPc(space, base, ram, pc) == Some(d)
  {
    if base <= pa && pa - base + 2 <= |ram| {
      var lo := HalfAt(ram, pa - base);
      if lo % 4 == 3 {
        hide Decode;
        if pa - base + 4 <= |ram| { WideWord(lo, HalfAt(ram, pa - base + 2)); }
        if pc % PAGE > 0xFFC {
          var next := space(Add(pc, 2));
          if next.Some? && base <= next.value && next.value - base + 2 <= |ram| {
            WideWord(lo, HalfAt(ram, next.value - base));
          }
        }
      }
    }
  }

  /** The first n instructions of a stream that fits show their part of the text. */
  lemma {:induction false} FitsShows(space: Space, base: nat, ram: Ram, pc: Word, text: seq<Byte>, prog: Stream, n: nat)
    requires Paged(space) && Parses(text, prog) && pc % PAGE + |text| <= PAGE && 0 < n <= |prog|
    requires Fits(TextOf(space, base, ram), pc, prog)
    ensures Bytes(prog[..n]) <= |text| && Shows(space, base, ram, pc, text[..Bytes(prog[..n])])
  {
    hide FetchAt, Bytes, FetchPc, Registered, Add;
    var off, d := Bytes(prog[..n - 1]), prog[n - 1];
    assert prog[..n] == prog[..n - 1] + [d];
    BytesSnoc(prog[..n - 1], d);
    BytesMono(prog, n);
    assert Holds1(TextOf(space, base, ram), Add(pc, Bytes(prog[..n - 1])), prog[n - 1]);
    NoWrap(pc, off);
    StartsThere(space, base, ram, pc, prog);
    var pa := space(pc).value;
    FetchInPage(space, base, ram, Add(pc, off), pa + off, d);
    SameWord(text, off, ram, pa + off - base, d);
    if n == 1 {
      assert prog[..0] == [];
      NoBytes();
    } else {
      FitsShows(space, base, ram, pc, text, prog, n - 1);
    }
    Joined(ram, pa - base, text, off, Size(d));
  }

  lemma StartsThere(space: Space, base: nat, ram: Ram, pc: Word, prog: Stream)
    requires prog != [] && Fits(TextOf(space, base, ram), pc, prog)
    ensures space(pc).Some?
  {
    hide FetchAt, Registered, FetchPc, Add;
    assert prog[..0] == [];
    NoBytes();
    assert Holds1(TextOf(space, base, ram), Add(pc, Bytes(prog[..0])), prog[0]);
    HeldThere(space, base, ram, Add(pc, 0), prog[0]);
    NothingAdded(pc);
  }

  lemma HeldThere(space: Space, base: nat, ram: Ram, pc: Word, d: Decoded)
    requires Holds1(TextOf(space, base, ram), pc, d)
    ensures FetchPc(space, base, ram, pc) == Some(d) && space(pc).Some?
  {
    hide FetchAt, Decode;
  }

  lemma NothingAdded(pc: Word)
    ensures Add(pc, 0) == pc
  {
  }

  lemma Joined(ram: Ram, at: int, text: seq<Byte>, off: nat, n: nat)
    requires off + n <= |text| && 0 <= at + off && at + off + n <= |ram|
    requires text[off..off + n] == ram[at + off..at + off + n]
    requires off > 0 ==> 0 <= at && ram[at..at + off] == text[..off]
    requires off == 0 || at >= 0
    ensures 0 <= at && ram[at..at + off + n] == text[..off + n]
  {
    assert text[..off + n] == text[..off] + text[off..off + n];
    assert ram[at..at + off + n] == ram[at..at + off] + ram[at + off..at + off + n];
  }

  /** The same instruction has the same bytes. */
  lemma SameWord(a: seq<Byte>, i: nat, b: seq<Byte>, j: nat, d: Decoded)
    requires FetchAt(a, i) == Some(d) && FetchAt(b, j) == Some(d)
    ensures a[i..i + Size(d)] == b[j..j + Size(d)]
  {
    hide Decode;
    WordAt(a, i);
    WordAt(b, j);
    hide HalfAt;
    SameHalf(a, i, b, j);
    if Size(d) == 4 {
      SameHalves(HalfAt(a, i), HalfAt(a, i + 2), HalfAt(b, j), HalfAt(b, j + 2));
      SameHalf(a, i + 2, b, j + 2);
      assert a[i..i + 4] == [a[i], a[i + 1], a[i + 2], a[i + 3]];
      assert b[j..j + 4] == [b[j], b[j + 1], b[j + 2], b[j + 3]];
    } else {
      assert a[i..i + 2] == [a[i], a[i + 1]];
      assert b[j..j + 2] == [b[j], b[j + 1]];
    }
  }

  /** The word of a fetched instruction, half by half. */
  lemma WordAt(a: seq<Byte>, i: nat)
    requires FetchAt(a, i).Some?
    ensures var d := FetchAt(a, i).value;
            && (Size(d) == 2 || Size(d) == 4) && i + Size(d) <= |a|
            && (Size(d) == 2 ==> d.inst == HalfAt(a, i))
            && (Size(d) == 4 ==> d.inst == HalfAt(a, i) + 0x1_0000 * HalfAt(a, i + 2))
  {
    var lo := HalfAt(a, i);
    if lo % 4 == 3 { WideWord(lo, HalfAt(a, i + 2)); }
    hide Decode;
  }

  lemma SameHalf(a: seq<Byte>, i: nat, b: seq<Byte>, j: nat)
    requires i + 2 <= |a| && j + 2 <= |b|
    ensures HalfAt(a, i) < 0x1_0000 && HalfAt(b, j) < 0x1_0000
    ensures HalfAt(a, i) == HalfAt(b, j) ==> a[i] == b[j] && a[i + 1] == b[j + 1]
  {
    if HalfAt(a, i) == HalfAt(b, j) {
      DivModUnique(HalfAt(a, i), 256, a[i + 1], a[i]);
      DivModUnique(HalfAt(b, j), 256, b[j + 1], b[j]);
    }
  }

  lemma SameHalves(x: nat, y: nat, u: nat, v: nat)
    requires x < 0x1_0000 && u < 0x1_0000 && x + 0x1_0000 * y == u + 0x1_0000 * v
    ensures x == u && y == v
  {
    DivModUnique(x + 0x1_0000 * y, 0x1_0000, y, x);
    DivModUnique(u + 0x1_0000 * v, 0x1_0000, v, u);
  }

  // Installs -------------------------------------------------------------------------------------------

  /** The unit was made from this text: the cache handed it out at the key's epoch, it lies in
      one page, and it is the unit's stream. */
  ghost predicate Made(i: Install, phys: nat, code: C.Code, issued: set<C.Issue>)
  {
    C.Issue(phys, code, i.key.smc) in issued && i.pc % PAGE + |code.text| <= PAGE && Parses(code.text, i.unit.prog)
  }

  ghost predicate Backed1(i: Install, issued: set<C.Issue>)
  {
    UnitOk(i.unit) && i.unit.policy == i.mode && exists phys: nat, code: C.Code :: Made(i, phys, code, issued)
  }

  /** Every install is of correct code made from a text the cache handed out. */
  ghost predicate Backed(log: set<Install>, issued: set<C.Issue>)
  {
    forall i | i in log :: Backed1(i, issued)
  }

  /** More installs of that kind and more code handed out keep it so. */
  lemma StillBacked(log: set<Install>, more: set<Install>, issued: set<C.Issue>, issued': set<C.Issue>)
    requires Backed(log, issued) && issued <= issued' && Backed(more, issued')
    ensures Backed(log + more, issued')
  {
    hide UnitOk, Parses;
    forall i | i in log ensures Backed1(i, issued') {
      assert Backed1(i, issued);
      var phys: nat, code: C.Code :| Made(i, phys, code, issued);
      assert Made(i, phys, code, issued');
    }
  }

  /** Every pc installed under this key and mode shows the text its code was made from. */
  ghost predicate Shown(log: set<Install>, key: Key, mode: Policy, space: Space, base: nat, ram: Ram,
                        issued: set<C.Issue>)
  {
    forall i: Install, phys: nat, code: C.Code | i in log && i.key == key && i.mode == mode
        && Made(i, phys, code, issued) ::
      Shows(space, base, ram, i.pc, code.text)
  }

  /** The blocks a hop may enter were compiled from what the address space holds now, exactly
      if every pc installed under the present key and mode shows the text of its block. */
  lemma FaithfulExactly(chain: HartChain, space: Space, base: nat, ram: Ram, issued: set<C.Issue>)
    requires Backed(chain.log, issued) && Paged(space)
    ensures chain.Faithful(TextOf(space, base, ram)) <==>
              Shown(chain.log, chain.key, chain.mode, space, base, ram, issued)
  {
    hide Correct, Paged, Fits, TextOf, Parses, Shows;
    var text := TextOf(space, base, ram);
    if Shown(chain.log, chain.key, chain.mode, space, base, ram, issued) {
      forall i: Install | i in chain.log && i.key == chain.key && i.mode == chain.mode
        ensures UnitOk(i.unit) && i.unit.policy == chain.mode && Fits(text, i.pc, i.unit.prog)
      {
        assert Backed1(i, issued);
        var phys: nat, code: C.Code :| Made(i, phys, code, issued);
        FitsExactly(space, base, ram, i.pc, code.text, i.unit.prog);
      }
    }
    if chain.Faithful(text) {
      forall i: Install, phys: nat, code: C.Code |
        i in chain.log && i.key == chain.key && i.mode == chain.mode && Made(i, phys, code, issued)
        ensures Shows(space, base, ram, i.pc, code.text)
      {
        FitsExactly(space, base, ram, i.pc, code.text, i.unit.prog);
      }
    }
  }

  /** A live block's text is shown wherever the address space leads to it. */
  lemma LiveShows(w: C.World, space: Space, pc: Word, phys: nat, code: C.Code)
    requires C.Live(w, phys, code) && space(pc) == Some(phys)
    ensures Shows(space, w.base, w.ram, pc, code.text)
  {
    assert C.TextAt(w, phys, |code.text|) == code.text;
  }
}
