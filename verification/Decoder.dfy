/** The decoder's lookup tables: every word is mapped to its most specific pattern
    (build_lut in decode.cpp). */
module Decoder {
  import opened Words
  import B = BitExtract

  const HASH_MASK: nat := 0xFFF0_707F
  const HASH_MASK_16: nat := 0x0000_FFFF
  const LUT_SIZE: nat := 0x80_0000
  const LUT_SIZE_16: nat := 0x4_0000

  // Subsets of a mask -----------------------------------------------------------------------

  /** Every bit of s is a bit of d. */
  predicate Within(s: nat, d: nat)
    decreases s
  {
    s == 0 || (s % 2 <= d % 2 && Within(s / 2, d / 2))
  }

  function Pop(n: nat): nat { if n == 0 then 0 else n % 2 + Pop(n / 2) }

  /** The bits of s under d, gathered into the low bits: pext. */
  function Gather(s: nat, d: nat): nat
    decreases d
  {
    if d == 0 then 0 else if d % 2 == 0 then Gather(s / 2, d / 2) else s % 2 + 2 * Gather(s / 2, d / 2)
  }

  lemma {:induction false} GatherBound(s: nat, d: nat)
    ensures Gather(s, d) < Pow2(Pop(d))
    decreases d
  {
    if d > 0 { GatherBound(s / 2, d / 2); }
  }

  lemma {:induction false} GatherInjective(s: nat, t: nat, d: nat)
    requires Within(s, d) && Within(t, d) && Gather(s, d) == Gather(t, d)
    ensures s == t
    decreases d
  {
    if d == 0 {
      WithinZero(s);
      WithinZero(t);
    } else {
      WithinHalf(s, d);
      WithinHalf(t, d);
      GatherInjective(s / 2, t / 2, d / 2);
    }
  }

  lemma {:induction false} WithinZero(s: nat)
    requires Within(s, 0)
    ensures s == 0
  {
    if s != 0 { WithinZero(s / 2); }
  }

  lemma WithinHalf(s: nat, d: nat)
    ensures Within(s, d) <==> s % 2 <= d % 2 && Within(s / 2, d / 2)
  {
  }

  /** The subset after s in the order of their gathers, wrapping from the last to the
      empty one. */
  function Next(s: nat, d: nat): nat
    decreases d
  {
    if d == 0 then 0
    else if d % 2 == 1 && s % 2 == 0 then 1 + 2 * (s / 2)
    else 2 * Next(s / 2, d / 2)
  }

  /** The next subset has the next gather. */
  lemma {:induction false} NextGather(s: nat, d: nat)
    requires Within(s, d)
    ensures Within(Next(s, d), d)
    ensures Gather(Next(s, d), d) == if Gather(s, d) + 1 == Pow2(Pop(d)) then 0 else Gather(s, d) + 1
    ensures Gather(s, d) + 1 == Pow2(Pop(d)) <==> Next(s, d) == 0
    decreases d
  {
    if d == 0 {
      WithinZero(s);
    } else {
      hide Gather, Next, Within, Pow2, Pop;
      var n := Next(s, d);
      Steps(s, d);
      Steps(n, d);
      PopStep(d);
      WithinHalf(s, d);
      WithinHalf(n, d);
      GatherBound(s / 2, d / 2);
      NextGather(s / 2, d / 2);
    }
  }

  lemma Steps(s: nat, d: nat)
    requires d > 0
    ensures Gather(s, d) == if d % 2 == 0 then Gather(s / 2, d / 2) else s % 2 + 2 * Gather(s / 2, d / 2)
    ensures Next(s, d) == if d % 2 == 1 && s % 2 == 0 then 1 + 2 * (s / 2) else 2 * Next(s / 2, d / 2)
  {
  }

  lemma PopStep(d: nat)
    requires d > 0
    ensures Pow2(Pop(d)) == if d % 2 == 0 then Pow2(Pop(d / 2)) else 2 * Pow2(Pop(d / 2))
  {
    hide Pop, Pow2;
    PopUnfold(d);
    PowStep(Pop(d / 2));
  }

  lemma PopUnfold(d: nat)
    requires d > 0
    ensures Pop(d) == d % 2 + Pop(d / 2)
  {
  }

  lemma PowStep(k: nat)
    ensures Pow2(1 + k) == 2 * Pow2(k)
  {
  }

  // The subtraction trick ----------------------------------------------------------------------

  lemma HalfMod(x: int, w: nat)
    requires w > 0
    ensures Pow2(w) == 2 * Pow2(w - 1) && x % Pow2(w) % 2 == x % 2 && x % Pow2(w) / 2 == x / 2 % Pow2(w - 1)
  {
    var p := Pow2(w - 1);
    var h, b := x / 2, x % 2;
    var q, r := h / p, h % p;
    assert x == 2 * h + b && h == p * q + r;
    assert x == (2 * p) * q + (2 * r + b);
    DivModUnique(x, 2 * p, q, 2 * r + b);
  }

  /** The lowest bit of a difference of a mask's subset and the mask. */
  lemma Borrow(s: nat, d: nat)
    requires s % 2 <= d % 2
    ensures (s - d - 1) / 2 == s / 2 - d / 2 - 1 && (s - d - 1) % 2 == (if s % 2 == d % 2 then 1 else 0)
    ensures (s - d) / 2 == s / 2 - d / 2 - (if s % 2 == d % 2 then 0 else 1)
    ensures (s - d) % 2 == (if s % 2 == d % 2 then 0 else 1)
  {
    hide *;
    var a, b := s / 2, d / 2;
    assert s == 2 * a + s % 2 && d == 2 * b + d % 2;
    if s % 2 == d % 2 {
      DivModUnique(s - d - 1, 2, a - b - 1, 1);
      DivModUnique(s - d, 2, a - b, 0);
    } else {
      DivModUnique(s - d - 1, 2, a - b - 1, 0);
      DivModUnique(s - d, 2, a - b - 1, 1);
    }
  }

  /** ~(d \\ s) & d is s. */
  lemma {:induction false} ComplementAnd(s: nat, d: nat, w: nat)
    requires Within(s, d) && d < Pow2(w)
    ensures Bits(And, (s - d - 1) % Pow2(w), d) == s
    decreases w
  {
    if d == 0 {
      WithinZero(s);
      BitsZero(And, (s - d - 1) % Pow2(w));
    } else {
      hide Bits, Pow2, Within, Next;
      WithinHalf(s, d);
      HalfMod(s - d - 1, w);
      Borrow(s, d);
      ComplementAnd(s / 2, d / 2, w - 1);
      BitsStep(And, (s - d - 1) % Pow2(w), d);
    }
  }

  /** (s - d) & d in w-bit arithmetic is the next subset. */
  lemma {:induction false} NextBits(s: nat, d: nat, w: nat)
    requires Within(s, d) && d < Pow2(w)
    ensures Bits(And, (s - d) % Pow2(w), d) == Next(s, d)
    decreases w
  {
    if d == 0 {
      WithinZero(s);
      BitsZero(And, (s - d) % Pow2(w));
    } else {
      hide Bits, Pow2, Within, Next;
      WithinHalf(s, d);
      Steps(s, d);
      HalfMod(s - d, w);
      BitsStep(And, (s - d) % Pow2(w), d);
      Borrow(s, d);
      if d % 2 == 1 && s % 2 == 0 {
        ComplementAnd(s / 2, d / 2, w - 1);
      } else {
        NextBits(s / 2, d / 2, w - 1);
      }
    }
  }

  // Patterns ---------------------------------------------------------------------------------------

  /** A registered instruction: its fixed bits, their values, and its length. */
  datatype Pattern = Pattern(mask: nat, match_: nat, compressed: bool)

  predicate PatternOk(p: Pattern) { p.mask < M32 && Within(p.match_, p.mask) }

  /** The pattern's fixed bits that take part in the hash agree with h. */
  predicate Compatible(p: Pattern, h: nat, hash: nat)
  {
    Bits(And, h, Bits(And, p.mask, hash)) == Bits(And, p.match_, hash)
  }

  predicate Applies(p: Pattern, compressed: bool, h: nat, hash: nat)
  {
    p.compressed == compressed && Compatible(p, h, hash)
  }

  /** r is the pattern for h among the first n: the one with the most fixed bits, the
      earliest of those, or -1 if none applies. */
  ghost predicate Best(patterns: seq<Pattern>, n: nat, compressed: bool, h: nat, hash: nat, r: int)
    requires n <= |patterns|
  {
    if r < 0 then r == -1 && forall j | 0 <= j < n :: !Applies(patterns[j], compressed, h, hash)
    else
      && r < n && Applies(patterns[r], compressed, h, hash)
      && forall j | 0 <= j < n && Applies(patterns[j], compressed, h, hash) ::
           Pop(patterns[j].mask) < Pop(patterns[r].mask) || (Pop(patterns[j].mask) == Pop(patterns[r].mask) && r <= j)
  }

  /** The don't-care bits: hashed but not fixed. */
  function DontCare(hash: nat, eff: nat, w: nat): nat
    requires eff < Pow2(w)
  {
    Bits(And, hash, Pow2(w) - 1 - eff)
  }

  lemma DontCareStep(hash: nat, eff: nat, w: nat)
    requires w > 0 && eff < Pow2(w)
    ensures eff / 2 < Pow2(w - 1) && Pow2(w) == 2 * Pow2(w - 1)
    ensures DontCare(hash, eff, w) % 2 == (if hash % 2 == 1 && eff % 2 == 0 then 1 else 0)
    ensures DontCare(hash, eff, w) / 2 == DontCare(hash / 2, eff / 2, w - 1)
  {
    hide Bits;
    var c := Pow2(w) - 1 - eff;
    assert c % 2 == 1 - eff % 2 && c / 2 == Pow2(w - 1) - 1 - eff / 2;
    BitsStep(And, hash, c);
  }

  /** Fixed bits plus a subset of the don't-care bits: a word the pattern applies to. */
  lemma {:induction false} Compose(hash: nat, eff: nat, fix: nat, sub: nat, w: nat)
    requires hash < Pow2(w) && eff < Pow2(w) && Within(eff, hash) && Within(fix, eff)
    requires Within(sub, DontCare(hash, eff, w))
    ensures var h := Bits(Or, fix, sub);
            Within(h, hash) && Bits(And, h, eff) == fix && Bits(And, h, DontCare(hash, eff, w)) == sub
    decreases w
  {
    if w == 0 {
      WithinZero(eff);
      WithinZero(fix);
      WithinZero(sub);
    } else {
      hide Bits, Within, Pow2, DontCare, Bit1;
      var d := DontCare(hash, eff, w);
      DontCareStep(hash, eff, w);
      WithinHalf(eff, hash);
      WithinHalf(fix, eff);
      WithinHalf(sub, d);
      Compose(hash / 2, eff / 2, fix / 2, sub / 2, w - 1);
      var h := Bits(Or, fix, sub);
      BitsStep(Or, fix, sub);
      WithinHalf(h, hash);
      BitsStep(And, h, eff);
      BitsStep(And, h, d);
      ComposeBits(fix % 2, sub % 2, eff % 2, hash % 2);
      SameHalves(Bits(And, h, eff), fix);
      SameHalves(Bits(And, h, d), sub);
    }
  }

  lemma ComposeBits(f: nat, s: nat, e: nat, g: nat)
    requires e <= g <= 1 && f <= e && s <= if g == 1 && e == 0 then 1 else 0
    ensures Bit1(Or, f, s) <= g && Bit1(And, Bit1(Or, f, s), e) == f
    ensures Bit1(And, Bit1(Or, f, s), if g == 1 && e == 0 then 1 else 0) == s
  {
  }

  lemma SameHalves(a: nat, b: nat)
    ensures a % 2 == b % 2 && a / 2 == b / 2 ==> a == b
  {
  }

  /** Every word the pattern applies to arises so. */
  lemma {:induction false} Decompose(hash: nat, eff: nat, fix: nat, h: nat, w: nat)
    requires hash < Pow2(w) && eff < Pow2(w) && Within(eff, hash) && Within(h, hash) && Bits(And, h, eff) == fix
    ensures var sub := Bits(And, h, DontCare(hash, eff, w));
            Within(sub, DontCare(hash, eff, w)) && h == Bits(Or, fix, sub)
    decreases w
  {
    if w == 0 {
      WithinZero(h);
      WithinZero(eff);
    } else {
      hide Bits, Within, Pow2, DontCare;
      var d := DontCare(hash, eff, w);
      DontCareStep(hash, eff, w);
      WithinHalf(eff, hash);
      WithinHalf(h, hash);
      BitsStep(And, h, eff);
      Decompose(hash / 2, eff / 2, fix / 2, h / 2, w - 1);
      var sub := Bits(And, h, d);
      BitsStep(And, h, d);
      WithinHalf(sub, d);
      BitsStep(Or, fix, sub);
      SameHalves(h, Bits(Or, fix, sub));
    }
  }

  // The tables ---------------------------------------------------------------------------------------

  /** Every hash value's slot holds its best pattern among the first n. */
  ghost predicate Table(patterns: seq<Pattern>, n: nat, compressed: bool, hash: nat, lut: seq<int>)
    requires n <= |patterns| && Pow2(Pop(hash)) <= |lut|
  {
    forall h: nat | Within(h, hash) :: SlotBest(patterns, n, compressed, h, hash, lut)
  }

  ghost predicate SlotBest(patterns: seq<Pattern>, n: nat, compressed: bool, h: nat, hash: nat, lut: seq<int>)
    requires n <= |patterns| && Pow2(Pop(hash)) <= |lut|
  {
    GatherBound(h, hash);
    Best(patterns, n, compressed, h, hash, lut[Gather(h, hash)])
  }

  /** The word h is done for pattern n: the pattern does not apply, or its subset has been
      visited. */
  ghost predicate Visited(p: Pattern, h: nat, hash: nat, d: nat, k: nat)
  {
    Compatible(p, h, hash) && Gather(Bits(And, h, d), d) < k
  }

  ghost predicate Partway(patterns: seq<Pattern>, n: nat, compressed: bool, hash: nat, d: nat, k: nat, lut: seq<int>)
    requires n < |patterns| && Pow2(Pop(hash)) <= |lut|
  {
    forall h: nat | Within(h, hash) ::
      SlotBest(patterns, if Visited(patterns[n], h, hash, d, k) then n + 1 else n, compressed, h, hash, lut)
  }

  /** The slot's new content when a pattern is offered to it. */
  function Offer(patterns: seq<Pattern>, n: nat, r: int): int
    requires n < |patterns| && -1 <= r < n
  {
    if r == -1 || Pop(patterns[n].mask) > Pop(patterns[r].mask) then n else r
  }

  lemma OfferBest(patterns: seq<Pattern>, n: nat, compressed: bool, h: nat, hash: nat, r: int)
    requires n < |patterns| && Best(patterns, n, compressed, h, hash, r) && Applies(patterns[n], compressed, h, hash)
    ensures Best(patterns, n + 1, compressed, h, hash, Offer(patterns, n, r))
  {
    hide Pop, Applies;
  }

  lemma SkipBest(patterns: seq<Pattern>, n: nat, compressed: bool, h: nat, hash: nat, r: int)
    requires n < |patterns| && Best(patterns, n, compressed, h, hash, r) && !Applies(patterns[n], compressed, h, hash)
    ensures Best(patterns, n + 1, compressed, h, hash, r)
  {
    hide Pop, Applies;
  }

  /** The fields of a pattern that its enumeration uses. */
  ghost predicate Fields(p: Pattern, hash: nat, eff: nat, fix: nat, d: nat)
  {
    && eff == Bits(And, p.mask, hash) && fix == Bits(And, p.match_, hash) && eff < M32 && hash < M32
    && Within(eff, hash) && Within(fix, eff) && Pow2(32) == M32 && d == DontCare(hash, eff, 32)
  }

  /** One visit: the slot of fix | sub is offered the pattern, and no other word is due. */
  lemma VisitStep(patterns: seq<Pattern>, n: nat, compressed: bool, hash: nat, eff: nat, fix: nat, d: nat, sub: nat,
                  lut: seq<int>)
    requires n < |patterns| && patterns[n].compressed == compressed && Pow2(Pop(hash)) <= |lut|
    requires Fields(patterns[n], hash, eff, fix, d)
    requires Within(sub, d) && Partway(patterns, n, compressed, hash, d, Gather(sub, d), lut)
    ensures var t := Bits(Or, fix, sub); var i := Gather(t, hash);
            && i < |lut| && -1 <= lut[i] < n
            && Partway(patterns, n, compressed, hash, d, Gather(sub, d) + 1, lut[i := Offer(patterns, n, lut[i])])
  {
    hide Within, Gather, Bits, Best, Pop, Pow2, DontCare, Offer;
    var t := Bits(Or, fix, sub);
    var i, k := Gather(t, hash), Gather(sub, d);
    Compose(hash, eff, fix, sub, 32);
    GatherBound(t, hash);
    assert SlotBest(patterns, n, compressed, t, hash, lut);
    BestRange(patterns, n, compressed, t, hash, lut[i]);
    var lut' := lut[i := Offer(patterns, n, lut[i])];
    forall h: nat | Within(h, hash)
      ensures SlotBest(patterns, if Visited(patterns[n], h, hash, d, k + 1) then n + 1
                                 else n, compressed, h, hash, lut')
    {
      GatherBound(h, hash);
      assert SlotBest(patterns, if Visited(patterns[n], h, hash, d, k) then n + 1 else n, compressed, h, hash, lut);
      if h == t {
        OfferBest(patterns, n, compressed, t, hash, lut[i]);
      } else {
        if Gather(h, hash) == i { GatherInjective(h, t, hash); }
        if Compatible(patterns[n], h, hash) {
          Decompose(hash, eff, fix, h, 32);
          if Gather(Bits(And, h, d), d) == k { GatherInjective(Bits(And, h, d), sub, d); }
        }
      }
    }
  }

  lemma BestRange(patterns: seq<Pattern>, n: nat, compressed: bool, h: nat, hash: nat, r: int)
    requires n <= |patterns| && Best(patterns, n, compressed, h, hash, r)
    ensures -1 <= r < n
  {
  }

  lemma StartVisits(patterns: seq<Pattern>, n: nat, compressed: bool, hash: nat, d: nat, lut: seq<int>)
    requires n < |patterns| && Pow2(Pop(hash)) <= |lut| && Table(patterns, n, compressed, hash, lut)
    ensures Partway(patterns, n, compressed, hash, d, 0, lut)
  {
    hide Within, Gather, SlotBest, Pop, Pow2;
  }

  /** When the subsets are exhausted every word the pattern applies to has been offered it. */
  lemma FinishVisits(patterns: seq<Pattern>, n: nat, compressed: bool, hash: nat, d: nat, lut: seq<int>)
    requires n < |patterns| && Pow2(Pop(hash)) <= |lut| && Partway(patterns, n, compressed, hash, d, Pow2(Pop(d)), lut)
    ensures Table(patterns, n + 1, compressed, hash, lut)
  {
    hide Within, Gather, Best, Pop, Pow2, Compatible, Bits;
    forall h: nat | Within(h, hash) ensures SlotBest(patterns, n + 1, compressed, h, hash, lut) {
      GatherBound(Bits(And, h, d), d);
      GatherBound(h, hash);
      assert SlotBest(patterns, if Visited(patterns[n], h, hash, d, Pow2(Pop(d))) then n + 1
                                else n, compressed, h, hash, lut);
      if !Compatible(patterns[n], h, hash) { SkipBest(patterns, n, compressed, h, hash, lut[Gather(h, hash)]); }
    }
  }

  /** A pattern of the other length leaves the table right. */
  lemma OtherLength(patterns: seq<Pattern>, n: nat, compressed: bool, hash: nat, lut: seq<int>)
    requires n < |patterns| && Pow2(Pop(hash)) <= |lut| && Table(patterns, n, compressed, hash, lut)
    requires patterns[n].compressed != compressed
    ensures Table(patterns, n + 1, compressed, hash, lut)
  {
    hide Within, Gather, Best, Pop, Pow2, Compatible;
    forall h: nat | Within(h, hash) ensures SlotBest(patterns, n + 1, compressed, h, hash, lut) {
      GatherBound(h, hash);
      assert SlotBest(patterns, n, compressed, h, hash, lut);
      SkipBest(patterns, n, compressed, h, hash, lut[Gather(h, hash)]);
    }
  }

  lemma {:induction false} AndWithin(a: nat, b: nat)
    ensures Within(Bits(And, a, b), b) && Bits(And, a, b) <= b
    decreases a + b
  {
    if a != 0 || b != 0 {
      AndWithin(a / 2, b / 2);
      BitsStep(And, a, b);
      WithinHalf(Bits(And, a, b), b);
    }
  }

  lemma {:induction false} AndMono(a: nat, b: nat, c: nat)
    requires Within(a, b)
    ensures Within(Bits(And, a, c), Bits(And, b, c))
    decreases a + b + c
  {
    if a == 0 {
      BitsCommute(And, 0, c);
      BitsZero(And, c);
    } else {
      hide Bits, Within;
      WithinHalf(a, b);
      AndMono(a / 2, b / 2, c / 2);
      BitsStep(And, a, c);
      BitsStep(And, b, c);
      WithinHalf(Bits(And, a, c), Bits(And, b, c));
    }
  }

  lemma PatternFields(p: Pattern, hash: nat) returns (eff: nat, fix: nat, d: nat)
    requires PatternOk(p) && hash < M32
    ensures eff < M32 && eff == Bits(And, p.mask, hash) && fix == Bits(And, p.match_, hash)
    ensures d == Bits(And, hash, M32 - 1 - eff)
    ensures Fields(p, hash, eff, fix, d) && d < Pow2(32)
  {
    hide Bits, Within, Pow2;
    eff, fix := Bits(And, p.mask, hash), Bits(And, p.match_, hash);
    Pow2At64();
    AndWithin(p.mask, hash);
    AndMono(p.match_, p.mask, hash);
    d := Bits(And, hash, M32 - 1 - eff);
    BitsCommute(And, hash, M32 - 1 - eff);
    AndWithin(M32 - 1 - eff, hash);
  }

  /** The inner loop of build_lut for one pattern: each subset of its don't-care bits, once. */
  method AddPattern(lut: array<int>, patterns: seq<Pattern>, n: nat, hash: nat)
    requires n < |patterns| && PatternOk(patterns[n]) && hash < M32 && Pow2(Pop(hash)) <= lut.Length
    requires Table(patterns, n, patterns[n].compressed, hash, lut[..])
    modifies lut
    ensures Table(patterns, n + 1, patterns[n].compressed, hash, lut[..])
  {
    hide Within, Gather, Bits, Best, Pop, Pow2, Table, Partway, Fields, DontCare, PatternOk, Next;
    var p := patterns[n];
    ghost var c := p.compressed;
    ghost var eff0, fix0, d0 := PatternFields(p, hash);
    var eff := Bits(And, p.mask, hash);
    var dontCare := Bits(And, hash, M32 - 1 - eff);
    var sub: nat := 0;
    StartVisits(patterns, n, c, hash, dontCare, lut[..]);
    EmptySubset(dontCare);
    while true
      invariant Within(sub, dontCare) && Gather(sub, dontCare) < Pow2(Pop(dontCare))
      invariant Partway(patterns, n, c, hash, dontCare, Gather(sub, dontCare), lut[..])
      decreases Pow2(Pop(dontCare)) - Gather(sub, dontCare)
    {
      var test := Bits(Or, Bits(And, p.match_, hash), sub);
      var i := Gather(test, hash);
      VisitStep(patterns, n, c, hash, eff, Bits(And, p.match_, hash), dontCare, sub, lut[..]);
      ghost var before := lut[..];
      if lut[i] != -1 {
        if Pop(p.mask) > Pop(patterns[lut[i]].mask) {
          lut[i] := n;
        }
      } else {
        lut[i] := n;
      }
      assert lut[..] == before[i := Offer(patterns, n, before[i])];
      NextBits(sub, dontCare, 32);
      Pow2At64();
      NextGather(sub, dontCare);
      GatherBound(Next(sub, dontCare), dontCare);
      ghost var last := sub;
      sub := Bits(And, (sub - dontCare) % M32, dontCare);
      if sub == 0 { break; }
    }
    FinishVisits(patterns, n, c, hash, dontCare, lut[..]);
  }

  lemma EmptySubset(d: nat)
    ensures Within(0, d) && Gather(0, d) == 0 < Pow2(Pop(d))
  {
    GatherBound(0, d);
    GatherZero(d);
  }

  lemma {:induction false} GatherZero(d: nat)
    ensures Gather(0, d) == 0
    decreases d
  {
    if d > 0 { GatherZero(d / 2); }
  }

  lemma HashSizes()
    ensures Pow2(Pop(HASH_MASK)) <= LUT_SIZE && Pow2(Pop(HASH_MASK_16)) <= LUT_SIZE_16
  {
    assert Pow2(8) == 256;
    Pow2Adds(8, 8);
    Pow2Adds(6, 16);
    PopSplit(0xFFF0, 0x707F, 16);
    PopSplit(0xFF, 0xF0, 8);
    PopSplit(0x70, 0x7F, 8);
    PopSplit(0xFF, 0xFF, 8);
    PopBytes();
  }

  lemma PopBytes()
    ensures Pop(0xFF) == 8 && Pop(0xF0) == 4 && Pop(0x70) == 3 && Pop(0x7F) == 7
  {
    PopZero();
    hide Pop;
    PopHalf(0xFF); PopHalf(0x7F); PopHalf(0x3F); PopHalf(0x1F); PopHalf(0xF); PopHalf(7); PopHalf(3); PopHalf(1);
    PopHalf(0xF0); PopHalf(0x78); PopHalf(0x3C); PopHalf(0x1E);
    PopHalf(0x70); PopHalf(0x38); PopHalf(0x1C); PopHalf(0xE);
  }

  lemma PopZero()
    ensures Pop(0) == 0
  {
  }

  lemma {:induction false} PopSplit(h: nat, lo: nat, w: nat)
    requires lo < Pow2(w)
    ensures Pop(h * Pow2(w) + lo) == Pop(h) + Pop(lo)
    decreases w
  {
    if w > 0 {
      hide Pop;
      var x := h * Pow2(w) + lo;
      var p := h * Pow2(w - 1);
      assert h * Pow2(w) == 2 * p;
      assert x / 2 == p + lo / 2 && x % 2 == lo % 2;
      PopSplit(h, lo / 2, w - 1);
      PopHalf(x);
      PopHalf(lo);
    }
  }

  lemma PopHalf(n: nat)
    ensures Pop(n) == n % 2 + Pop(n / 2)
  {
  }

  /** Both tables, for every list of patterns. */
  method BuildLut(patterns: seq<Pattern>) returns (lut: array<int>, lut16: array<int>)
    requires forall p | p in patterns :: PatternOk(p)
    ensures lut.Length == LUT_SIZE && lut16.Length == LUT_SIZE_16
    ensures Pow2(Pop(HASH_MASK)) <= LUT_SIZE && Pow2(Pop(HASH_MASK_16)) <= LUT_SIZE_16
    ensures Table(patterns, |patterns|, false, HASH_MASK, lut[..])
    ensures Table(patterns, |patterns|, true, HASH_MASK_16, lut16[..])
  {
    hide Table, Pop, Pow2, PatternOk;
    HashSizes();
    lut := new int[LUT_SIZE](_ => -1);
    lut16 := new int[LUT_SIZE_16](_ => -1);
    EmptyTable(patterns, false, HASH_MASK, lut[..]);
    EmptyTable(patterns, true, HASH_MASK_16, lut16[..]);
    for n := 0 to |patterns|
      invariant Table(patterns, n, false, HASH_MASK, lut[..]) && Table(patterns, n, true, HASH_MASK_16, lut16[..])
    {
      if patterns[n].compressed {
        AddPattern(lut16, patterns, n, HASH_MASK_16);
        OtherLength(patterns, n, false, HASH_MASK, lut[..]);
      } else {
        AddPattern(lut, patterns, n, HASH_MASK);
        OtherLength(patterns, n, true, HASH_MASK_16, lut16[..]);
      }
    }
  }

  lemma EmptyTable(patterns: seq<Pattern>, compressed: bool, hash: nat, lut: seq<int>)
    requires Pow2(Pop(hash)) <= |lut| && forall i | 0 <= i < |lut| :: lut[i] == -1
    ensures Table(patterns, 0, compressed, hash, lut)
  {
    forall h: nat | Within(h, hash) ensures SlotBest(patterns, 0, compressed, h, hash, lut) {
      GatherBound(h, hash);
    }
  }

  /** All 16 bits are hashed, so a compressed word finds the most specific pattern that
      matches it. */
  lemma CompressedExact(p: Pattern, inst: nat)
    requires p.mask < 0x1_0000 && Within(p.match_, p.mask) && inst < 0x1_0000
    ensures Within(inst, HASH_MASK_16) && (Compatible(p, inst, HASH_MASK_16) <==> Bits(And, inst, p.mask) == p.match_)
  {
    assert Pow2(16) == 0x1_0000 by { assert Pow2(8) == 256; Pow2Adds(8, 8); }
    LowAll(inst, 16);
    LowAll(p.mask, 16);
    WithinBound(p.match_, p.mask);
    LowAll(p.match_, 16);
  }

  lemma {:induction false} WithinBound(a: nat, b: nat)
    requires Within(a, b)
    ensures a <= b
  {
    if a != 0 { WithinBound(a / 2, b / 2); }
  }

  lemma {:induction false} LowAll(x: nat, w: nat)
    requires x < Pow2(w)
    ensures Within(x, Pow2(w) - 1) && Bits(And, x, Pow2(w) - 1) == x
    decreases w
  {
    if w > 0 {
      LowAll(x / 2, w - 1);
      var m := Pow2(w) - 1;
      assert m % 2 == 1 && m / 2 == Pow2(w - 1) - 1;
      BitsStep(And, x, m);
      WithinHalf(x, m);
    }
  }

  // pext on words is Gather -----------------------------------------------------------------------------

  function Value(b: seq<bool>): nat { if b == [] then 0 else (if b[0] then 1 else 0) + 2 * Value(b[1..]) }

  function Pick(val: seq<bool>, mask: seq<bool>): seq<bool>
    requires |val| == |mask|
  {
    if val == [] then [] else (if mask[0] then [val[0]] else []) + Pick(val[1..], mask[1..])
  }

  lemma {:induction false} PickValue(val: seq<bool>, mask: seq<bool>)
    requires |val| == |mask|
    ensures Value(Pick(val, mask)) == Gather(Value(val), Value(mask))
  {
    if val != [] {
      PickValue(val[1..], mask[1..]);
      if mask[0] {
        assert ([val[0]] + Pick(val[1..], mask[1..]))[1..] == Pick(val[1..], mask[1..]);
      } else {
        assert [] + Pick(val[1..], mask[1..]) == Pick(val[1..], mask[1..]);
        if Value(mask) == 0 { GatherNone(Value(val[1..]), Value(mask[1..])); }
      }
    }
  }

  lemma GatherNone(s: nat, d: nat)
    requires d == 0
    ensures Gather(s, d) == 0
  {
  }

  lemma {:induction false} PickSnoc(val: seq<bool>, mask: seq<bool>, v: bool, m: bool)
    requires |val| == |mask|
    ensures Pick(val + [v], mask + [m]) == Pick(val, mask) + if m then [v] else []
  {
    if val == [] {
      assert val + [v] == [v] && mask + [m] == [m];
      assert Pick([v][1..], [m][1..]) == [];
    } else {
      PickSnoc(val[1..], mask[1..], v, m);
      assert (val + [v])[1..] == val[1..] + [v] && (mask + [m])[1..] == mask[1..] + [m];
    }
  }

  lemma {:induction false} PickedIsPick(val: B.Bits32, mask: B.Bits32, n: nat)
    requires n <= 32
    ensures B.Picked(val, mask, n) == Pick(val[..n], mask[..n])
  {
    if n > 0 {
      PickedIsPick(val, mask, n - 1);
      assert val[..n] == val[..n - 1] + [val[n - 1]] && mask[..n] == mask[..n - 1] + [mask[n - 1]];
      PickSnoc(val[..n - 1], mask[..n - 1], val[n - 1], mask[n - 1]);
    }
  }

  lemma {:induction false} ValuePadded(b: seq<bool>, n: nat)
    requires n <= |b| && forall k | n <= k < |b| :: !b[k]
    ensures Value(b) == Value(b[..n])
  {
    if b == [] {
    } else if n == 0 {
      ValuePadded(b[1..], 0);
      assert b[1..][..0] == [] == b[..0];
    } else {
      ValuePadded(b[1..], n - 1);
      assert b[..n][1..] == b[1..][..n - 1];
    }
  }

  /** The table index the parallel-suffix extract computes is the gather of the word. */
  lemma PextIsGather(val: B.Bits32, mask: B.Bits32, x: B.Bits32)
    requires B.IsGather(val, mask, x)
    ensures Value(x) == Gather(Value(val), Value(mask))
  {
    PickedIsPick(val, mask, 32);
    assert val[..32] == val && mask[..32] == mask;
    PickValue(val, mask);
    ValuePadded(x, |B.Picked(val, mask, 32)|);
  }
}
