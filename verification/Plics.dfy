/** The platform-level interrupt controller (plic.cpp). */
module Plics {
  import opened Words
  import opened Options
  import opened BitExtract

  /** One hart and privilege level: its threshold, its enable bits and its line. */
  datatype Context = Context(threshold: nat, enables: seq<Bits32>, line: bool)

  const NO_BITS: Bits32 := seq(32, _ => false)

  function WordCount(maxSources: nat): nat { (maxSources + 31) / 32 }

  function BitOf(words: seq<Bits32>, id: nat): bool { id / 32 < |words| && words[id / 32][id % 32] }

  /** Source id asks for the context: pending, enabled and above its threshold. */
  predicate Asks(pending: seq<Bits32>, priorities: seq<nat>, c: Context, id: nat)
  {
    && 1 <= id < |priorities| && BitOf(pending, id) && BitOf(c.enables, id)
    && priorities[id] > c.threshold
  }

  ghost predicate AnyAsks(pending: seq<Bits32>, priorities: seq<nat>, c: Context)
  {
    exists id: nat :: Asks(pending, priorities, c, id)
  }

  /** r is the best of the sources below n: highest priority, lowest id on ties, 0 if none. */
  ghost predicate Best(pending: seq<Bits32>, priorities: seq<nat>, c: Context, n: nat, r: nat)
  {
    && (r == 0 ==> forall id: nat | id < n :: !Asks(pending, priorities, c, id))
    && (r != 0 ==> r < n && Asks(pending, priorities, c, r))
    && (r != 0 ==> forall id: nat | id < n && Asks(pending, priorities, c, id) ::
          priorities[id] < priorities[r] || (priorities[id] == priorities[r] && r <= id))
  }

  /** The line says exactly whether some source asks. */
  ghost predicate Exact(pending: seq<Bits32>, priorities: seq<nat>, c: Context)
  {
    c.line <==> AnyAsks(pending, priorities, c)
  }

  /** Nothing but lines differs. */
  ghost predicate SameButLines(a: seq<Context>, b: seq<Context>)
  {
    |a| == |b| && forall c | 0 <= c < |a| :: b[c] == a[c].(line := b[c].line)
  }

  /** Whether a source asks does not depend on the line. */
  lemma LineFree(pending: seq<Bits32>, priorities: seq<nat>, c: Context, d: Context)
    requires d == c.(line := d.line)
    ensures AnyAsks(pending, priorities, c) == AnyAsks(pending, priorities, d)
  {
    if AnyAsks(pending, priorities, c) {
      var id: nat :| Asks(pending, priorities, c, id);
      assert Asks(pending, priorities, d, id);
    }
    if AnyAsks(pending, priorities, d) {
      var id: nat :| Asks(pending, priorities, d, id);
      assert Asks(pending, priorities, c, id);
    }
  }

  lemma SetBit(words: seq<Bits32>, id: nat, on: bool)
    requires id / 32 < |words|
    ensures var words' := words[id / 32 := words[id / 32][id % 32 := on]];
            BitOf(words', id) == on && forall j: nat | j != id :: BitOf(words', j) == BitOf(words, j)
  {
    forall j: nat | j != id ensures BitOf(words[id / 32 := words[id / 32][id % 32 := on]], j) == BitOf(words, j) {
      if j / 32 == id / 32 { assert j % 32 != id % 32; }
    }
  }

  /** Clearing pending bits makes no context ask that did not before. */
  lemma FewerAsk(before: seq<Bits32>, after: seq<Bits32>, priorities: seq<nat>, contexts: seq<Context>)
    requires forall j: nat | BitOf(after, j) :: BitOf(before, j)
    ensures forall c | 0 <= c < |contexts| ::
              AnyAsks(after, priorities, contexts[c]) ==> AnyAsks(before, priorities, contexts[c])
  {
    forall c | 0 <= c < |contexts| && AnyAsks(after, priorities, contexts[c])
      ensures AnyAsks(before, priorities, contexts[c])
    {
      var id: nat :| Asks(after, priorities, contexts[c], id);
      assert Asks(before, priorities, contexts[c], id);
    }
  }

  lemma BestInRange(pending: seq<Bits32>, priorities: seq<nat>, c: Context, id: nat)
    requires Best(pending, priorities, c, |priorities|, id) && id != 0
    ensures id / 32 < |pending|
  {
  }

  // Bit scanning --------------------------------------------------------------------------

  predicate NoneSet(a: Bits32) { forall k | 0 <= k < 32 :: !a[k] }

  /** countr_zero. */
  function Lowest(a: Bits32, k: nat): (r: nat)
    requires k < 32 && exists j :: k <= j < 32 && a[j]
    ensures k <= r < 32 && a[r] && forall j | k <= j < r :: !a[j]
    decreases 32 - k
  {
    if a[k] then k else Lowest(a, k + 1)
  }

  /** The word with its lowest set bit cleared: a & (a - 1). */
  function ClearLowest(a: Bits32): Bits32
    requires !NoneSet(a)
  {
    a[Lowest(a, 0) := false]
  }

  function Merge(priorities: seq<nat>, c: Context, best: nat, id: nat): nat
    requires id < |priorities| && best < |priorities|
  {
    if id == 0 || priorities[id] <= c.threshold then best
    else if best == 0 || priorities[id] > priorities[best] || (priorities[id] == priorities[best] && id < best) then id
    else best
  }

  lemma MergeBest(pending: seq<Bits32>, priorities: seq<nat>, c: Context, n: nat, best: nat)
    requires Best(pending, priorities, c, n, best) && n < |priorities| && best < |priorities|
    requires BitOf(pending, n) && BitOf(c.enables, n)
    ensures Best(pending, priorities, c, n + 1, Merge(priorities, c, best, n))
  {
    hide BitOf;
  }

  /** Ids whose bits are clear, or that do not exist, can be skipped. */
  lemma SkipBest(pending: seq<Bits32>, priorities: seq<nat>, c: Context, n: nat, n': nat, best: nat)
    requires Best(pending, priorities, c, n, best) && n <= n'
    requires forall id: nat | n <= id < n' :: !Asks(pending, priorities, c, id)
    ensures Best(pending, priorities, c, n', best)
  {
    hide Asks;
  }

  lemma WordBit(words: seq<Bits32>, w: nat, k: nat)
    requires w < |words| && k < 32
    ensures (32 * w + k) / 32 == w && (32 * w + k) % 32 == k && BitOf(words, 32 * w + k) == words[w][k]
  {
  }

  class Plic {
    const maxSources: nat
    var priorities: seq<nat>
    var pending: seq<Bits32>
    var contexts: seq<Context>

    constructor (sources: nat, count: nat)
      ensures Valid() && maxSources == sources && |contexts| == count && priorities == seq(sources + 1, _ => 0)
      ensures forall c | 0 <= c < count :: contexts[c] == Context(0, seq(WordCount(sources), _ => NO_BITS), false)
      ensures forall j: nat :: !BitOf(pending, j)
    {
      maxSources := sources;
      priorities := seq(sources + 1, _ => 0);
      pending := seq(WordCount(sources), _ => NO_BITS);
      contexts := seq(count, _ => Context(0, seq(WordCount(sources), _ => NO_BITS), false));
    }

    /** What the registers hold. */
    ghost function Img(): Image
      reads this
    {
      Image(priorities, pending, Lowered(contexts))
    }

    ghost predicate Shape()
      reads this
    {
      && |priorities| == maxSources + 1 && |pending| == WordCount(maxSources)
      && forall c | 0 <= c < |contexts| :: |contexts[c].enables| == WordCount(maxSources)
    }

    /** No interrupt is lost: a context some source asks for has its line raised. */
    ghost predicate NoneLost()
      reads this
    {
      forall c | 0 <= c < |contexts| :: AnyAsks(pending, priorities, contexts[c]) ==> contexts[c].line
    }

    ghost predicate Valid()
      reads this
    {
      Shape() && NoneLost()
    }

    /** The scan over words and set bits. */
    method FindHighest(ctx: nat) returns (best: nat)
      requires Shape() && ctx < |contexts|
      ensures Best(pending, priorities, contexts[ctx], |priorities|, best) && best < |priorities|
      ensures best == 0 <==> !AnyAsks(pending, priorities, contexts[ctx])
    {
      hide Best, Asks, BitOf, Lowest, AndB;
      var c := contexts[ctx];
      best := 0;
      var bestPriority := 0;
      NoneBelow(pending, priorities, c);
      for word := 0 to |pending|
        invariant best < |priorities| && bestPriority == (if best == 0 then 0 else priorities[best])
        invariant Best(pending, priorities, c, 32 * word, best)
      {
        best, bestPriority := ScanWord(c, word, best, bestPriority);
      }
      AllScanned(pending, priorities, c, best, maxSources);
    }

    method ScanWord(c: Context, word: nat, best0: nat, priority0: nat) returns (best: nat, bestPriority: nat)
      requires Shape() && |c.enables| == |pending| && word < |pending|
      requires best0 < |priorities| && priority0 == (if best0 == 0 then 0 else priorities[best0])
      requires Best(pending, priorities, c, 32 * word, best0)
      ensures best < |priorities| && bestPriority == (if best == 0 then 0 else priorities[best])
      ensures Best(pending, priorities, c, 32 * word + 32, best)
    {
      hide Best, Asks, BitOf, Lowest;
      best, bestPriority := best0, priority0;
      var active := AndB(pending[word], c.enables[word]);
      ghost var full := active;
      assert forall k | 0 <= k < 32 :: full[k] == (pending[word][k] && c.enables[word][k]);
      ghost var pos: nat := 0;
      while !NoneSet(active)
        invariant pos <= 32 && best < |priorities| && bestPriority == (if best == 0 then 0 else priorities[best])
        invariant forall k | 0 <= k < 32 :: active[k] == (full[k] && k >= pos)
        invariant Best(pending, priorities, c, 32 * word + pos, best)
        decreases 32 - pos
      {
        var bit := Lowest(active, 0);
        var id := 32 * word + bit;
        assert forall k | pos <= k < bit :: !active[k] && !full[k];
        Skipped(pending, priorities, c, word, pos, bit, best);
        Taken(pending, priorities, c, word, bit, best);
        if id != 0 && id <= maxSources {
          var prio := priorities[id];
          if prio > c.threshold {
            if prio > bestPriority || (prio == bestPriority && id < best) {
              bestPriority := prio;
              best := id;
            }
          }
        }
        active := ClearLowest(active);
        pos := bit + 1;
      }
      assert forall k | pos <= k < 32 :: !active[k] && !full[k];
      Skipped(pending, priorities, c, word, pos, 32, best);
    }

    /** Recomputes one line.  What the hart sees is the line. */
    method UpdateContext(ctx: nat)
      requires Shape() && ctx < |contexts|
      modifies this`contexts
      ensures Shape() && |contexts| == |old(contexts)|
      ensures contexts[ctx] == old(contexts[ctx]).(line := contexts[ctx].line)
      ensures contexts[ctx].line <==> AnyAsks(pending, priorities, old(contexts[ctx]))
      ensures forall c | 0 <= c < |contexts| && c != ctx :: contexts[c] == old(contexts[c])
    {
      hide AnyAsks, Best;
      var best := FindHighest(ctx);
      var raise := best != 0;
      if raise != contexts[ctx].line {
        contexts := contexts[ctx := contexts[ctx].(line := raise)];
      }
    }

    /** Recomputes every line: all are exact afterwards. */
    method UpdateAll()
      requires Shape()
      modifies this`contexts
      ensures Valid() && SameButLines(old(contexts), contexts)
      ensures forall c | 0 <= c < |contexts| :: Exact(pending, priorities, contexts[c])
    {
      hide AnyAsks;
      for i := 0 to |contexts|
        invariant Shape() && |contexts| == |old(contexts)|
        invariant forall c | 0 <= c < |contexts| :: contexts[c] == old(contexts[c]).(line := contexts[c].line)
        invariant forall c | 0 <= c < i :: Exact(pending, priorities, contexts[c])
        invariant forall c | i <= c < |contexts| :: contexts[c] == old(contexts[c])
      {
        UpdateContext(i);
        LineFree(pending, priorities, old(contexts[i]), contexts[i]);
      }
    }

    /** The source's bit is where the code looks for it. */
    predicate InBounds(id: nat)
      reads this
    {
      1 <= id <= maxSources ==> id / 32 < |pending|
    }

    /** A device raises or lowers its source.  It is not done if the code would leave the
        pending words, which is all that is said of that case. */
    method SetPending(id: nat, on: bool) returns (done: bool)
      requires Valid()
      modifies this`pending, this`contexts
      ensures done == InBounds(id) && Valid() && SameButLines(old(contexts), contexts)
      ensures done && 1 <= id <= maxSources ==>
                BitOf(pending, id) == on && forall j: nat | j != id :: BitOf(pending, j) == BitOf(old(pending), j)
      ensures done && 1 <= id <= maxSources ==>
                forall c | 0 <= c < |contexts| :: Exact(pending, priorities, contexts[c])
      ensures !(done && 1 <= id <= maxSources) ==> pending == old(pending) && contexts == old(contexts)
      ensures Img() == After(old(Img()), Source(id, on), maxSources)
    {
      hide AnyAsks;
      if id == 0 || id > maxSources { return true; }
      if id / 32 >= |pending| { return false; }
      SetBit(pending, id, on);
      pending := pending[id / 32 := pending[id / 32][id % 32 := on]];
      UpdateAll();
      SameLowered(old(contexts), contexts);
      return true;
    }

    /** Claim: the best source the context may take, its pending bit cleared. */
    method Claim(ctx: nat) returns (id: nat)
      requires Valid() && ctx < |contexts|
      modifies this`pending, this`contexts
      ensures Valid() && |contexts| == |old(contexts)|
      ensures Best(old(pending), priorities, old(contexts[ctx]), |priorities|, id)
      ensures id == 0 <==> !AnyAsks(old(pending), priorities, old(contexts[ctx]))
      ensures id == 0 ==> pending == old(pending) && contexts == old(contexts)
      ensures id != 0 ==> !BitOf(pending, id) && forall j: nat | j != id :: BitOf(pending, j) == BitOf(old(pending), j)
      ensures id != 0 ==> Exact(pending, priorities, contexts[ctx])
      ensures SameButLines(old(contexts), contexts)
      ensures forall c | 0 <= c < |contexts| && c != ctx :: contexts[c] == old(contexts[c])
      ensures pending == if id == 0 then old(pending) else WithBit(old(pending), id, false)
    {
      hide AnyAsks;
      id := FindHighest(ctx);
      if id != 0 {
        BestInRange(pending, priorities, contexts[ctx], id);
        ClearPending(id, ctx);
      }
    }

    /** Complete: clears the pending bit again and recomputes this context only.  So a request
        is dropped exactly if the source has raised its bit again since the claim. */
    method Complete(ctx: nat, id: nat) returns (done: bool)
      requires Valid() && ctx < |contexts|
      modifies this`pending, this`contexts
      ensures done == InBounds(id) && Valid() && SameButLines(old(contexts), contexts)
      ensures forall j: nat :: BitOf(old(pending), j) && !BitOf(pending, j) <==>
                               done && j == id && 1 <= id <= maxSources && BitOf(old(pending), id)
      ensures forall j: nat | BitOf(pending, j) :: BitOf(old(pending), j)
      ensures done && 1 <= id <= maxSources ==> !BitOf(pending, id) && Exact(pending, priorities, contexts[ctx])
      ensures forall c | 0 <= c < |contexts| && c != ctx :: contexts[c] == old(contexts[c])
      ensures !(done && 1 <= id <= maxSources) ==> pending == old(pending) && contexts == old(contexts)
      ensures done && 1 <= id <= maxSources ==> pending == WithBit(old(pending), id, false)
    {
      hide AnyAsks, BitOf;
      if id == 0 || id > maxSources { return true; }
      if id / 32 >= |pending| { return false; }
      ClearPending(id, ctx);
      return true;
    }

    method ClearPending(id: nat, ctx: nat)
      requires Valid() && ctx < |contexts| && id / 32 < |pending|
      modifies this`pending, this`contexts
      ensures Valid() && |contexts| == |old(contexts)|
      ensures !BitOf(pending, id) && forall j: nat | j != id :: BitOf(pending, j) == BitOf(old(pending), j)
      ensures contexts[ctx] == old(contexts[ctx]).(line := contexts[ctx].line)
      ensures Exact(pending, priorities, contexts[ctx]) && pending == WithBit(old(pending), id, false)
      ensures forall c | 0 <= c < |contexts| && c != ctx :: contexts[c] == old(contexts[c])
    {
      hide AnyAsks, BitOf;
      SetBit(pending, id, false);
      pending := pending[id / 32 := pending[id / 32][id % 32 := false]];
      FewerAsk(old(pending), pending, priorities, contexts);
      UpdateContext(ctx);
      LineFree(pending, priorities, old(contexts[ctx]), contexts[ctx]);
    }

    method WritePriority(id: nat, value: nat)
      requires Valid()
      modifies this`priorities, this`contexts
      ensures Valid() && SameButLines(old(contexts), contexts)
      ensures priorities == (if 1 <= id <= maxSources then old(priorities)[id := value % 0x8000_0000]
                             else old(priorities))
      ensures 1 <= id <= maxSources ==> forall c | 0 <= c < |contexts| :: Exact(pending, priorities, contexts[c])
    {
      hide AnyAsks;
      if 1 <= id <= maxSources {
        priorities := priorities[id := value % 0x8000_0000];
        UpdateAll();
      }
    }

    method WriteEnable(ctx: nat, word: nat, value: Bits32)
      requires Valid() && ctx < |contexts|
      modifies this`contexts
      ensures Valid() && |contexts| == |old(contexts)|
      ensures word < WordCount(maxSources) ==>
                contexts[ctx].enables == old(contexts[ctx]).enables[word := value]
                && Exact(pending, priorities, contexts[ctx])
      ensures word >= WordCount(maxSources) ==> contexts == old(contexts)
      ensures contexts[ctx].threshold == old(contexts[ctx]).threshold
      ensures forall c | 0 <= c < |contexts| && c != ctx :: contexts[c] == old(contexts[c])
    {
      hide AnyAsks;
      if word < WordCount(maxSources) {
        var c := contexts[ctx];
        contexts := contexts[ctx := c.(enables := c.enables[word := value])];
        ghost var before := contexts[ctx];
        UpdateContext(ctx);
        LineFree(pending, priorities, before, contexts[ctx]);
      }
    }

    method WriteThreshold(ctx: nat, value: nat)
      requires Valid() && ctx < |contexts|
      modifies this`contexts
      ensures Valid() && |contexts| == |old(contexts)|
      ensures contexts[ctx].threshold == value % 0x8000_0000 && contexts[ctx].enables == old(contexts[ctx]).enables
      ensures Exact(pending, priorities, contexts[ctx])
      ensures forall c | 0 <= c < |contexts| && c != ctx :: contexts[c] == old(contexts[c])
    {
      hide AnyAsks;
      contexts := contexts[ctx := contexts[ctx].(threshold := value % 0x8000_0000)];
      ghost var before := contexts[ctx];
      UpdateContext(ctx);
      LineFree(pending, priorities, before, contexts[ctx]);
    }

    /** A 32-bit register read; the claim register is the only one with an effect. */
    method Read(offset: nat) returns (value: nat)
      requires Valid()
      modifies this`pending, this`contexts
      ensures Valid() && |contexts| == |old(contexts)|
      ensures offset < 0x1000 && 1 <= offset / 4 <= maxSources ==> value == priorities[offset / 4]
      ensures 0x1000 <= offset < 0x1080 && (offset - 0x1000) / 4 < |pending| ==>
                value == FromBits(old(pending)[(offset - 0x1000) / 4], 0)
      ensures EnableOf(offset, |contexts|, maxSources).Some? ==>
                var (c, w) := EnableOf(offset, |contexts|, maxSources).value;
                    value == FromBits(old(contexts[c]).enables[w], 0)
      ensures ThresholdOf(offset, |contexts|).Some? ==>
                value == old(contexts[ThresholdOf(offset, |contexts|).value]).threshold
      ensures ClaimOf(offset, |contexts|).None? ==> pending == old(pending) && contexts == old(contexts)
      ensures ClaimOf(offset, |contexts|).Some? ==>
                Best(old(pending), priorities, old(contexts[ClaimOf(offset, |contexts|).value]), |priorities|, value)
      ensures Img() == After(old(Img()), Load(offset), maxSources) && value == Answer(old(Img()), offset, maxSources)
    {
      hide Best, AnyAsks, BestBelow, WithBit, After, Answer, Lowered, FromBits;
      AfterLoad(Img(), offset, maxSources);
      LoweredSize(contexts);
      value := 0;
      if offset < 0x1000 {
        if 1 <= offset / 4 <= maxSources { value := priorities[offset / 4]; }
      } else if 0x1000 <= offset < 0x1080 {
        var word := (offset - 0x1000) / 4;
        if word < |pending| { value := FromBits(pending[word], 0); }
      } else if 0x2000 <= offset < 0x20_0000 {
        var ctx, word := (offset - 0x2000) / 0x80, (offset - 0x2000) % 0x80 / 4;
        if ctx < |contexts| && word < WordCount(maxSources) { value := FromBits(contexts[ctx].enables[word], 0); }
      } else if 0x20_0000 <= offset < 0x20_0000 + |contexts| * 0x1000 {
        var ctx, sub := (offset - 0x20_0000) / 0x1000, (offset - 0x20_0000) % 0x1000;
        if sub == 0 {
          value := contexts[ctx].threshold;
        } else if sub == 4 {
          value := Claim(ctx);
          PickIsBest(old(pending), priorities, old(contexts[ctx]), value);
          SameLowered(old(contexts), contexts);
        }
      }
    }

    /** A 32-bit register write.  It is not done if completing would leave the pending words. */
    method Write(offset: nat, value: nat) returns (done: bool)
      requires Valid() && value < M32
      modifies this`pending, this`contexts, this`priorities
      ensures done == (ClaimOf(offset, |contexts|).Some? ==> InBounds(value))
      ensures Valid() && |contexts| == |old(contexts)|
      ensures EnableOf(offset, |contexts|, maxSources).None? && ThresholdOf(offset, |contexts|).None? ==>
                SameButLines(old(contexts), contexts)
      ensures offset < 0x1000 && 1 <= offset / 4 <= maxSources ==>
                priorities == old(priorities)[offset / 4 := value % 0x8000_0000]
      ensures !(offset < 0x1000 && 1 <= offset / 4 <= maxSources) ==> priorities == old(priorities)
      ensures EnableOf(offset, |contexts|, maxSources).Some? ==>
                var (c, w) := EnableOf(offset, |contexts|, maxSources).value;
                contexts[c].enables == old(contexts[c]).enables[w := ToBits(value)]
                    && contexts[c].threshold == old(contexts[c]).threshold
      ensures ThresholdOf(offset, |contexts|).Some? ==>
                var c := ThresholdOf(offset, |contexts|).value;
                contexts[c].threshold == value % 0x8000_0000 && contexts[c].enables == old(contexts[c]).enables
      ensures done && ClaimOf(offset, |contexts|).Some? && 1 <= value <= maxSources ==>
                Cleared(old(pending), pending, value)
      ensures !(done && ClaimOf(offset, |contexts|).Some? && 1 <= value <= maxSources) ==> pending == old(pending)
      ensures Img() == After(old(Img()), Store(offset, value), maxSources)
    {
      hide AnyAsks, BitOf, Exact, After, Lowered;
      AfterStore(Img(), offset, value, maxSources);
      LoweredSize(contexts);
      done := true;
      if offset < 0x1000 {
        WritePriority(offset / 4, value);
        SameLowered(old(contexts), contexts);
      } else if 0x1000 <= offset < 0x1080 {
        return;
      } else if 0x2000 <= offset < 0x20_0000 {
        var ctx, word := (offset - 0x2000) / 0x80, (offset - 0x2000) % 0x80 / 4;
        if ctx < |contexts| {
          WriteEnable(ctx, word, ToBits(value));
          LoweredAt(old(contexts), contexts, ctx);
        }
      } else if 0x20_0000 <= offset < 0x20_0000 + |contexts| * 0x1000 {
        var ctx, sub := (offset - 0x20_0000) / 0x1000, (offset - 0x20_0000) % 0x1000;
        if sub == 0 {
          WriteThreshold(ctx, value);
          LoweredAt(old(contexts), contexts, ctx);
        } else if sub == 4 {
          done := Complete(ctx, value);
          SameLowered(old(contexts), contexts);
        }
      }
    }

    /** Any run of device events and register accesses, stopping before the first that would
        leave the pending words: it is done exactly if there is none.  Wherever it stops, the
        registers are what the events before make of them, every read was answered from them,
        and every context some source asks for has its line raised. */
    method Drive(events: seq<Event>) returns (done: bool, answers: seq<nat>, ghost n: nat)
      requires Valid()
      modifies this
      ensures Valid() && |contexts| == |old(contexts)| && n <= |events|
      ensures done <==> forall e | e in events :: Fine(e, |old(contexts)|, maxSources)
      ensures if done then n == |events| else n < |events| && !Fine(events[n], |old(contexts)|, maxSources)
      ensures forall k | 0 <= k < n :: Fine(events[k], |old(contexts)|, maxSources)
      ensures Img() == AfterAll(old(Img()), events[..n], maxSources)
      ensures answers == Answers(old(Img()), events[..n], maxSources)
    {
      hide AnyAsks, After, Answer, Lowered, Fine;
      answers, n := [], 0;
      for i := 0 to |events|
        invariant Valid() && |contexts| == |old(contexts)| && n == i
        invariant forall k | 0 <= k < i :: Fine(events[k], |contexts|, maxSources)
        invariant Img() == AfterAll(old(Img()), events[..i], maxSources)
        invariant answers == Answers(old(Img()), events[..i], maxSources)
      {
        assert events[..i + 1][..i] == events[..i];
        assert events[i] in events;
        LoweredSize(contexts);
        NotFine(Img(), events[i], maxSources);
        done := true;
        match events[i] {
          case Source(id, on) => done := SetPending(id, on);
          case Load(offset) =>
            var value := Read(offset);
            answers := answers + [value];
          case Store(offset, value) =>
            done := Write(offset, value % M32);
            SmallWord(offset, value);
        }
        if !done { return; }
        n := n + 1;
      }
      assert events[..|events|] == events;
      done := true;
    }
  }

  /** The registers, as software and devices have set them; lines are left out. */
  datatype Image = Image(priorities: seq<nat>, pending: seq<Bits32>, contexts: seq<Context>)

  function Lowered(contexts: seq<Context>): seq<Context>
  {
    seq(|contexts|, i requires 0 <= i < |contexts| => contexts[i].(line := false))
  }

  lemma SameLowered(a: seq<Context>, b: seq<Context>)
    requires SameButLines(a, b)
    ensures Lowered(a) == Lowered(b)
  {
  }

  function WithBit(words: seq<Bits32>, id: nat, on: bool): seq<Bits32>
  {
    if id / 32 < |words| then words[id / 32 := words[id / 32][id % 32 := on]] else words
  }

  /** The best source by trying them one after the other. */
  function BestBelow(pending: seq<Bits32>, priorities: seq<nat>, c: Context, n: nat): (r: nat)
    requires n <= |priorities|
    ensures Best(pending, priorities, c, n, r)
  {
    if n == 0 then 0
    else
      var r := BestBelow(pending, priorities, c, n - 1);
      if Asks(pending, priorities, c, n - 1) && (r == 0 || priorities[n - 1] > priorities[r]) then n - 1 else r
  }

  /** The scan over words and set bits picks the same source, whatever the line says. */
  lemma PickIsBest(pending: seq<Bits32>, priorities: seq<nat>, c: Context, id: nat)
    requires Best(pending, priorities, c, |priorities|, id)
    ensures id == BestBelow(pending, priorities, c.(line := false), |priorities|)
  {
    hide BestBelow, BitOf;
    var r := BestBelow(pending, priorities, c.(line := false), |priorities|);
    forall j: nat ensures Asks(pending, priorities, c, j) == Asks(pending, priorities, c.(line := false), j) {
    }
  }

  /** What one event makes of the registers. */
  function After(a: Image, e: Event, maxSources: nat): Image
  {
    match e
    case Source(id, on) => if 1 <= id <= maxSources then a.(pending := WithBit(a.pending, id, on)) else a
    case Load(offset) =>
      var c := ClaimOf(offset, |a.contexts|);
      if c.None? then a
      else
        var id := BestBelow(a.pending, a.priorities, a.contexts[c.value], |a.priorities|);
        if id == 0 then a else a.(pending := WithBit(a.pending, id, false))
    case Store(offset, value) =>
      var v := value % M32;
      if offset < 0x1000 then
        if 1 <= offset / 4 <= maxSources && offset / 4 < |a.priorities| then
          a.(priorities := a.priorities[offset / 4 := v % 0x8000_0000])
        else a
      else
        match Target(offset, |a.contexts|, maxSources)
        case Enable(c, w) =>
          if w < |a.contexts[c].enables| then
            a.(contexts := a.contexts[c := a.contexts[c].(enables := a.contexts[c].enables[w := ToBits(v)])])
          else a
        case Threshold(c) => a.(contexts := a.contexts[c := a.contexts[c].(threshold := v % 0x8000_0000)])
        case Completion(c) => if 1 <= v <= maxSources then a.(pending := WithBit(a.pending, v, false)) else a
        case Nowhere => a
  }

  /** Which register of a context an offset is. */
  datatype Place = Enable(ctx: nat, word: nat) | Threshold(ctx: nat) | Completion(ctx: nat) | Nowhere

  function Target(offset: nat, contexts: nat, maxSources: nat): (r: Place)
    ensures !r.Nowhere? ==> r.ctx < contexts
  {
    var e := EnableOf(offset, contexts, maxSources);
    var t := ThresholdOf(offset, contexts);
    var c := ClaimOf(offset, contexts);
    if e.Some? then Enable(e.value.0, e.value.1)
    else if t.Some? then Threshold(t.value)
    else if c.Some? then Completion(c.value)
    else Nowhere
  }

  /** What a register reads. */
  function Answer(a: Image, offset: nat, maxSources: nat): nat
  {
    if offset < 0x1000 then
      if 1 <= offset / 4 <= maxSources && offset / 4 < |a.priorities| then a.priorities[offset / 4] else 0
    else if offset < 0x1080 then
      if (offset - 0x1000) / 4 < |a.pending| then FromBits(a.pending[(offset - 0x1000) / 4], 0) else 0
    else
      match Target(offset, |a.contexts|, maxSources)
      case Enable(c, w) => if w < |a.contexts[c].enables| then FromBits(a.contexts[c].enables[w], 0) else 0
      case Threshold(c) => a.contexts[c].threshold
      case Completion(c) => BestBelow(a.pending, a.priorities, a.contexts[c], |a.priorities|)
      case Nowhere => 0
  }

  function AfterAll(a: Image, events: seq<Event>, maxSources: nat): Image
  {
    if events == [] then a
    else After(AfterAll(a, events[..|events| - 1], maxSources), events[|events| - 1], maxSources)
  }

  function Answers(a: Image, events: seq<Event>, maxSources: nat): seq<nat>
  {
    if events == [] then []
    else
      var before := events[..|events| - 1];
      var e := events[|events| - 1];
      Answers(a, before, maxSources) + if e.Load? then [Answer(AfterAll(a, before, maxSources), e.offset, maxSources)]
                                       else []
  }

  lemma LoweredSize(contexts: seq<Context>)
    ensures |Lowered(contexts)| == |contexts|
    ensures forall c | 0 <= c < |contexts| :: Lowered(contexts)[c] == contexts[c].(line := false)
  {
  }

  lemma LoweredAt(a: seq<Context>, b: seq<Context>, c: nat)
    requires |a| == |b| && c < |a| && forall k | 0 <= k < |a| && k != c :: b[k] == a[k]
    ensures Lowered(b) == Lowered(a)[c := b[c].(line := false)]
  {
  }

  /** The effect of a register write, register by register. */
  lemma AfterStore(a: Image, offset: nat, value: nat, maxSources: nat)
    requires value < M32 && |a.priorities| == maxSources + 1
    ensures offset < 0x1000 ==>
              After(a, Store(offset, value), maxSources) ==
              if 1 <= offset / 4 <= maxSources then a.(priorities := a.priorities[offset / 4 := value % 0x8000_0000])
              else a
    ensures EnableOf(offset, |a.contexts|, maxSources).Some? ==>
              var (c, w) := EnableOf(offset, |a.contexts|, maxSources).value;
              After(a, Store(offset, value), maxSources) ==
              if w >= |a.contexts[c].enables| then a
              else a.(contexts := a.contexts[c := a.contexts[c].(enables := a.contexts[c].enables[w := ToBits(value)])])
    ensures ThresholdOf(offset, |a.contexts|).Some? ==>
              var c := ThresholdOf(offset, |a.contexts|).value;
              After(a, Store(offset, value), maxSources) ==
              a.(contexts := a.contexts[c := a.contexts[c].(threshold := value % 0x8000_0000)])
    ensures ClaimOf(offset, |a.contexts|).Some? ==>
              After(a, Store(offset, value), maxSources) ==
              if 1 <= value <= maxSources then a.(pending := WithBit(a.pending, value, false)) else a
    ensures offset >= 0x1000 && Target(offset, |a.contexts|, maxSources).Nowhere? ==>
              After(a, Store(offset, value), maxSources) == a
  {
    hide WithBit, ToBits;
  }

  /** The effect and the answer of a register read, register by register. */
  lemma AfterLoad(a: Image, offset: nat, maxSources: nat)
    requires |a.priorities| == maxSources + 1
    ensures ClaimOf(offset, |a.contexts|).None? ==> After(a, Load(offset), maxSources) == a
    ensures ClaimOf(offset, |a.contexts|).Some? ==>
              var c := a.contexts[ClaimOf(offset, |a.contexts|).value];
              var id := BestBelow(a.pending, a.priorities, c, |a.priorities|);
              && Answer(a, offset, maxSources) == id
              && After(a, Load(offset), maxSources) ==
                 if id == 0 then a else a.(pending := WithBit(a.pending, id, false))
    ensures offset < 0x1000 ==>
              Answer(a, offset, maxSources) == if 1 <= offset / 4 <= maxSources then a.priorities[offset / 4] else 0
    ensures 0x1000 <= offset < 0x1080 ==>
              var w := (offset - 0x1000) / 4;
              Answer(a, offset, maxSources) == if w < |a.pending| then FromBits(a.pending[w], 0) else 0
    ensures EnableOf(offset, |a.contexts|, maxSources).Some? ==>
              var (c, w) := EnableOf(offset, |a.contexts|, maxSources).value;
              Answer(a, offset, maxSources) ==
              if w < |a.contexts[c].enables| then FromBits(a.contexts[c].enables[w], 0) else 0
    ensures ThresholdOf(offset, |a.contexts|).Some? ==>
              Answer(a, offset, maxSources) == a.contexts[ThresholdOf(offset, |a.contexts|).value].threshold
    ensures offset >= 0x1080 && Target(offset, |a.contexts|, maxSources).Nowhere? ==> Answer(a, offset, maxSources) == 0
  {
    hide WithBit, BestBelow, FromBits;
  }

  /** An event that would leave the pending words changes nothing. */
  lemma NotFine(a: Image, e: Event, maxSources: nat)
    requires |a.pending| == WordCount(maxSources)
    ensures !Fine(e, |a.contexts|, maxSources) ==> After(a, e, maxSources) == a
    ensures e.Source? ==> Fine(e, |a.contexts|, maxSources) == HasBit(e.id, maxSources)
    ensures e.Load? ==> Fine(e, |a.contexts|, maxSources)
    ensures e.Store? ==>
              Fine(e, |a.contexts|, maxSources) ==
                  (ClaimOf(e.offset, |a.contexts|).Some? ==> HasBit(e.value % M32, maxSources))
  {
    hide ToBits, BestBelow;
  }

  lemma SmallWord(offset: nat, value: nat)
    ensures forall a: Image, maxSources: nat ::
              After(a, Store(offset, value % M32), maxSources) == After(a, Store(offset, value), maxSources)
  {
  }

  /** The source has a pending bit, or is not one of the controller's. */
  predicate HasBit(id: nat, maxSources: nat) { 1 <= id <= maxSources ==> id / 32 < WordCount(maxSources) }

  /** The event does not leave the pending words: a device's source has a bit, and so has a
      source a hart completes. */
  predicate Fine(e: Event, contexts: nat, maxSources: nat)
  {
    match e
    case Source(id, _) => HasBit(id, maxSources)
    case Load(_) => true
    case Store(offset, value) => ClaimOf(offset, contexts).Some? ==> HasBit(value % M32, maxSources)
  }

  /** Every event is fine unless the maximum is a multiple of 32 and the event is about the
      last source; so with 64 sources a run is done exactly if none raises, lowers or
      completes source 64. */
  lemma FineExactly(e: Event, contexts: nat, maxSources: nat)
    requires maxSources > 0
    ensures Fine(e, contexts, maxSources) <==>
              maxSources % 32 != 0 || !Concerns(e, contexts, maxSources)
  {
    var id := match e case Source(id, _) => id case Load(_) => 0 case Store(_, value) => value % M32;
    LastBit(id, maxSources);
  }

  predicate Concerns(e: Event, contexts: nat, id: nat)
  {
    match e
    case Source(source, _) => source == id
    case Load(_) => false
    case Store(offset, value) => ClaimOf(offset, contexts).Some? && value % M32 == id
  }

  lemma LastBit(id: nat, maxSources: nat)
    requires maxSources > 0
    ensures HasBit(id, maxSources) <==> maxSources % 32 != 0 || id != maxSources
  {
  }

  datatype Event = Source(id: nat, on: bool) | Load(offset: nat) | Store(offset: nat, value: nat)

  /** The context whose claim and complete register this is. */
  function ClaimOf(offset: nat, contexts: nat): (r: Option<nat>)
    ensures r.Some? ==> r.value < contexts
  {
    if 0x20_0000 <= offset < 0x20_0000 + contexts * 0x1000 && (offset - 0x20_0000) % 0x1000 == 4 then
      Some((offset - 0x20_0000) / 0x1000)
    else None
  }

  /** The context whose threshold register this is. */
  function ThresholdOf(offset: nat, contexts: nat): (r: Option<nat>)
    ensures r.Some? ==> r.value < contexts
  {
    if 0x20_0000 <= offset < 0x20_0000 + contexts * 0x1000 && (offset - 0x20_0000) % 0x1000 == 0 then
      Some((offset - 0x20_0000) / 0x1000)
    else None
  }

  /** The context and word whose enable register this is. */
  function EnableOf(offset: nat, contexts: nat, maxSources: nat): (r: Option<(nat, nat)>)
    ensures r.Some? ==> r.value.0 < contexts && r.value.1 < WordCount(maxSources)
  {
    if offset < 0x2000 || offset >= 0x20_0000 then None
    else
      var c, w := (offset - 0x2000) / 0x80, (offset - 0x2000) % 0x80 / 4;
      if c < contexts && w < WordCount(maxSources) then Some((c, w)) else None
  }

  function ToBits(v: nat): Bits32 { seq(32, k requires 0 <= k < 32 => v / Pow2(k) % 2 == 1) }

  function FromBits(b: Bits32, k: nat): nat
    requires k <= 32
    decreases 32 - k
  {
    if k == 32 then 0 else (if b[k] then 1 else 0) + 2 * FromBits(b, k + 1)
  }

  /** A word written to an enable register reads back. */
  lemma WordRoundTrip(v: nat)
    requires v < M32
    ensures FromBits(ToBits(v), 0) == v
  {
    assert Pow2(0) == 1;
    WordFrom(v, 0);
  }

  lemma {:induction false} WordFrom(v: nat, k: nat)
    requires v < M32 && k <= 32
    ensures Pow2(k) > 0 && FromBits(ToBits(v), k) == v / Pow2(k)
    decreases 32 - k
  {
    if k == 32 {
      Pow2At64();
      DivModUnique(v, Pow2(32), 0, v);
    } else {
      WordFrom(v, k + 1);
      HalfDiv(v, k);
    }
  }

  // What does not hold -----------------------------------------------------------------------

  ghost predicate Cleared(before: seq<Bits32>, after: seq<Bits32>, id: nat)
  {
    !BitOf(after, id) && forall j: nat | j != id :: BitOf(after, j) == BitOf(before, j)
  }

  /** Claim and complete recompute one context only.  Another context's line, right before,
      is right afterwards exactly when the cleared source was not its only one; otherwise
      it stays raised with nothing to claim. */
  lemma OtherLineExactly(before: seq<Bits32>, after: seq<Bits32>, priorities: seq<nat>, c: Context, id: nat)
    requires Exact(before, priorities, c) && Cleared(before, after, id)
    ensures Exact(after, priorities, c) <==>
            (Asks(before, priorities, c, id) ==> exists j: nat :: j != id && Asks(before, priorities, c, j))
  {
    forall j: nat ensures Asks(after, priorities, c, j) == (j != id && Asks(before, priorities, c, j)) {
    }
    if Asks(before, priorities, c, id) {
      assert c.line;
      if j: nat :| j != id && Asks(before, priorities, c, j) {
        assert Asks(after, priorities, c, j);
      }
    } else if AnyAsks(before, priorities, c) {
      var j: nat :| Asks(before, priorities, c, j);
      assert Asks(after, priorities, c, j);
    }
  }

  const FIRST: Bits32 := NO_BITS[1 := true]

  /** Source 1 enabled for every context of a new controller. */
  method Enabled(count: nat) returns (p: Plic)
    requires count > 0
    ensures fresh(p) && p.Valid() && p.maxSources == 1 && |p.contexts| == count && p.priorities == [0, 1]
    ensures forall c | 0 <= c < count :: p.contexts[c].enables == [FIRST] && p.contexts[c].threshold == 0
    ensures forall j: nat :: !BitOf(p.pending, j)
  {
    hide AnyAsks, BitOf, Exact;
    p := new Plic(1, count);
    p.WritePriority(1, 1);
    for i := 0 to count
      invariant p.Valid() && |p.contexts| == count && p.priorities == [0, 1] && forall j: nat :: !BitOf(p.pending, j)
      invariant forall c | 0 <= c < count :: p.contexts[c].threshold == 0 && |p.contexts[c].enables| == 1
      invariant forall c | 0 <= c < i :: p.contexts[c].enables == [FIRST]
    {
      p.WriteEnable(i, 0, FIRST);
    }
  }

  /** A run that ends with a spurious line: two contexts are enabled for one source, the first
      claims it, and the second's line stays raised although no source asks for it. */
  method SpuriousLine() returns (p: Plic, id: nat)
    ensures id == 1 && |p.contexts| == 2 && p.contexts[1].line && !AnyAsks(p.pending, p.priorities, p.contexts[1])
  {
    p := Enabled(2);
    var done := p.SetPending(1, true);
    OnlyFirst(p.pending, p.priorities, p.contexts[0]);
    OnlyFirst(p.pending, p.priorities, p.contexts[1]);
    id := p.Claim(0);
    OnlyFirst(p.pending, p.priorities, p.contexts[1]);
  }

  /** A run that drops a request: the source is raised again between claim and complete, and
      after complete there is nothing to claim. */
  method LateRequestIsDropped() returns (first: nat, second: nat)
    ensures first == 1 && second == 0
  {
    var p := Enabled(1);
    var done := p.SetPending(1, true);
    OnlyFirst(p.pending, p.priorities, p.contexts[0]);
    first := p.Claim(0);
    done := p.SetPending(1, true);
    done := p.Complete(0, first);
    OnlyFirst(p.pending, p.priorities, p.contexts[0]);
    second := p.Claim(0);
  }

  lemma OnlyFirst(pending: seq<Bits32>, priorities: seq<nat>, c: Context)
    requires priorities == [0, 1] && c.enables == [FIRST] && c.threshold == 0
    ensures forall r | Best(pending, priorities, c, 2, r) :: r == if BitOf(pending, 1) then 1 else 0
    ensures AnyAsks(pending, priorities, c) <==> BitOf(pending, 1)
  {
    if BitOf(pending, 1) { assert Asks(pending, priorities, c, 1); }
  }

  /** The bound checks admit source ids up to the maximum, but the words hold one bit fewer
      when the maximum is a multiple of 32: then, and only then, the last source has no
      pending bit. */
  lemma LastSourceExactly(maxSources: nat)
    requires maxSources > 0
    ensures (forall id: nat | 1 <= id <= maxSources :: id / 32 < WordCount(maxSources)) <==> maxSources % 32 != 0
  {
    if maxSources % 32 == 0 {
      assert maxSources / 32 == WordCount(maxSources);
      assert 1 <= maxSources <= maxSources;
    } else {
      forall id: nat | 1 <= id <= maxSources ensures id / 32 < WordCount(maxSources) {
      }
    }
  }

  lemma NoneBelow(pending: seq<Bits32>, priorities: seq<nat>, c: Context)
    ensures Best(pending, priorities, c, 0, 0)
  {
  }

  /** Bits between two set ones are clear. */
  lemma Skipped(pending: seq<Bits32>, priorities: seq<nat>, c: Context, word: nat, pos: nat, bit: nat, best: nat)
    requires word < |pending| && word < |c.enables| && pos <= bit <= 32
    requires Best(pending, priorities, c, 32 * word + pos, best)
    requires forall k | pos <= k < bit :: !(pending[word][k] && c.enables[word][k])
    ensures Best(pending, priorities, c, 32 * word + bit, best)
  {
    hide Best, BitOf;
    forall id: nat | 32 * word + pos <= id < 32 * word + bit ensures !Asks(pending, priorities, c, id) {
      WordBit(pending, word, id - 32 * word);
      WordBit(c.enables, word, id - 32 * word);
    }
    SkipBest(pending, priorities, c, 32 * word + pos, 32 * word + bit, best);
  }

  lemma Taken(pending: seq<Bits32>, priorities: seq<nat>, c: Context, word: nat, bit: nat, best: nat)
    requires word < |pending| && word < |c.enables| && bit < 32 && Best(pending, priorities, c, 32 * word + bit, best)
    requires pending[word][bit] && c.enables[word][bit] && best < |priorities|
    ensures var id := 32 * word + bit;
            Best(pending, priorities, c, id + 1, if id < |priorities| then Merge(priorities, c, best, id) else best)
  {
    hide Best, BitOf;
    var id := 32 * word + bit;
    WordBit(pending, word, bit);
    WordBit(c.enables, word, bit);
    if id < |priorities| {
      MergeBest(pending, priorities, c, id, best);
    } else {
      SkipBest(pending, priorities, c, id, id + 1, best);
    }
  }

  lemma AllScanned(pending: seq<Bits32>, priorities: seq<nat>, c: Context, best: nat, maxSources: nat)
    requires Best(pending, priorities, c, 32 * |pending|, best) && |priorities| == maxSources + 1
    ensures Best(pending, priorities, c, |priorities|, best)
    ensures best == 0 <==> !AnyAsks(pending, priorities, c)
  {
  }
}
