/** Split virtqueue processing of the entropy device (virtio_rng.cpp), after section 2.6 of
    VirtIO 1.1. */
module Virtqueues {
  import opened Words
  import opened Options

  const M16: nat := 0x1_0000

  /** Guest memory; unwritten bytes read 0. */
  type Memory = map<nat, Byte>

  function Get(m: Memory, a: nat): Byte { if a in m then m[a] else 0 }

  function Load(m: Memory, a: nat, n: nat): nat
    decreases n
  {
    if n == 0 then 0 else Get(m, a) + 256 * Load(m, a + 1, n - 1)
  }

  function Put(m: Memory, a: nat, n: nat, v: nat): Memory
    decreases n
  {
    if n == 0 then m else Put(m[a := v % 256], a + 1, n - 1, v / 256)
  }

  datatype Desc = Desc(addr: nat, len: nat, flags: nat, next: nat)

  datatype Queue = Queue(size: nat, desc: nat, avail: nat, used: nat)

  datatype Used = Used(head: nat, written: nat)

  predicate HasNext(d: Desc) { d.flags % 2 == 1 }
  predicate Writable(d: Desc) { d.flags / 2 % 2 == 1 }

  function DescAt(m: Memory, q: Queue, idx: nat): Desc
  {
    var a := q.desc + idx * 16;
    Desc(Load(m, a, 8), Load(m, a + 8, 4), Load(m, a + 12, 2), Load(m, a + 14, 2))
  }

  // Chains --------------------------------------------------------------------------------------

  /** Following next fields for at most `fuel` descriptors. */
  function Follow(m: Memory, q: Queue, idx: nat, fuel: nat): Option<seq<Desc>>
    decreases fuel
  {
    if fuel == 0 then None
    else
      var d := DescAt(m, q, idx);
      if !HasNext(d) then Some([d])
      else
        match Follow(m, q, d.next, fuel - 1)
        case None => None
        case Some(rest) => Some([d] + rest)
  }

  /** The descriptors are a chain from idx: each names the next, and only the last is final. */
  ghost predicate IsChain(m: Memory, q: Queue, idx: nat, c: seq<Desc>)
    decreases |c|
  {
    && c != [] && c[0] == DescAt(m, q, idx)
    && if |c| == 1 then !HasNext(c[0]) else HasNext(c[0]) && IsChain(m, q, c[0].next, c[1..])
  }

  /** The bounded walk finds exactly the chains of at most that many descriptors. */
  lemma {:induction false} FollowExactly(m: Memory, q: Queue, idx: nat, fuel: nat, c: seq<Desc>)
    ensures Follow(m, q, idx, fuel) == Some(c) <==> IsChain(m, q, idx, c) && |c| <= fuel
    decreases fuel
  {
    hide DescAt;
    if |c| == 1 { assert c == [c[0]]; }
    if fuel > 0 {
      var d := DescAt(m, q, idx);
      if HasNext(d) && c != [] {
        FollowExactly(m, q, d.next, fuel - 1, c[1..]);
        assert |c| > 0 ==> c == [c[0]] + c[1..];
        var rest := Follow(m, q, d.next, fuel - 1);
        if rest.Some? {
          FollowExactly(m, q, d.next, fuel - 1, rest.value);
          assert ([d] + rest.value)[1..] == rest.value;
        }
      }
    }
  }

  /** The index k next fields lead to, if none of the k descriptors on the way is final. */
  function Reach(m: Memory, q: Queue, idx: nat, k: nat): Option<nat>
    decreases k
  {
    if k == 0 then Some(idx)
    else
      var d := DescAt(m, q, idx);
      if HasNext(d) then Reach(m, q, d.next, k - 1) else None
  }

  lemma {:induction false} ReachSum(m: Memory, q: Queue, idx: nat, j: nat, k: nat)
    ensures var r := Reach(m, q, idx, j); Reach(m, q, idx, j + k) == if r.Some? then Reach(m, q, r.value, k) else None
    decreases j
  {
    hide DescAt;
    if j > 0 && HasNext(DescAt(m, q, idx)) { ReachSum(m, q, DescAt(m, q, idx).next, j - 1, k); }
  }

  /** The walk gives up exactly if so many next fields can be followed. */
  lemma {:induction false} FollowFails(m: Memory, q: Queue, idx: nat, fuel: nat)
    ensures Follow(m, q, idx, fuel) == None <==> Reach(m, q, idx, fuel).Some?
    decreases fuel
  {
    hide DescAt;
    if fuel > 0 && HasNext(DescAt(m, q, idx)) { FollowFails(m, q, DescAt(m, q, idx).next, fuel - 1); }
  }

  /** From head the walk comes back to a descriptor it has seen. */
  ghost predicate Cyclic(m: Memory, q: Queue, head: nat)
  {
    exists j: nat, k: nat :: Returns(m, q, head, j, k)
  }

  ghost predicate Returns(m: Memory, q: Queue, head: nat, j: nat, k: nat)
  {
    j < k && Reach(m, q, head, j).Some? && Reach(m, q, head, k) == Reach(m, q, head, j)
  }

  /** A walk that reaches a cycle never ends, whatever the bound. */
  lemma LoopRefused(m: Memory, q: Queue, head: nat, fuel: nat)
    requires Cyclic(m, q, head)
    ensures Follow(m, q, head, fuel) == None
  {
    hide Follow, Reach;
    var j: nat, k: nat :| Returns(m, q, head, j, k);
    GoesOn(m, q, head, j, k, fuel);
    FollowFails(m, q, head, fuel);
  }

  lemma {:induction false} GoesOn(m: Memory, q: Queue, head: nat, j: nat, k: nat, n: nat)
    requires j < k && Reach(m, q, head, j).Some? && Reach(m, q, head, k) == Reach(m, q, head, j)
    ensures Reach(m, q, head, n).Some?
    decreases n
  {
    hide Reach;
    if n <= k {
      ReachSum(m, q, head, n, k - n);
    } else {
      GoesOn(m, q, head, j, k, n - (k - j));
      ReachSum(m, q, head, k, n - k);
      ReachSum(m, q, head, j, n - k);
    }
  }

  /** Among more than n numbers below n two are equal. */
  lemma {:induction false} Pigeons(s: seq<nat>, n: nat) returns (i: nat, j: nat)
    requires |s| > n && forall k | 0 <= k < |s| :: s[k] < n
    ensures i < j < |s| && s[i] == s[j]
    decreases n
  {
    var last := s[|s| - 1];
    if k :| 0 <= k < |s| - 1 && s[k] == last {
      return k, |s| - 1;
    }
    // the values below n - 1 once the value n - 1 is renamed to the last one
    var t := seq(|s| - 1, k requires 0 <= k < |s| - 1 => if s[k] == n - 1 then last else s[k]);
    i, j := Pigeons(t, n - 1);
  }

  /** No bound lets the walk from head finish. */
  ghost predicate Refused(m: Memory, q: Queue, head: nat)
  {
    forall fuel: nat :: Follow(m, q, head, fuel) == None
  }

  /** A head is refused at every bound exactly if its walk reaches a cycle: an index has 16
      bits, so a walk without one ends. */
  lemma RefusedExactly(m: Memory, q: Queue, head: nat)
    requires head < M16
    ensures Refused(m, q, head) <==> Cyclic(m, q, head)
  {
    hide Follow, Reach, Cyclic;
    if Cyclic(m, q, head) {
      forall fuel: nat ensures Follow(m, q, head, fuel) == None { LoopRefused(m, q, head, fuel); }
    }
    if Refused(m, q, head) {
      EndlessCycles(m, q, head);
    }
  }

  lemma EndlessCycles(m: Memory, q: Queue, head: nat)
    requires head < M16 && Refused(m, q, head)
    ensures Cyclic(m, q, head)
  {
    hide Follow, Reach;
    forall k: nat ensures Reach(m, q, head, k).Some? && Reach(m, q, head, k).value < M16 {
      assert Follow(m, q, head, k) == None;
      FollowFails(m, q, head, k);
      ReachBound(m, q, head, k);
    }
    var s := seq(M16 + 1, k requires 0 <= k < M16 + 1 => Reach(m, q, head, k).value);
    var i, j := Pigeons(s, M16);
    assert Returns(m, q, head, i, j);
  }

  lemma {:induction false} ReachBound(m: Memory, q: Queue, idx: nat, k: nat)
    requires idx < M16
    ensures var r := Reach(m, q, idx, k); r.Some? ==> r.value < M16
    decreases k
  {
    hide Load;
    if k > 0 {
      var d := DescAt(m, q, idx);
      LoadBound(m, q.desc + idx * 16 + 14, 2);
      Widths();
      if HasNext(d) { ReachBound(m, q, d.next, k - 1); }
    }
  }

  function Total(c: seq<Desc>): nat
  {
    if c == [] then 0 else Total(c[..|c| - 1]) + if Writable(c[|c| - 1]) then c[|c| - 1].len else 0
  }

  // What is to be published ------------------------------------------------------------------------

  function HeadAt(m: Memory, q: Queue, index: nat): nat
    requires q.size > 0
  {
    Load(m, q.avail + 4 + index % M16 % q.size * 2, 2)
  }

  /** One used element for each well-formed chain among the n entries from `first` on. */
  function Expected(m: Memory, q: Queue, first: nat, n: nat): seq<Used>
    requires q.size > 0
  {
    if n == 0 then []
    else Expected(m, q, first, n - 1) + OneEntry(m, q, HeadAt(m, q, first + n - 1))
  }

  function OneEntry(m: Memory, q: Queue, head: nat): seq<Used>
  {
    match Fetch(m, q, head)
    case None => []
    case Some(c) => [Used(head, Total(c) % M32)]
  }

  /** fetch_descriptor_chain: no table, no chain. */
  function Fetch(m: Memory, q: Queue, head: nat): Option<seq<Desc>>
  {
    if q.desc == 0 then None else Follow(m, q, head, q.size)
  }

  // Memory ------------------------------------------------------------------------------------------------

  lemma {:induction false} LoadSame(m: Memory, m': Memory, a: nat, n: nat)
    requires forall i | a <= i < a + n :: Get(m, i) == Get(m', i)
    ensures Load(m, a, n) == Load(m', a, n)
    decreases n
  {
    if n > 0 { LoadSame(m, m', a + 1, n - 1); }
  }

  lemma {:induction false} LoadBound(m: Memory, a: nat, n: nat)
    ensures Load(m, a, n) < Pow2(8 * n)
    decreases n
  {
    if n > 0 {
      LoadBound(m, a + 1, n - 1);
      Pow2Adds(8, 8 * (n - 1));
      assert Pow2(8) == 256;
    }
  }

  lemma {:induction false} PutElsewhere(m: Memory, a: nat, n: nat, v: nat, i: nat)
    requires !(a <= i < a + n)
    ensures Get(Put(m, a, n, v), i) == Get(m, i)
    decreases n
  {
    if n > 0 { PutElsewhere(m[a := v % 256], a + 1, n - 1, v / 256, i); }
  }

  lemma {:induction false} PutThere(m: Memory, a: nat, n: nat, v: nat)
    requires v < Pow2(8 * n)
    ensures Load(Put(m, a, n, v), a, n) == v
    decreases n
  {
    if n > 0 {
      Pow2Adds(8, 8 * (n - 1));
      assert Pow2(8) == 256;
      PutElsewhere(m[a := v % 256], a + 1, n - 1, v / 256, a);
      PutThere(m[a := v % 256], a + 1, n - 1, v / 256);
    }
  }

  lemma Widths()
    ensures Pow2(16) == M16 && Pow2(32) == M32
  {
    Pow2At64();
    assert Pow2(8) == 256;
    Pow2Adds(8, 8);
  }

  // Who may write where --------------------------------------------------------------------------------------

  /** The entries still to be handled when the driver's index is read. */
  function Todo(m: Memory, q: Queue, la: nat): nat { (Load(m, q.avail + 2, 2) - la) % M16 }

  predicate InAvail(q: Queue, a: nat) { q.avail <= a < q.avail + 4 + 2 * q.size }

  predicate InUsed(q: Queue, a: nat) { q.used <= a < q.used + 4 + 8 * q.size }

  predicate InDesc(q: Queue, idx: nat, a: nat) { q.desc + idx * 16 <= a < q.desc + idx * 16 + 16 }

  /** The address belongs to the k-th descriptor a walk from head reads. */
  predicate AtStep(m: Memory, q: Queue, head: nat, k: nat, a: nat)
  {
    var r := Reach(m, q, head, k);
    r.Some? && InDesc(q, r.value, a)
  }

  /** The address belongs to a descriptor the bounded walk from head reads. */
  predicate OnWalk(m: Memory, q: Queue, head: nat, fuel: nat, a: nat)
  {
    exists k :: 0 <= k < fuel && AtStep(m, q, head, k, a)
  }

  predicate ReadByEntry(m: Memory, q: Queue, index: nat, a: nat)
    requires q.size > 0
  {
    OnWalk(m, q, HeadAt(m, q, index), q.size, a)
  }

  /** The driver's side of a pass over the entries from la on: the available ring, and the
      descriptors the walks from these entries' heads read. */
  predicate InControl(m: Memory, q: Queue, la: nat, a: nat)
    requires q.size > 0
  {
    InAvail(q, a) || exists i :: la <= i < la + Todo(m, q, la) && ReadByEntry(m, q, i, a)
  }

  predicate InBuffer(c: seq<Desc>, a: nat) { exists d :: d in c && Writable(d) && d.addr <= a < d.addr + d.len }

  /** The device writes the address while serving the entry. */
  predicate FilledByEntry(m: Memory, q: Queue, index: nat, a: nat)
    requires q.size > 0
  {
    var c := Fetch(m, q, HeadAt(m, q, index));
    c.Some? && InBuffer(c.value, a)
  }

  /** What the device writes in the pass overlaps neither what it reads nor the used ring. */
  ghost predicate Separate(m: Memory, q: Queue, la: nat)
    requires q.size > 0
  {
    && (forall a: nat | InUsed(q, a) :: !InControl(m, q, la, a))
    && forall i: nat, a: nat | la <= i < la + Todo(m, q, la) && FilledByEntry(m, q, i, a) ::
          !InUsed(q, a) && !InControl(m, q, la, a)
  }

  ghost predicate SameControl(m: Memory, m': Memory, q: Queue, la: nat)
    requires q.size > 0
  {
    forall a: nat | InControl(m, q, la, a) :: Get(m', a) == Get(m, a)
  }

  /** The split ring as a driver lays it out: a table of `size` descriptors and two rings,
      apart from each other and from the buffers of every chain on offer. */
  ghost predicate LaidOut(m: Memory, q: Queue, la: nat)
    requires q.size > 0
  {
    && (forall a: nat | InUsed(q, a) :: !InAvail(q, a) && !InTable(q, a))
    && (forall i: nat | la <= i < la + Todo(m, q, la) :: HeadAt(m, q, i) < q.size)
    && (forall idx: nat | idx < q.size && HasNext(DescAt(m, q, idx)) :: DescAt(m, q, idx).next < q.size)
    && forall i: nat, a: nat | la <= i < la + Todo(m, q, la) && FilledByEntry(m, q, i, a) ::
         !InUsed(q, a) && !InAvail(q, a) && !InTable(q, a)
  }

  predicate InTable(q: Queue, a: nat) { q.desc <= a < q.desc + 16 * q.size }

  /** Such a layout, however tightly packed, is all a pass needs. */
  lemma LaidOutSeparate(m: Memory, q: Queue, la: nat)
    requires q.size > 0 && LaidOut(m, q, la)
    ensures Separate(m, q, la)
  {
    hide Reach, HeadAt, DescAt, FilledByEntry, HasNext;
    forall a: nat | InControl(m, q, la, a) ensures InAvail(q, a) || InTable(q, a) {
      if i :| la <= i < la + Todo(m, q, la) && ReadByEntry(m, q, i, a) {
        var head := HeadAt(m, q, i);
        var k :| 0 <= k < q.size && AtStep(m, q, head, k, a);
        ReachInTable(m, q, head, k);
      }
    }
  }

  lemma {:induction false} ReachInTable(m: Memory, q: Queue, idx: nat, k: nat)
    requires idx < q.size
    requires forall i: nat | i < q.size && HasNext(DescAt(m, q, i)) :: DescAt(m, q, i).next < q.size
    ensures var r := Reach(m, q, idx, k); r.Some? ==> r.value < q.size
    decreases k
  {
    hide DescAt;
    if k > 0 && HasNext(DescAt(m, q, idx)) { ReachInTable(m, q, DescAt(m, q, idx).next, k - 1); }
  }

  lemma SameDesc(m: Memory, m': Memory, q: Queue, idx: nat)
    requires forall a: nat | InDesc(q, idx, a) :: Get(m', a) == Get(m, a)
    ensures DescAt(m', q, idx) == DescAt(m, q, idx)
  {
    hide Load, Get;
    var a := q.desc + idx * 16;
    assert forall i | a <= i < a + 16 :: InDesc(q, idx, i);
    LoadSame(m, m', a, 8);
    LoadSame(m, m', a + 8, 4);
    LoadSame(m, m', a + 12, 2);
    LoadSame(m, m', a + 14, 2);
  }

  lemma {:induction false} SameFollow(m: Memory, m': Memory, q: Queue, idx: nat, fuel: nat)
    requires forall a: nat | OnWalk(m, q, idx, fuel, a) :: Get(m', a) == Get(m, a)
    ensures Follow(m', q, idx, fuel) == Follow(m, q, idx, fuel)
    decreases fuel
  {
    hide DescAt, Get, OnWalk, InDesc, HasNext, Follow;
    FollowStep(m, q, idx, fuel);
    FollowStep(m', q, idx, fuel);
    if fuel > 0 {
      var d := DescAt(m, q, idx);
      forall a: nat | InDesc(q, idx, a) ensures Get(m', a) == Get(m, a) { FirstRead(m, q, idx, fuel, a); }
      SameDesc(m, m', q, idx);
      if HasNext(d) {
        forall a: nat | OnWalk(m, q, d.next, fuel - 1, a) ensures Get(m', a) == Get(m, a) {
          LaterRead(m, q, idx, fuel, a);
        }
        SameFollow(m, m', q, d.next, fuel - 1);
      }
    }
  }

  lemma FollowStep(m: Memory, q: Queue, idx: nat, fuel: nat)
    ensures Follow(m, q, idx, fuel) ==
            if fuel == 0 then None
            else
              var d := DescAt(m, q, idx);
              if HasNext(d) then Prepend([d], Follow(m, q, d.next, fuel - 1)) else Some([d])
  {
  }

  lemma FirstRead(m: Memory, q: Queue, idx: nat, fuel: nat, a: nat)
    requires fuel > 0 && InDesc(q, idx, a)
    ensures OnWalk(m, q, idx, fuel, a)
  {
    assert AtStep(m, q, idx, 0, a);
  }

  lemma LaterRead(m: Memory, q: Queue, idx: nat, fuel: nat, a: nat)
    requires fuel > 0 && HasNext(DescAt(m, q, idx)) && OnWalk(m, q, DescAt(m, q, idx).next, fuel - 1, a)
    ensures OnWalk(m, q, idx, fuel, a)
  {
    hide DescAt;
    var k :| 0 <= k < fuel - 1 && AtStep(m, q, DescAt(m, q, idx).next, k, a);
    assert AtStep(m, q, idx, k + 1, a);
  }

  lemma SameHead(m: Memory, m': Memory, q: Queue, la: nat, index: nat)
    requires q.size > 0 && SameControl(m, m', q, la)
    ensures HeadAt(m', q, index) == HeadAt(m, q, index) < M16
  {
    hide Load, Get, ReadByEntry;
    var slot := index % M16 % q.size;
    var a := q.avail + 4 + slot * 2;
    assert InControl(m, q, la, a) && InControl(m, q, la, a + 1);
    LoadSame(m, m', a, 2);
    LoadBound(m, a, 2);
    Widths();
  }

  // The used ring -----------------------------------------------------------------------------------------------

  function SlotAddr(q: Queue, index: nat): nat
    requires q.size > 0
  {
    q.used + 4 + index % M16 % q.size * 8
  }

  function ElemAt(m: Memory, q: Queue, index: nat): Used
    requires q.size > 0
  {
    Used(Load(m, SlotAddr(q, index), 4), Load(m, SlotAddr(q, index) + 4, 4))
  }

  /** The ring holds the latest elements, as many as fit. */
  ghost predicate RingHolds(m: Memory, q: Queue, first: nat, log: seq<Used>)
    requires q.size > 0
  {
    forall j | 0 <= j < |log| && j + q.size >= |log| :: ElemAt(m, q, first + j) == log[j]
  }

  ghost predicate SameExceptUsed(m: Memory, m': Memory, q: Queue)
  {
    forall a: nat | !InUsed(q, a) :: Get(m', a) == Get(m, a)
  }

  /** Publishing one element: where it lands and what it leaves alone. */
  function Published(m: Memory, q: Queue, lastUsed: nat, e: Used): Memory
    requires q.size > 0
  {
    var a := SlotAddr(q, lastUsed);
    Put(Put(Put(m, a, 4, e.head), a + 4, 4, e.written), q.used + 2, 2, (lastUsed + 1) % M16)
  }

  lemma PublishedOk(m: Memory, q: Queue, lastUsed: nat, e: Used)
    requires q.size > 0 && e.head < M32 && e.written < M32
    ensures var m' := Published(m, q, lastUsed, e);
            ElemAt(m', q, lastUsed) == e && Load(m', q.used + 2, 2) == (lastUsed + 1) % M16 && SameExceptUsed(m, m', q)
  {
    hide Load, Put, Pow2, Get;
    var a := SlotAddr(q, lastUsed);
    Widths();
    SlotBound(q, lastUsed);
    var m1 := Put(m, a, 4, e.head);
    var m2 := Put(m1, a + 4, 4, e.written);
    var m3 := Put(m2, q.used + 2, 2, (lastUsed + 1) % M16);
    PutThere(m, a, 4, e.head);
    PutThere(m1, a + 4, 4, e.written);
    PutThere(m2, q.used + 2, 2, (lastUsed + 1) % M16);
    PutFrame(m1, a + 4, 4, e.written);
    PutFrame(m2, q.used + 2, 2, (lastUsed + 1) % M16);
    PutFrame(m, a, 4, e.head);
    LoadSame(m1, m3, a, 4);
    LoadSame(m2, m3, a + 4, 4);
  }

  lemma SlotBound(q: Queue, index: nat)
    requires q.size > 0
    ensures q.used + 4 <= SlotAddr(q, index) && SlotAddr(q, index) + 8 <= q.used + 4 + 8 * q.size
  {
  }

  lemma PutFrame(m: Memory, a: nat, n: nat, v: nat)
    ensures forall i: nat | !(a <= i < a + n) :: Get(Put(m, a, n, v), i) == Get(m, i)
  {
    forall i: nat | !(a <= i < a + n) ensures Get(Put(m, a, n, v), i) == Get(m, i) {
      PutElsewhere(m, a, n, v, i);
    }
  }

  /** Elements in other slots stay. */
  lemma PublishedElsewhere(m: Memory, q: Queue, lastUsed: nat, e: Used, index: nat)
    requires q.size > 0 && index % M16 % q.size != lastUsed % M16 % q.size
    ensures ElemAt(Published(m, q, lastUsed, e), q, index) == ElemAt(m, q, index)
  {
    hide Load, Put, Get;
    var a, b := SlotAddr(q, lastUsed), SlotAddr(q, index);
    SlotBound(q, index);
    var m1 := Put(m, a, 4, e.head);
    var m2 := Put(m1, a + 4, 4, e.written);
    PutFrame(m, a, 4, e.head);
    PutFrame(m1, a + 4, 4, e.written);
    PutFrame(m2, q.used + 2, 2, (lastUsed + 1) % M16);
    LoadSame(m, Published(m, q, lastUsed, e), b, 4);
    LoadSame(m, Published(m, q, lastUsed, e), b + 4, 4);
  }

  /** Fewer than `size` indices apart means different slots, if the size divides 2^16. */
  lemma DifferentSlots(size: nat, i: nat, j: nat)
    requires size > 0 && M16 % size == 0 && i < j < i + size
    ensures i % M16 % size != j % M16 % size
  {
    ModMod(i, size);
    ModMod(j, size);
    var k, d := j / size - i / size, j % size - i % size;
    assert j - i == size * k + d by {
      assert i == size * (i / size) + i % size && j == size * (j / size) + j % size;
      assert size * (j / size) - size * (i / size) == size * k;
    }
    if d == 0 { SmallMultiple(size, k, j - i); }
  }

  lemma ModMod(x: nat, size: nat)
    requires size > 0 && M16 % size == 0
    ensures x % M16 % size == x % size
  {
    var n := M16 / size;
    var q, r := x / M16, x % M16;
    var t, u := r / size, r % size;
    assert M16 == size * n && r == size * t + u;
    assert M16 * q == size * (n * q) by { assert size * n * q == size * (n * q); }
    assert size * (n * q + t) == size * (n * q) + size * t;
    DivModUnique(x, size, n * q + t, u);
  }

  lemma RingGrows(m: Memory, q: Queue, first: nat, log: seq<Used>, e: Used)
    requires q.size > 0 && M16 % q.size == 0 && RingHolds(m, q, first, log) && e.head < M32 && e.written < M32
    ensures RingHolds(Published(m, q, (first + |log|) % M16, e), q, first, log + [e])
  {
    hide ElemAt, Published;
    var lastUsed := (first + |log|) % M16;
    var m' := Published(m, q, lastUsed, e);
    PublishedOk(m, q, lastUsed, e);
    SameIndex(m', q, first + |log|);
    forall j | 0 <= j < |log| && j + q.size >= |log| + 1 ensures ElemAt(m', q, first + j) == log[j] {
      DifferentSlots(q.size, first + j, first + |log|);
      PublishedElsewhere(m, q, lastUsed, e, first + j);
    }
  }

  lemma SameIndex(m: Memory, q: Queue, i: nat)
    requires q.size > 0
    ensures ElemAt(m, q, i % M16) == ElemAt(m, q, i) && i % M16 % M16 % q.size == i % M16 % q.size
  {
  }

  /** Writes outside the used ring leave its elements alone. */
  lemma RingKeeps(m: Memory, m': Memory, q: Queue, first: nat, log: seq<Used>)
    requires q.size > 0 && RingHolds(m, q, first, log) && forall a: nat | InUsed(q, a) :: Get(m', a) == Get(m, a)
    ensures RingHolds(m', q, first, log)
  {
    hide Load, Get;
    forall j | 0 <= j < |log| && j + q.size >= |log| ensures ElemAt(m', q, first + j) == log[j] {
      SlotBound(q, first + j);
      LoadSame(m, m', SlotAddr(q, first + j), 4);
      LoadSame(m, m', SlotAddr(q, first + j) + 4, 4);
    }
  }

  // The device ------------------------------------------------------------------------------------------------------

  /** Out of descriptors already found and what is still to be followed. */
  function Prepend(out: seq<Desc>, rest: Option<seq<Desc>>): Option<seq<Desc>>
  {
    match rest case None => None case Some(r) => Some(out + r)
  }

  lemma NothingYet(m: Memory, q: Queue, head: nat, fuel: nat)
    ensures Prepend([], Follow(m, q, head, fuel)) == Follow(m, q, head, fuel)
  {
    var r := Follow(m, q, head, fuel);
    if r.Some? { assert [] + r.value == r.value; }
  }

  lemma OneMoreDesc(m: Memory, q: Queue, idx: nat, fuel: nat, out: seq<Desc>)
    requires fuel > 0
    ensures var d := DescAt(m, q, idx);
            Prepend(out, Follow(m, q, idx, fuel)) ==
                if HasNext(d) then Prepend(out + [d], Follow(m, q, d.next, fuel - 1)) else Some(out + [d])
  {
    hide DescAt, HasNext;
    var d := DescAt(m, q, idx);
    if HasNext(d) {
      var rest := Follow(m, q, d.next, fuel - 1);
      if rest.Some? { assert out + ([d] + rest.value) == (out + [d]) + rest.value; }
    }
  }

  lemma TotalSnoc(c: seq<Desc>, i: nat)
    requires i < |c|
    ensures Total(c[..i + 1]) == Total(c[..i]) + if Writable(c[i]) then c[i].len else 0
  {
    assert c[..i + 1][..i] == c[..i];
  }

  lemma AddMod(a: nat, b: nat)
    ensures (a % M32 + b) % M32 == (a + b) % M32
  {
  }

  lemma AvailBound(m: Memory, q: Queue)
    ensures Load(m, q.avail + 2, 2) < M16
  {
    LoadBound(m, q.avail + 2, 2);
    Widths();
  }

  /** The result of one pass over the available ring. */
  ghost predicate Processed(m0: Memory, m: Memory, q: Queue, la0: nat, la: nat, lu0: nat, lu: nat, log0: seq<Used>,
                            log: seq<Used>)
    requires q.size > 0
  {
    var avail := Load(m0, q.avail + 2, 2);
    var out := Expected(m0, q, la0, Todo(m0, q, la0));
    && la == avail && log == log0 + out && lu == (lu0 + |out|) % M16 && SameControl(m0, m, q, la0)
    && (out != [] ==> Load(m, q.used + 2, 2) == lu)
    && (M16 % q.size == 0 ==> RingHolds(m, q, lu0, out))
  }

  /** After n entries. */
  ghost predicate Partway(m0: Memory, m: Memory, q: Queue, la0: nat, lu0: nat, lu: nat, log0: seq<Used>, log: seq<Used>,
                          n: nat)
    requires q.size > 0
  {
    var out := Expected(m0, q, la0, n);
    && log == log0 + out && lu == (lu0 + |out|) % M16 && SameControl(m0, m, q, la0)
    && (out != [] ==> Load(m, q.used + 2, 2) == lu)
    && (M16 % q.size == 0 ==> RingHolds(m, q, lu0, out))
  }

  lemma Begin(m: Memory, q: Queue, la: nat, lu: nat, log: seq<Used>)
    requires q.size > 0 && lu < M16
    ensures Partway(m, m, q, la, lu, lu, log, log, 0)
  {
    assert log + [] == log;
  }

  lemma AllDone(m0: Memory, m: Memory, q: Queue, la0: nat, la: nat, lu0: nat, lu: nat, log0: seq<Used>, log: seq<Used>,
                n: nat)
    requires q.size > 0 && Partway(m0, m, q, la0, lu0, lu, log0, log, n)
    requires la == Load(m0, q.avail + 2, 2) && n == (la - la0) % M16
    ensures Processed(m0, m, q, la0, la, lu0, lu, log0, log)
  {
    hide Expected, Load, SameControl, RingHolds;
  }

  lemma PartwayControl(m0: Memory, m: Memory, q: Queue, la0: nat, lu0: nat, lu: nat, log0: seq<Used>, log: seq<Used>,
                       n: nat)
    requires q.size > 0 && Partway(m0, m, q, la0, lu0, lu, log0, log, n)
    ensures SameControl(m0, m, q, la0) && lu < M16
  {
  }

  lemma Skip(m0: Memory, m: Memory, q: Queue, la0: nat, lu0: nat, lu: nat, log0: seq<Used>, log: seq<Used>, n: nat,
             head: nat)
    requires q.size > 0 && Partway(m0, m, q, la0, lu0, lu, log0, log, n)
    requires head == HeadAt(m0, q, la0 + n) && Fetch(m0, q, head).None?
    ensures Partway(m0, m, q, la0, lu0, lu, log0, log, n + 1)
  {
    hide Expected, Load, SameControl, RingHolds, Fetch, HeadAt;
    ExpectedNext(m0, q, la0, n);
    assert Expected(m0, q, la0, n) + [] == Expected(m0, q, la0, n);
  }

  lemma Serve(m0: Memory, m: Memory, m1: Memory, m2: Memory, q: Queue, la0: nat, lu0: nat, lu: nat, log0: seq<Used>,
              log: seq<Used>, n: nat, head: nat, c: seq<Desc>)
    requires q.size > 0 && Separate(m0, q, la0) && Partway(m0, m, q, la0, lu0, lu, log0, log, n)
    requires head < M16 && head == HeadAt(m0, q, la0 + n) && Fetch(m0, q, head) == Some(c)
    requires SameControl(m0, m1, q, la0) && forall a: nat | InUsed(q, a) :: Get(m1, a) == Get(m, a)
    requires m2 == Published(m1, q, lu, Used(head, Total(c) % M32))
    ensures Partway(m0, m2, q, la0, lu0, (lu + 1) % M16, log0, log + [Used(head, Total(c) % M32)], n + 1)
  {
    hide Expected, Load, SameControl, RingHolds, Fetch, HeadAt, Published, Separate, Get, InUsed, Total;
    var e := Used(head, Total(c) % M32);
    var out := Expected(m0, q, la0, n);
    Finished(m0, m, m1, m2, q, la0, lu0, lu, out, e);
    ExpectedNext(m0, q, la0, n);
    assert log0 + out + [e] == log0 + (out + [e]);
  }

  lemma NotDone(la: nat, avail: nat, n: nat, todo: nat)
    requires la < M16 && avail < M16 && todo == (avail - la) % M16 && n <= todo && (la + n) % M16 != avail
    ensures n < todo && ((la + n) % M16 + 1) % M16 == (la + n + 1) % M16
  {
    assert (la + todo) % M16 == avail;
  }

  lemma Done(la: nat, avail: nat, n: nat, todo: nat)
    requires la < M16 && avail < M16 && todo == (avail - la) % M16 && n <= todo && (la + n) % M16 == avail
    ensures n == todo
  {
    assert (la + todo) % M16 == avail;
  }

  /** The entry read now is the one the driver wrote. */
  lemma EntryFacts(m0: Memory, m: Memory, q: Queue, la: nat, n: nat, head: nat)
    requires q.size > 0 && SameControl(m0, m, q, la) && n < Todo(m0, q, la) && head == HeadAt(m, q, (la + n) % M16)
    ensures head < M16 && head == HeadAt(m0, q, la + n) && Fetch(m, q, head) == Fetch(m0, q, head)
  {
    hide Follow, Load, OnWalk, Get, InAvail;
    SameHead(m0, m, q, la, (la + n) % M16);
    assert head == HeadAt(m0, q, la + n);
    forall a: nat | OnWalk(m0, q, head, q.size, a) ensures Get(m, a) == Get(m0, a) {
      assert ReadByEntry(m0, q, la + n, a);
      assert InControl(m0, q, la, a);
    }
    SameFollow(m0, m, q, head, q.size);
  }

  lemma ExpectedNext(m: Memory, q: Queue, la: nat, n: nat)
    requires q.size > 0
    ensures Expected(m, q, la, n + 1) == Expected(m, q, la, n) + OneEntry(m, q, HeadAt(m, q, la + n))
  {
  }

  /** Filling a chain's buffers touches neither ring. */
  lemma BuffersApart(m0: Memory, m: Memory, m': Memory, q: Queue, la0: nat, n: nat, head: nat, c: seq<Desc>)
    requires q.size > 0 && Separate(m0, q, la0) && SameControl(m0, m, q, la0)
    requires n < Todo(m0, q, la0) && head == HeadAt(m0, q, la0 + n) && Fetch(m0, q, head) == Some(c)
    requires forall a: nat | !InBuffer(c, a) :: Get(m', a) == Get(m, a)
    ensures SameControl(m0, m', q, la0) && forall a: nat | InUsed(q, a) :: Get(m', a) == Get(m, a)
  {
    hide Fetch, InControl, InUsed, InBuffer, Get, HeadAt, Todo;
    forall a: nat | InUsed(q, a) || InControl(m0, q, la0, a) ensures Get(m', a) == Get(m, a) {
      if InBuffer(c, a) { assert FilledByEntry(m0, q, la0 + n, a); }
    }
  }

  lemma AsPublished(m: Memory, q: Queue, lastUsed: nat, e: Used, m': Memory)
    requires q.size > 0
    requires var a := SlotAddr(q, lastUsed);
             m' == Put(Put(Put(m, a, 4, e.head), a + 4, 4, e.written), q.used + 2, 2, (lastUsed + 1) % M16)
    ensures m' == Published(m, q, lastUsed, e)
  {
  }

  /** After publishing: the driver's side is untouched and the ring has grown. */
  lemma Finished(m0: Memory, m: Memory, m1: Memory, m2: Memory, q: Queue, la0: nat, lu0: nat, lu: nat, log: seq<Used>,
                 e: Used)
    requires q.size > 0 && Separate(m0, q, la0) && SameControl(m0, m1, q, la0) && e.head < M32 && e.written < M32
    requires forall a: nat | InUsed(q, a) :: Get(m1, a) == Get(m, a)
    requires m2 == Published(m1, q, lu, e) && lu == (lu0 + |log|) % M16
    requires M16 % q.size == 0 ==> RingHolds(m, q, lu0, log)
    ensures SameControl(m0, m2, q, la0) && Load(m2, q.used + 2, 2) == (lu + 1) % M16
    ensures M16 % q.size == 0 ==> RingHolds(m2, q, lu0, log + [e])
    ensures (lu + 1) % M16 == (lu0 + |log + [e]|) % M16
  {
    hide RingHolds, Published, SameControl, InUsed, Get, Load, Separate, SameExceptUsed;
    PublishedOk(m1, q, lu, e);
    ControlKept(m0, m1, m2, q, la0);
    NextIndex(lu0 + |log|);
    if M16 % q.size == 0 {
      RingKeeps(m, m1, q, lu0, log);
      RingGrows(m1, q, lu0, log, e);
    }
  }

  lemma ControlKept(m0: Memory, m1: Memory, m2: Memory, q: Queue, la0: nat)
    requires q.size > 0 && Separate(m0, q, la0) && SameControl(m0, m1, q, la0) && SameExceptUsed(m1, m2, q)
    ensures SameControl(m0, m2, q, la0)
  {
    hide InControl, InUsed, Get, FilledByEntry, Todo;
  }

  lemma NextIndex(i: nat)
    ensures (i % M16 + 1) % M16 == (i + 1) % M16
  {
  }

  class RngDevice {
    const q: Queue
    const ready: bool
    var mem: Memory
    var lastAvail: nat
    var lastUsed: nat
    var interrupt: bool
    /** Every element published so far. */
    ghost var log: seq<Used>

    constructor (queue: Queue, on: bool, memory: Memory)
      ensures q == queue && ready == on && mem == memory && lastAvail == 0 && lastUsed == 0 && log == []
    {
      q, ready, mem, lastAvail, lastUsed, interrupt, log := queue, on, memory, 0, 0, false, [];
    }

    method FetchChain(head: nat) returns (r: Option<seq<Desc>>)
      ensures r == Fetch(mem, q, head)
    {
      hide DescAt, HasNext;
      if q.desc == 0 { return None; }
      var out: seq<Desc> := [];
      var idx := head;
      NothingYet(mem, q, head, q.size);
      for iter := 0 to q.size
        invariant Follow(mem, q, head, q.size) == Prepend(out, Follow(mem, q, idx, q.size - iter))
      {
        var d := DescAt(mem, q, idx);
        OneMoreDesc(mem, q, idx, q.size - iter, out);
        out := out + [d];
        if HasNext(d) {
          idx := d.next;
        } else {
          return Some(out);
        }
      }
      return None;
    }

    /** Random bytes for one buffer. */
    method FillBuffer(len: nat) returns (buf: seq<Byte>)
      ensures |buf| == len
    {
      buf := [];
      for i := 0 to len
        invariant |buf| == i
      {
        var b: Byte := *;
        buf := buf + [b];
      }
    }

    method CopyToDram(a: nat, src: seq<Byte>)
      modifies this`mem
      ensures forall i: nat :: Get(mem, i) == if a <= i < a + |src| then src[i - a] else Get(old(mem), i)
    {
      for k := 0 to |src|
        invariant forall i: nat :: Get(mem, i) == if a <= i < a + k then src[i - a] else Get(old(mem), i)
      {
        mem := mem[a + k := src[k]];
      }
    }

    /** Fills the writable buffers of a chain and counts the bytes, in 32 bits. */
    method FillChain(c: seq<Desc>) returns (total: nat)
      modifies this`mem
      ensures total == Total(c) % M32
      ensures forall a: nat | !InBuffer(c, a) :: Get(mem, a) == Get(old(mem), a)
    {
      hide Get, Writable;
      total := 0;
      for i := 0 to |c|
        invariant total == Total(c[..i]) % M32
        invariant forall a: nat | !InBuffer(c, a) :: Get(mem, a) == Get(old(mem), a)
      {
        var d := c[i];
        TotalSnoc(c, i);
        if Writable(d) {
          var buf := FillBuffer(d.len);
          assert forall a: nat | d.addr <= a < d.addr + d.len :: InBuffer(c, a);
          CopyToDram(d.addr, buf);
          AddMod(Total(c[..i]), d.len);
          total := (total + d.len) % M32;
        }
      }
      assert c[..|c|] == c;
    }

    /** Handles every available entry: terminates on any ring, consumes each entry once, and
        publishes one element per well-formed chain, in order. */
    method ProcessQueue()
      requires lastAvail < M16 && lastUsed < M16 && (ready && q.size > 0 ==> Separate(mem, q, lastAvail))
      modifies this`mem, this`lastAvail, this`lastUsed, this`interrupt, this`log
      ensures !ready || q.size == 0 ==> mem == old(mem) && lastAvail == old(lastAvail) && log == old(log)
      ensures ready && q.size > 0 ==>
                Processed(old(mem), mem, q, old(lastAvail), lastAvail, old(lastUsed), lastUsed, old(log), log)
    {
      hide Separate, Load, Partway;
      if !ready || q.size == 0 { return; }
      var availIdx := Load(mem, q.avail + 2, 2);
      AvailBound(mem, q);
      ghost var n: nat := 0;
      ghost var todo := Todo(mem, q, lastAvail);
      Begin(mem, q, lastAvail, lastUsed, log);
      while lastAvail != availIdx
        invariant n <= todo && lastAvail == (old(lastAvail) + n) % M16
        invariant Partway(old(mem), mem, q, old(lastAvail), old(lastUsed), lastUsed, old(log), log, n)
        decreases todo - n
      {
        NotDone(old(lastAvail), availIdx, n, todo);
        HandleEntry(old(mem), old(lastAvail), old(lastUsed), old(log), n);
        n := n + 1;
      }
      Done(old(lastAvail), availIdx, n, todo);
      AllDone(old(mem), mem, q, old(lastAvail), lastAvail, old(lastUsed), lastUsed, old(log), log, n);
    }

    /** One available entry: skipped if its chain is malformed, else served and published. */
    method HandleEntry(ghost m0: Memory, ghost la0: nat, ghost lu0: nat, ghost log0: seq<Used>, ghost n: nat)
      requires q.size > 0 && Separate(m0, q, la0) && n < Todo(m0, q, la0) && lastAvail == (la0 + n) % M16
      requires Partway(m0, mem, q, la0, lu0, lastUsed, log0, log, n)
      modifies this`mem, this`lastAvail, this`lastUsed, this`interrupt, this`log
      ensures lastAvail == (old(lastAvail) + 1) % M16
      ensures Partway(m0, mem, q, la0, lu0, lastUsed, log0, log, n + 1)
    {
      hide Separate, Partway, HeadAt, Fetch, Put, SameControl, InBuffer, InUsed, Get, Todo;
      var head := HeadAt(mem, q, lastAvail);
      PartwayControl(m0, mem, q, la0, lu0, lastUsed, log0, log, n);
      EntryFacts(m0, mem, q, la0, n, head);
      var chain := FetchChain(head);
      if chain.None? {
        Skip(m0, mem, q, la0, lu0, lastUsed, log0, log, n, head);
        lastAvail := (lastAvail + 1) % M16;
        return;
      }
      ghost var m := mem;
      var total := FillChain(chain.value);
      ghost var m1 := mem;
      BuffersApart(m0, m, m1, q, la0, n, head, chain.value);
      var elem := SlotAddr(q, lastUsed);
      mem := Put(mem, elem, 4, head);
      mem := Put(mem, elem + 4, 4, total);
      mem := Put(mem, q.used + 2, 2, (lastUsed + 1) % M16);
      AsPublished(m1, q, lastUsed, Used(head, total), mem);
      Serve(m0, m, m1, mem, q, la0, lu0, lastUsed, log0, log, n, head, chain.value);
      log := log + [Used(head, total)];
      lastUsed := (lastUsed + 1) % M16;
      lastAvail := (lastAvail + 1) % M16;
      interrupt := true;
    }
  }
}
