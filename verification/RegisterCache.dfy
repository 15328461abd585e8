/** The emitter's window of guest registers cached in host registers: its invariant,
    and how a cache image relates a host machine to guest register values. */
module RegisterCache {
  import opened Words
  import opened Guest
  import opened Host
  import opened AluCode

  const FREE: int := 0xFF
  const OWNED: int := 0xFE

  type Slot = s: int | -1 <= s < 6

  /** Where a guest register is cached (-1: nowhere) and whether memory is stale. */
  datatype VReg = VReg(slot: Slot, dirty: bool)

  type VRegs = s: seq<VReg> | |s| == 32 witness seq(32, _ => VReg(-1, false))

  /** What each host slot holds: a guest register, FREE, or OWNED by the instruction
      being emitted. */
  type Slots = s: seq<int> | |s| == 6 witness seq(6, _ => 0xFF)

  /** RSI, RDI, R8 .. R11. */
  function Pool(s: Slot): HReg { 6 + s }

  predicate Holder(h: int) { 0 <= h < 32 }

  /** Slots and guest registers point at each other, and only cached registers other
      than x0 are dirty. */
  ghost predicate CacheOk(vr: VRegs, hr: Slots)
  {
    && (forall s | 0 <= s < 6 :: hr[s] == FREE || hr[s] == OWNED || (Holder(hr[s]) && vr[hr[s]].slot == s))
    && (forall v: Reg :: vr[v].slot >= 0 ==> hr[vr[v].slot] == v)
    && (forall v: Reg :: vr[v].dirty ==> vr[v].slot >= 0 && v != 0)
  }

  /** No slot is in use by an unfinished instruction. */
  ghost predicate Settled(hr: Slots) { forall s | 0 <= s < 6 :: hr[s] != OWNED }

  /** Cached registers hold the guest values, and so does memory unless dirty.  The
      cached copy of `skip` alone may be anything. */
  ghost predicate Rep(vr: VRegs, m: Machine, x: Gprs, skip: int)
  {
    && x[0] == 0
    && (forall v: Reg | vr[v].slot >= 0 && v != skip :: m.regs[Pool(vr[v].slot)] == x[v])
    && (forall v: Reg | v != 0 && !vr[v].dirty :: m.gpr[v] == x[v])
  }

  /** What cache maintenance leaves alone: everything but pool registers and GPR memory
      other than x0's cell. */
  ghost predicate Untouched(m: Machine, m': Machine)
  {
    && m'.ram == m.ram && m'.entry == m.entry && m'.exit == m.exit && m'.budget == m.budget
    && m'.gpr[0] == m.gpr[0]
    && m'.regs[0] == m.regs[0] && m'.regs[1] == m.regs[1] && m'.regs[2] == m.regs[2]
  }

  ghost predicate KeepsAt(env: Env, code: seq<Op>, vr': VRegs, skip: int, m: Machine, x: Gprs)
  {
    var st := Exec(env, code, Run(m));
    st.Run? && Rep(vr', st.m, x, skip) && Untouched(m, st.m)
  }

  /** The code turns every machine the image `vr` describes into one `vr'` describes,
      for the same guest values. */
  ghost predicate Keeps(vr: VRegs, code: seq<Op>, vr': VRegs, skip: int)
  {
    forall env: Env, m: Machine, x: Gprs | Rep(vr, m, x, -1) :: KeepsAt(env, code, vr', skip, m, x)
  }

  lemma KeepsNothing(vr: VRegs)
    ensures Keeps(vr, [], vr, -1)
  {
  }

  lemma KeepsChain(a: VRegs, f: seq<Op>, b: VRegs, g: seq<Op>, c: VRegs, skip: int)
    requires Keeps(a, f, b, -1) && Keeps(b, g, c, skip)
    ensures Keeps(a, f + g, c, skip)
  {
    forall env: Env, m: Machine, x: Gprs | Rep(a, m, x, -1)
      ensures KeepsAt(env, f + g, c, skip, m, x)
    {
      KeepsChainAt(env, a, f, b, g, c, skip, m, x);
    }
  }

  lemma KeepsChainAt(env: Env, a: VRegs, f: seq<Op>, b: VRegs, g: seq<Op>, c: VRegs, skip: int, m: Machine, x: Gprs)
    requires Keeps(a, f, b, -1) && Keeps(b, g, c, skip) && Rep(a, m, x, -1)
    ensures KeepsAt(env, f + g, c, skip, m, x)
  {
    hide Exec, Rep;
    assert KeepsAt(env, f, b, -1, m, x);
    var st := Exec(env, f, Run(m));
    assert KeepsAt(env, g, c, skip, st.m, x);
    ExecAppend(env, f, g, Run(m));
  }

  // Eviction ---------------------------------------------------------------------

  /** The image once slot s is taken from whatever guest register it holds. */
  function Evicted(vr: VRegs, hr: Slots, s: nat): VRegs
    requires s < 6
  {
    if Holder(hr[s]) then vr[hr[s] := VReg(-1, false)] else vr
  }

  /** The store that saves a dirty victim. */
  function SpillCode(vr: VRegs, hr: Slots, s: nat): seq<Op>
    requires s < 6
  {
    if Holder(hr[s]) && vr[hr[s]].dirty then [StoreGpr(hr[s], Pool(s))] else []
  }

  lemma EvictedOk(vr: VRegs, hr: Slots, s: nat, owner: int)
    requires CacheOk(vr, hr) && s < 6
    requires owner == FREE || owner == OWNED
    ensures CacheOk(Evicted(vr, hr, s), hr[s := owner])
  {
  }

  lemma SpillKeeps(vr: VRegs, hr: Slots, s: nat)
    requires CacheOk(vr, hr) && s < 6
    ensures Keeps(vr, SpillCode(vr, hr, s), Evicted(vr, hr, s), -1)
  {
    forall env: Env, m: Machine, x: Gprs | Rep(vr, m, x, -1)
      ensures KeepsAt(env, SpillCode(vr, hr, s), Evicted(vr, hr, s), -1, m, x)
    {
      if Holder(hr[s]) && vr[hr[s]].dirty {
        Exec1(env, StoreGpr(hr[s], Pool(s)), Run(m));
      }
    }
  }

  /** Caching v in a fresh slot s. */
  function Placed(vr: VRegs, v: Reg, s: nat): VRegs
    requires s < 6
  {
    vr[v := VReg(s, false)]
  }

  lemma PlacedOk(vr: VRegs, hr: Slots, v: Reg, s: nat)
    requires CacheOk(vr, hr) && s < 6 && hr[s] == OWNED && vr[v].slot == -1
    ensures CacheOk(Placed(vr, v, s), hr[s := v])
  {
  }

  function LoadCode(v: Reg, s: nat): seq<Op>
    requires s < 6
  {
    if v == 0 then [Arith(XOR64, Pool(s), Pool(s))] else [LoadGpr(Pool(s), v)]
  }

  /** Slot s is free: no guest register lives there. */
  ghost predicate Vacant(vr: VRegs, s: nat) { forall u: Reg :: vr[u].slot != s }

  lemma LoadKeeps(vr: VRegs, v: Reg, s: nat)
    requires s < 6 && Vacant(vr, s) && vr[v] == VReg(-1, false)
    ensures Keeps(vr, LoadCode(v, s), Placed(vr, v, s), -1)
  {
    forall env: Env, m: Machine, x: Gprs | Rep(vr, m, x, -1)
      ensures KeepsAt(env, LoadCode(v, s), Placed(vr, v, s), -1, m, x)
    {
      if v == 0 {
        Exec1(env, Arith(XOR64, Pool(s), Pool(s)), Run(m));
        BitsSelf(m.regs[Pool(s)]);
      } else {
        Exec1(env, LoadGpr(Pool(s), v), Run(m));
      }
    }
  }

  /** Reserving a slot for a value still to come. */
  lemma ReserveKeeps(vr: VRegs, v: Reg, s: nat)
    requires s < 6 && vr[v] == VReg(-1, false)
    ensures Keeps(vr, [], Placed(vr, v, s), v)
  {
    forall env: Env, m: Machine, x: Gprs | Rep(vr, m, x, -1)
      ensures KeepsAt(env, [], Placed(vr, v, s), v, m, x)
    {
    }
  }

  // Flushing -------------------------------------------------------------------------

  function Cleaned(vr: VRegs, v: Reg): VRegs { vr[v := VReg(vr[v].slot, false)] }

  function FlushCode(vr: VRegs, v: Reg): seq<Op>
  {
    if vr[v].slot >= 0 && vr[v].dirty then [StoreGpr(v, Pool(vr[v].slot))] else []
  }

  lemma FlushKeeps(vr: VRegs, hr: Slots, v: Reg)
    requires CacheOk(vr, hr)
    ensures Keeps(vr, FlushCode(vr, v), Cleaned(vr, v), -1)
    ensures CacheOk(Cleaned(vr, v), hr)
  {
    forall env: Env, m: Machine, x: Gprs | Rep(vr, m, x, -1)
      ensures KeepsAt(env, FlushCode(vr, v), Cleaned(vr, v), -1, m, x)
    {
      if vr[v].slot >= 0 && vr[v].dirty {
        Exec1(env, StoreGpr(v, Pool(vr[v].slot)), Run(m));
      }
    }
  }

  ghost predicate AllClean(vr: VRegs) { forall v: Reg :: !vr[v].dirty }

  // Commit -----------------------------------------------------------------------------

  /** One dirty register and the slot that holds its value. */
  datatype Dirty = Dirty(v: Reg, slot: Slot)

  /** The snapshot lists exactly the dirty registers. */
  ghost predicate Snapshot(vr: VRegs, list: seq<Dirty>)
  {
    && (forall i | 0 <= i < |list| :: vr[list[i].v].dirty && vr[list[i].v].slot == list[i].slot)
    && (forall v: Reg | vr[v].dirty :: exists i :: 0 <= i < |list| && list[i].v == v)
  }

  /** The dirty registers from v on, in order. */
  function DirtyList(vr: VRegs, v: nat): seq<Dirty>
    requires v <= 32
    decreases 32 - v
  {
    if v == 32 then []
    else (if vr[v].dirty then [Dirty(v, vr[v].slot)] else []) + DirtyList(vr, v + 1)
  }

  lemma {:induction false} DirtyListed(vr: VRegs, v: nat)
    requires v <= 32
    ensures forall i | 0 <= i < |DirtyList(vr, v)| ::
              var e := DirtyList(vr, v)[i]; e.v >= v && vr[e.v].dirty && vr[e.v].slot == e.slot
    ensures forall u: Reg | v <= u && vr[u].dirty ::
              exists i :: 0 <= i < |DirtyList(vr, v)| && DirtyList(vr, v)[i].v == u
    decreases 32 - v
  {
    if v < 32 {
      DirtyListed(vr, v + 1);
      var head := if vr[v].dirty then [Dirty(v, vr[v].slot)] else [];
      forall u: Reg | v <= u && vr[u].dirty
        ensures exists i :: 0 <= i < |DirtyList(vr, v)| && DirtyList(vr, v)[i].v == u
      {
        if u == v {
          assert DirtyList(vr, v)[0].v == u;
        } else {
          var i :| 0 <= i < |DirtyList(vr, v + 1)| && DirtyList(vr, v + 1)[i].v == u;
          assert DirtyList(vr, v)[|head| + i] == DirtyList(vr, v + 1)[i];
        }
      }
    }
  }

  lemma DirtyStep(vr: VRegs, hr: Slots, v: nat)
    requires CacheOk(vr, hr) && v < 32
    ensures DirtyList(vr, v) == (if vr[v].dirty && vr[v].slot >= 0 then [Dirty(v, vr[v].slot)] else [])
            + DirtyList(vr, v + 1)
  {
  }

  lemma DirtyListSnapshot(vr: VRegs)
    ensures !vr[0].dirty ==> Snapshot(vr, DirtyList(vr, 1))
  {
    DirtyListed(vr, 1);
  }

  /** Six dirty registers fill the six slots, so the rest are clean. */
  lemma SixIsAll(vr: VRegs, hr: Slots, list: seq<Dirty>, v: nat)
    requires CacheOk(vr, hr) && |list| == 6 && v <= 32
    requires forall i | 0 <= i < 6 :: list[i].v < v && vr[list[i].v].slot == list[i].slot >= 0
    requires forall i, j | 0 <= i < j < 6 :: list[i].v < list[j].v
    ensures DirtyList(vr, v) == []
    decreases 32 - v
  {
    if v < 32 {
      SixIsAll(vr, hr, list, v + 1);
      if vr[v].dirty {
        var t := vr[v].slot;
        forall i | 0 <= i < 6 ensures list[i].slot != t {
          assert hr[list[i].slot] == list[i].v;
        }
        Pigeons(hr, list, t);
      }
    }
  }

  lemma Pigeons(hr: Slots, list: seq<Dirty>, t: nat)
    requires |list| == 6 && t < 6
    requires forall i | 0 <= i < 6 :: list[i].slot >= 0 && hr[list[i].slot] == list[i].v
    requires forall i, j | 0 <= i < j < 6 :: list[i].v < list[j].v
    ensures exists i :: 0 <= i < 6 && list[i].slot == t
  {
    hide *;
    var slots: seq<nat> := seq(6, i requires 0 <= i < 6 => list[i].slot);
    assert forall i, j | 0 <= i < j < 6 :: slots[i] != slots[j];
    Elements(slots, 6);
    Full(Taken(slots, 6), Below(6));
    assert t in Taken(slots, 6);
    var i :| 0 <= i < 6 && slots[i] == t;
    assert list[i].slot == t;
  }

  ghost function Below(n: nat): (s: set<nat>)
    ensures |s| == n && forall x: nat :: x in s <==> x < n
  {
    if n == 0 then {} else Below(n - 1) + {n - 1}
  }

  ghost function Taken(s: seq<nat>, n: nat): set<nat>
    requires n <= |s|
  {
    if n == 0 then {} else Taken(s, n - 1) + {s[n - 1]}
  }

  lemma {:induction false} Elements(s: seq<nat>, n: nat)
    requires n <= |s| && forall i, j | 0 <= i < j < n :: s[i] != s[j]
    ensures |Taken(s, n)| == n && forall x: nat :: x in Taken(s, n) <==> exists i :: 0 <= i < n && s[i] == x
  {
    if n > 0 { Elements(s, n - 1); }
  }

  lemma {:induction false} Full(s: set<nat>, u: set<nat>)
    requires s <= u && |s| == |u|
    ensures s == u
  {
    if s != {} {
      var x: nat :| x in s;
      Full(s - {x}, u - {x});
    }
  }

  /** GPR memory after a stub has stored every listed register. */
  function Commit(gpr: Gprs, regs: Regs, list: seq<Dirty>): Gprs
    decreases |list|
  {
    if list == [] then gpr
    else Commit(gpr[list[0].v := regs[Pool(list[0].slot)]], regs, list[1..])
  }

  lemma {:induction false} CommitAt(vr: VRegs, gpr: Gprs, regs: Regs, list: seq<Dirty>, v: Reg)
    requires forall i | 0 <= i < |list| :: vr[list[i].v].slot == list[i].slot
    ensures Commit(gpr, regs, list)[v] ==
            if exists i :: 0 <= i < |list| && list[i].v == v then regs[Pool(vr[v].slot)] else gpr[v]
    decreases |list|
  {
    if list != [] {
      var gpr1: Gprs := gpr[list[0].v := regs[Pool(list[0].slot)]];
      CommitAt(vr, gpr1, regs, list[1..], v);
      assert list == [list[0]] + list[1..];
      if exists i :: 0 <= i < |list| && list[i].v == v {
        var i :| 0 <= i < |list| && list[i].v == v;
        if i > 0 { assert list[1..][i - 1].v == v; }
      }
    }
  }

  /** Committing the snapshot brings all of GPR memory up to date, whatever the cached
      copy of a clean register holds. */
  lemma CommitRestores(vr: VRegs, hr: Slots, m: Machine, x: Gprs, skip: int, list: seq<Dirty>)
    requires CacheOk(vr, hr) && Rep(vr, m, x, skip) && Snapshot(vr, list)
    requires Holder(skip) ==> !vr[skip].dirty
    ensures forall v: Reg | v != 0 :: Commit(m.gpr, m.regs, list)[v] == x[v]
    ensures Commit(m.gpr, m.regs, list)[0] == m.gpr[0]
  {
    forall v: Reg
      ensures v != 0 ==> Commit(m.gpr, m.regs, list)[v] == x[v]
      ensures v == 0 ==> Commit(m.gpr, m.regs, list)[v] == m.gpr[0]
    {
      CommitAt(vr, m.gpr, m.regs, list, v);
    }
  }

  // An instruction's result ----------------------------------------------------------------

  /** After the code of an ALU instruction has left `val` in rd's slot, marking rd dirty
      gives an image of the guest state with rd updated. */
  lemma ResultRep(env: Env, vr: VRegs, hr: Slots, m: Machine, x: Gprs, skip: int, rd: Reg, code: seq<Op>, val: Word)
    requires CacheOk(vr, hr) && Rep(vr, m, x, skip) && (skip == -1 || skip == rd)
    requires rd != 0 && vr[rd].slot >= 0
    requires Computes(env, code, m, Pool(vr[rd].slot), val)
    ensures Rep(vr[rd := VReg(vr[rd].slot, true)], Exec(env, code, Run(m)).m, Write(x, rd, val), -1)
    ensures CacheOk(vr[rd := VReg(vr[rd].slot, true)], hr)
  {
    hide Exec;
  }
}
