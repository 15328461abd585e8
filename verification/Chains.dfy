/** Chains of blocks (run_blocks in block.cpp, the chain dispatcher, the exit tails): which
    code a hop may enter, and what a whole chain computes. */
module Chains {
  import opened Words
  import opened Options
  import opened TlbEntries
  import opened Guest
  import opened Host
  import opened Translators
  import opened RegisterCache
  import opened Outcomes
  import opened Emitter
  import opened Blocks

  const CHAIN_CADENCE: int := 0x3000

  /** What one chain epoch stands for: TLB generation, SMC epoch and ASID. */
  datatype Key = Key(gen: nat, smc: nat, asid: Asid)

  // One stamp for three keys ---------------------------------------------------------------

  /** The chain epoch after the runner has dispatched under each key in turn. */
  function EpochAfter(first: Key, keys: seq<Key>): nat
  {
    if keys == [] then 0
    else
      var before := keys[..|keys| - 1];
      EpochAfter(first, before) + if keys[|keys| - 1] == LastKey(first, before) then 0 else 1
  }

  function LastKey(first: Key, keys: seq<Key>): Key { if keys == [] then first else keys[|keys| - 1] }

  lemma {:induction false} EpochGrows(first: Key, keys: seq<Key>, n: nat)
    requires n <= |keys|
    ensures EpochAfter(first, keys[..n]) <= EpochAfter(first, keys)
    decreases |keys|
  {
    if n < |keys| {
      assert keys[..|keys| - 1][..n] == keys[..n];
      EpochGrows(first, keys[..|keys| - 1], n);
    } else {
      assert keys[..n] == keys;
    }
  }

  /** Equal stamps mean that no dispatch in between saw another key; in particular all
      three keys are what they were. */
  lemma {:induction false} SameEpochExactly(first: Key, keys: seq<Key>, n: nat)
    requires 0 < n <= |keys|
    ensures EpochAfter(first, keys[..n]) == EpochAfter(first, keys) <==>
              forall i | n <= i < |keys| :: keys[i] == keys[n - 1]
    decreases |keys|
  {
    if n == |keys| {
      assert keys[..n] == keys;
    } else {
      var before := keys[..|keys| - 1];
      assert before[..n] == keys[..n];
      SameEpochExactly(first, before, n);
      EpochGrows(first, before, n);
      assert forall i | n <= i < |before| :: before[i] == keys[i];
      assert LastKey(first, before) == keys[|keys| - 2];
      if forall i | n <= i < |keys| :: keys[i] == keys[n - 1] {
        assert keys[|keys| - 1] == keys[|keys| - 2] by {
          if n < |keys| - 1 { assert keys[|keys| - 2] == keys[n - 1]; }
        }
      }
    }
  }

  /** The stamp is stricter than the three keys: after a change and back, old stamps are
      refused although every key is as it was. */
  lemma StampIsStricter()
    ensures exists first: Key, keys: seq<Key>, n: nat ::
              0 < n < |keys| && keys[n - 1] == keys[|keys| - 1]
                  && EpochAfter(first, keys[..n]) != EpochAfter(first, keys)
  {
    var a, b := Key(1, 0, 0), Key(1, 0, 1);
    var keys := [a, b, a];
    assert keys[..1] == [a] && keys[..2] == [a, b];
    assert [a][..0] == [] && [a, b][..1] == [a];
    assert EpochAfter(a, [a]) == 0;
    assert EpochAfter(a, [a, b]) == 1;
    assert EpochAfter(a, keys) == 2;
  }

  // The interpreter, fetching by pc -------------------------------------------------------------

  /** The instructions the address space holds, by guest pc. */
  type Program = t: imap<Word, Decoded> | forall pc | pc in t :: Registered(t[pc]) witness imap[]

  ghost function Interpret(env: Env, text: Program, s: State, n: nat): (r: Result)
    requires EnvOk(env) && |s.ram| == env.ramSize && s.x[0] == 0
    ensures Shaped(env, r)
  {
    if n == 0 then Next(s)
    else
      match Interpret(env, text, s, n - 1)
      case Yield => Yield
      case Next(s1) =>
        if s1.pc !in text then Yield else (HandleShape(env, s1, text[s1.pc]); Handle(env, s1, text[s1.pc]))
  }

  lemma {:induction false} InterpretSum(env: Env, text: Program, s: State, a: nat, b: nat, s1: State)
    requires EnvOk(env) && |s.ram| == env.ramSize && s.x[0] == 0
    requires Interpret(env, text, s, a) == Next(s1)
    ensures |s1.ram| == env.ramSize && s1.x[0] == 0
    ensures Interpret(env, text, s, a + b) == Interpret(env, text, s1, b)
  {
    hide EnvOk, Handle;
    if b > 0 { InterpretSum(env, text, s, a, b - 1, s1); }
  }

  /** The block's instructions are what the address space holds from pc on. */
  ghost predicate Fits(text: Program, pc: Word, prog: Stream)
  {
    forall i | 0 <= i < |prog| :: Holds1(text, Add(pc, Bytes(prog[..i])), prog[i])
  }

  ghost predicate Holds1(text: Program, pc: Word, d: Decoded) { pc in text && text[pc] == d }

  /** Running the first n instructions of a block that fits is n interpreter steps. */
  lemma {:induction false} ReachesInterprets(env: Env, text: Program, s: State, prog: Stream, n: nat, s': State)
    requires EnvOk(env) && |s.ram| == env.ramSize && s.x[0] == 0
    requires Reaches(env, s, prog, n, s') && Fits(text, s.pc, prog)
    ensures Interpret(env, text, s, n) == Next(s')
  {
    hide EnvOk, Handle, Registered, Bytes;
    if n == 0 {
      assert prog[..0] == [];
    } else {
      var before: Stream := prog[..n - 1];
      assert OnLine(env, s, prog, n - 1);
      var s1 := Steps(env, s, before).state;
      ReachesInterprets(env, text, s, prog, n - 1, s1);
      assert prog[..n] == before + [prog[n - 1]];
      StepsSnoc(env, s, before, prog[n - 1]);
      assert Holds1(text, Add(s.pc, Bytes(prog[..n - 1])), prog[n - 1]);
    }
  }

  // Stamps -------------------------------------------------------------------------------------

  /** A compiled block as the runner keeps it: the code, the instructions it was compiled
      from and the policy baked into it. */
  datatype Unit = Unit(block: Block, prog: seq<Decoded>, policy: Policy)

  ghost predicate UnitOk(u: Unit)
  {
    && (forall i | 0 <= i < |u.prog| :: Registered(u.prog[i]))
    && 0 < |u.prog| <= MAX_INSTRUCTIONS && u.block.Block? && Correct(u.policy, u.prog, u.block)
  }

  /** A slot of the jump cache or of a block's private links. */
  datatype Slot = Empty | Stamped(unit: Unit, pc: Word, epoch: nat, mode: Policy)

  /** The runner installed this block for this pc under this key. */
  datatype Install = Install(unit: Unit, pc: Word, mode: Policy, key: Key)

  /** All four guards of an exit tail, and of the dispatcher. */
  predicate Passes(slot: Slot, pc: Word, epoch: nat, mode: Policy)
  {
    slot.Stamped? && slot.pc == pc && slot.epoch == epoch && slot.mode == mode
  }

  const CACHE_SLOTS: nat := 0x40000

  function ModeKey(p: Policy): nat
  {
    (match p.mode case User => 0 case Supervisor => 1 case Machine => 3) + (if p.mxr then 0x100 else 0)
        + (if p.sum then 0x200 else 0)
  }

  /** Comparing mode keys compares mode, MXR and SUM. */
  lemma ModeKeyInjective(p: Policy, q: Policy)
    ensures ModeKey(p) == ModeKey(q) ==> p == q
  {
  }

  function CacheIndex(pc: Word, mode: Policy): (i: nat)
    ensures i < CACHE_SLOTS
  {
    var a := U64(pc / 2 * 0x9E37_79B9_7F4A_7C15) / 0x4000_0000_0000;
    var b := U64(ModeKey(mode) * 0xD1B5_4A32_D192_ED03) / 0x4000_0000_0000;
    Bits(Xor, a, b) % CACHE_SLOTS
  }

  ghost predicate SlotOk(slot: Slot, epoch: nat, key: Key, log: set<Install>)
  {
    slot.Stamped? ==>
      slot.epoch <= epoch && (slot.epoch == epoch ==> Install(slot.unit, slot.pc, slot.mode, key) in log)
  }

  /** After n steps of the chain: the machine stands for s1, at a block's entry. */
  ghost predicate Agreed(env: Env, text: Program, s: State, n: nat, s1: State, m0: Machine, m: Machine)
    requires EnvOk(env)
  {
    && |s.ram| == env.ramSize && s.x[0] == 0 && s.pc == m0.entry
    && Interpret(env, text, s, n) == Next(s1) && Start(env, m, s1) && m.gpr[0] == m0.gpr[0]
  }

  /** The machine the runner gets back holds the interpreter's state after n steps. */
  ghost predicate ChainOk(env: Env, text: Program, s: State, n: nat, m0: Machine, m: Machine)
    requires EnvOk(env)
  {
    && |s.ram| == env.ramSize && s.x[0] == 0 && s.pc == m0.entry
    && var r := Interpret(env, text, s, n);
       && r.Next? && (forall v: Reg | v != 0 :: m.gpr[v] == r.state.x[v])
       && m.gpr[0] == m0.gpr[0] && m.ram == r.state.ram && m.exit == r.state.pc
  }

  lemma StartAgreed(env: Env, text: Program, m0: Machine, s: State)
    requires EnvOk(env) && Start(env, m0, s)
    ensures Agreed(env, text, s, 0, s, m0, m0)
  {
    hide EnvOk;
  }

  lemma AgreedOk(env: Env, text: Program, s: State, n: nat, s1: State, m0: Machine, m: Machine)
    requires EnvOk(env) && Agreed(env, text, s, n, s1, m0, m) && m.exit == m.entry
    ensures ChainOk(env, text, s, n, m0, m)
  {
    hide EnvOk, Interpret;
  }

  lemma ZeroStays(env: Env, text: Program, s: State, n: nat, m0: Machine, m: Machine)
    requires EnvOk(env) && ChainOk(env, text, s, n, m0, m)
    ensures n == 0 ==> m.exit == m0.entry
  {
    hide EnvOk;
  }

  lemma AfterBlock(env: Env, text: Program, s: State, n: nat, s1: State, m0: Machine, m: Machine, u: Unit)
      returns (k: nat, s2: State)
    requires EnvOk(env) && Agreed(env, text, s, n, s1, m0, m)
    requires UnitOk(u) && Suits(env, u.policy) && Fits(text, m.entry, u.prog)
    ensures match RunBlock(env, u.block, m)
            case Chained(_, m') =>
              && 0 < k <= MAX_INSTRUCTIONS && m'.budget == m.budget - k && m'.exit == m'.entry
              && Agreed(env, text, s, n + k, s2, m0, m')
            case Returned(m') => k <= MAX_INSTRUCTIONS && m'.budget == m.budget - k
                && ChainOk(env, text, s, n + k, m0, m')
            case Broken => false
  {
    hide EnvOk, Fits, RunBlock, Interpret, Reaches, Registered;
    assert Exact(env, u.prog, u.block.exits, m, s1, RunBlock(env, u.block, m));
    match RunBlock(env, u.block, m)
    case Chained(x, m') =>
      k, s2 :| 0 < k && Reaches(env, s1, u.prog, k, s2) && ExitOk(m, m', s2, k);
      Onwards(env, text, s, n, s1, u.prog, k, s2);
    case Returned(m') =>
      k, s2 :| k < |u.prog| && Reaches(env, s1, u.prog, k, s2) && MissOk(m, m', s2, k);
      Onwards(env, text, s, n, s1, u.prog, k, s2);
  }

  lemma Onwards(env: Env, text: Program, s: State, n: nat, s1: State, prog: Stream, k: nat, s2: State)
    requires EnvOk(env) && |s.ram| == env.ramSize && s.x[0] == 0 && |s1.ram| == env.ramSize && s1.x[0] == 0
    requires Interpret(env, text, s, n) == Next(s1) && Reaches(env, s1, prog, k, s2) && Fits(text, s1.pc, prog)
    ensures k <= |prog| && Interpret(env, text, s, n + k) == Next(s2)
    ensures |s2.ram| == env.ramSize && s2.x[0] == 0
  {
    hide EnvOk, Steps, Straight, Fits;
    ReachesInterprets(env, text, s1, prog, k, s2);
    InterpretSum(env, text, s, n, k, s1);
  }

  class HartChain {
    var epoch: nat
    var key: Key
    var mode: Policy
    var cache: seq<Slot>
    var links: map<(Unit, nat), Slot>
    /** Every install so far. */
    ghost var log: set<Install>

    constructor (first: Key, p: Policy)
      ensures Valid() && log == {} && key == first && links == map[]
    {
      epoch, key, mode := 0, first, p;
      cache := seq(CACHE_SLOTS, _ => Empty);
      links := map[];
      log := {};
    }

    ghost predicate Valid()
      reads this
    {
      && |cache| == CACHE_SLOTS
      && (forall i | 0 <= i < |cache| :: SlotOk(cache[i], epoch, key, log))
      && (forall l | l in links :: SlotOk(links[l], epoch, key, log))
    }

    /** The runner's side: fold the keys into the epoch, then install the block it is about
        to enter. */
    method Dispatch(unit: Unit, pc: Word, now: Key, p: Policy)
      requires Valid()
      modifies this
      ensures Valid() && key == now && mode == p && log == old(log) + {Install(unit, pc, p, now)}
      ensures epoch == old(epoch) + (if now == old(key) then 0 else 1) && links == old(links)
      ensures cache == old(cache)[CacheIndex(pc, p) := Stamped(unit, pc, epoch, p)]
    {
      hide CacheIndex;
      if now != key {
        key := now;
        epoch := epoch + 1;
      }
      mode := p;
      log := log + {Install(unit, pc, p, now)};
      cache := cache[CacheIndex(pc, p) := Stamped(unit, pc, epoch, p)];
    }

    /** A chain exit: the private link, else the dispatcher, which re-stamps the link.  It
        enters only a block the runner installed for this very pc, mode and key. */
    method Hop(from: Unit, exit: nat, pc: Word) returns (r: Option<Unit>)
      requires Valid()
      modifies this`links
      ensures Valid()
      ensures r.Some? ==> Install(r.value, pc, mode, key) in log
      ensures r.Some? <==>
              || ((from, exit) in old(links) && Passes(old(links)[(from, exit)], pc, epoch, mode))
              || Passes(cache[CacheIndex(pc, mode)], pc, epoch, mode)
      ensures r.Some? ==> (from, exit) in links && links[(from, exit)] == Stamped(r.value, pc, epoch, mode)
      ensures r.Some? && !((from, exit) in old(links) && Passes(old(links)[(from, exit)], pc, epoch, mode)) ==>
                cache[CacheIndex(pc, mode)] == Stamped(r.value, pc, epoch, mode)
      ensures forall l | l in links && l != (from, exit) :: l in old(links) && links[l] == old(links)[l]
    {
      hide CacheIndex;
      if (from, exit) in links && Passes(links[(from, exit)], pc, epoch, mode) {
        return Some(links[(from, exit)].unit);
      }
      var slot := cache[CacheIndex(pc, mode)];
      if Passes(slot, pc, epoch, mode) {
        links := links[(from, exit) := slot];
        return Some(slot.unit);
      }
      r := None;
    }

    /** Every block installed under the present key and mode was compiled from what the
        address space holds at its pc. */
    ghost predicate Faithful(text: Program)
      reads this
    {
      forall i: Install | i in log && i.key == key && i.mode == mode ::
            UnitOk(i.unit) && i.unit.policy == mode && Fits(text, i.pc, i.unit.prog)
    }

    /** A whole chain, from the runner's call to its return: as many interpreter steps as
        the budget it released, which is bounded, and none only if the pc has not moved. */
    method RunChain(unit: Unit, env: Env, m0: Machine, ghost s: State, ghost text: Program)
        returns (m: Machine, released: nat)
      requires Valid() && Faithful(text) && Install(unit, m0.entry, mode, key) in log
      requires EnvOk(env) && Suits(env, mode) && Start(env, m0, s) && m0.budget == CHAIN_CADENCE
      modifies this`links
      ensures Valid() && Faithful(text)
      ensures released == CHAIN_CADENCE - m.budget <= 0x3000 + 128
      ensures ChainOk(env, text, s, released, m0, m)
      ensures released == 0 ==> m.exit == m0.entry
    {
      hide EnvOk, Correct, Fits, RunBlock, Interpret, Exact, Start, ChainOk, Agreed, Passes, CacheIndex, Suits;
      m, released := m0, 0;
      var u := unit;
      ghost var s1 := s;
      StartAgreed(env, text, m0, s);
      while true
        invariant Valid() && Faithful(text) && Install(u, m.entry, mode, key) in log
        invariant EnvOk(env) && Suits(env, mode) && Agreed(env, text, s, released, s1, m0, m)
        invariant m.budget == CHAIN_CADENCE - released >= 0
        decreases m.budget
      {
        assert UnitOk(u) && u.policy == mode && Fits(text, m.entry, u.prog);
        ghost var n, s2 := AfterBlock(env, text, s, released, s1, m0, m, u);
        match RunBlock(env, u.block, m)
        case Chained(k, m') =>
          m, released := m', CHAIN_CADENCE - m'.budget;
          s1 := s2;
          if m.budget < 0 { break; }
          var next := Hop(u, k, m.exit);
          if next.None? { break; }
          u := next.value;
        case Returned(m') =>
          m, released := m', CHAIN_CADENCE - m'.budget;
          ZeroStays(env, text, s, released, m0, m);
          return;
        case Broken => assert false;
      }
      AgreedOk(env, text, s, released, s1, m0, m);
    }
  }
}
