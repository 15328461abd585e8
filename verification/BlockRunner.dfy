/** The interpreter's block runner against single stepping (compile_block and run_block in
    block.cpp, tick in hart.cpp). */
module BlockRunner {
  import opened Words
  import opened Options
  import opened Guest
  import opened Decoding
  import opened Chains

  const BLOCK_MAX_INSTS: nat := 16

  /** The hart state the two loops share; memory is any type. */
  datatype Hart<M> = Hart(pc: Word, x: Gprs, memory: M)

  /** What a handler returns: success with the pc increment, or a fault. */
  datatype Return<M> = Done(h: Hart<M>, increase: nat) | Failed(h: Hart<M>, cause: nat, tval: Word)

  type Handler<!M> = (nat, Hart<M>) -> Return<M>

  /** The instruction word at a guest pc, if it can be fetched and decoded. */
  type Text = Word -> Option<nat>

  predicate IsBlockEnd(inst: nat)
  {
    || inst % 128 in {0x63, 0x6F, 0x67, 0x73, 0x0F}
    || (inst % 4 != 3 && if inst % 4 == 1 then inst / 0x2000 % 8 in {5, 1, 6, 7}
                         else inst % 128 == 2 && inst / 0x2000 % 8 == 4 && inst % 4 == 2)
  }

  predicate WritesReg(inst: nat) { inst % 128 in {0x13, 0x33, 0x37, 0x17, 0x6F, 0x67, 0x03} }

  /** Only block-ending instructions move the pc other than by their size. */
  ghost predicate OnlyEndsJump<M(!new)>(func: Handler<M>)
  {
    forall inst: nat, h: Hart<M> | !IsBlockEnd(inst) && func(inst, h).Done? ::
      func(inst, h).h.pc == h.pc && func(inst, h).increase == SizeOf(inst)
  }

  /** A handler that fails leaves the pc at its instruction. */
  ghost predicate FailsInPlace<M(!new)>(func: Handler<M>)
  {
    forall inst: nat, h: Hart<M> | func(inst, h).Failed? :: func(inst, h).h.pc == h.pc
  }

  function Clear0<M>(h: Hart<M>): Hart<M> { h.(x := h.x[0 := 0]) }

  /** The guest bytes before instruction n of a block. */
  function Before(block: seq<nat>, n: nat): nat
    requires n <= |block|
  {
    if n == 0 then 0 else Before(block, n - 1) + SizeOf(block[n - 1])
  }

  /** The block is what the text holds from pc on, and only its last instruction may end it. */
  ghost predicate BlockOk(text: Text, pc: Word, block: seq<nat>)
  {
    && (forall i | 0 <= i < |block| :: text(Add(pc, Before(block, i))) == Some(block[i]))
    && (forall i | 0 <= i < |block| - 1 :: !IsBlockEnd(block[i]))
  }

  // Single stepping ----------------------------------------------------------------------------

  /** One tick with no interrupt due: x0 is cleared, then fetch and execute. */
  datatype Tick<M> = Stepped(h: Hart<M>) | Trapped(h: Hart<M>, cause: nat, tval: Word) | NoFetch(h: Hart<M>)

  function TickOnce<M>(text: Text, func: Handler<M>, h: Hart<M>): Tick<M>
  {
    var h0 := Clear0(h);
    match text(h0.pc)
    case None => NoFetch(h0)
    case Some(inst) =>
      match func(inst, h0)
      case Failed(h1, cause, tval) => Trapped(h1, cause, tval)
      case Done(h1, inc) => Stepped(h1.(pc := Add(h1.pc, inc)))
  }

  /** n ticks, stopping at the first that does not complete. */
  function Ticks<M>(text: Text, func: Handler<M>, h: Hart<M>, n: nat): Tick<M>
  {
    if n == 0 then Stepped(h)
    else
      var t := Ticks(text, func, h, n - 1);
      if t.Stepped? then TickOnce(text, func, t.h) else t
  }

  // Blocks ------------------------------------------------------------------------------------------

  lemma {:induction false} BeforeMono(block: seq<nat>, inst: nat, n: nat)
    requires n <= |block|
    ensures Before(block + [inst], n) == Before(block, n)
  {
    if n > 0 { BeforeMono(block, inst, n - 1); }
  }

  lemma AddAgain(pc: Word, a: int, b: int)
    ensures Add(Add(pc, a), b) == Add(pc, a + b)
  {
  }

  /** Straight-line lookahead from pc until something ends the block. */
  method CompileBlock(text: Text, pc: Word) returns (block: seq<nat>)
    ensures BlockOk(text, pc, block) && |block| <= BLOCK_MAX_INSTS
    ensures |block| > 0 ==>
              IsBlockEnd(block[|block| - 1]) || |block| == BLOCK_MAX_INSTS
              || Stops(text, Add(pc, Before(block, |block|)))
    ensures block == [] ==> Stops(text, pc)
    ensures forall i | 0 <= i < |block| :: !(WritesReg(block[i]) && block[i] / 128 % 32 == 0)
  {
    hide IsBlockEnd, Before, WritesReg, SizeOf;
    BeforeNone([]);
    block := [];
    var at := pc;
    while |block| < BLOCK_MAX_INSTS
      invariant |block| <= BLOCK_MAX_INSTS && at == Add(pc, Before(block, |block|))
      invariant BlockOk(text, pc, block) && (|block| > 0 ==> !IsBlockEnd(block[|block| - 1]))
      invariant forall i | 0 <= i < |block| :: !(WritesReg(block[i]) && block[i] / 128 % 32 == 0)
      invariant block == [] ==> at == pc
      decreases BLOCK_MAX_INSTS - |block|
    {
      var got := text(at);
      if got.None? { return; }
      var inst := got.value;
      if inst % 4 == 3 && WritesReg(inst) && inst / 128 % 32 == 0 { return; }
      WritesIsWide(inst);
      forall i | 0 <= i <= |block| ensures Before(block + [inst], i) == Before(block, i) {
        BeforeMono(block, inst, i);
      }
      BeforeLast(block, inst);
      AddAgain(pc, Before(block, |block|), SizeOf(inst));
      block := block + [inst];
      if IsBlockEnd(inst) { return; }
      at := Add(at, SizeOf(inst));
    }
  }

  /** Where lookahead gives up: no instruction, or one that would write x0. */
  predicate Stops(text: Text, pc: Word)
  {
    match text(pc)
    case None => true
    case Some(inst) => inst % 4 == 3 && WritesReg(inst) && inst / 128 % 32 == 0
  }

  lemma WritesIsWide(inst: nat)
    ensures WritesReg(inst) ==> inst % 4 == 3
  {
    assert inst % 4 == inst % 128 % 4;
  }

  lemma BeforeNone(block: seq<nat>)
    ensures Before(block, 0) == 0
  {
  }

  lemma BeforeLast(block: seq<nat>, inst: nat)
    ensures Before(block + [inst], |block| + 1) == Before(block, |block|) + SizeOf(inst)
  {
    BeforeMono(block, inst, |block|);
  }

  /** A block is its instructions ticked one by one: the same state if all complete, and at
      a fault the completed count, the pc of the faulting instruction and its cause. */
  method RunBlock<M(!new)>(h0: Hart<M>, block: seq<nat>, func: Handler<M>, ghost text: Text)
    returns (h: Hart<M>, executed: nat, fault: Option<(nat, Word)>)
    requires block != [] && BlockOk(text, h0.pc, block) && OnlyEndsJump(func) && FailsInPlace(func)
    ensures fault.None? ==> executed == |block| && Ticks(text, func, h0, executed) == Stepped(h)
    ensures fault.Some? ==> executed < |block| && Ticks(text, func, h0, executed).Stepped?
    ensures fault.Some? ==> Ticks(text, func, h0, executed + 1) == Trapped(h, fault.value.0, fault.value.1)
    ensures fault.Some? ==> h.pc == Add(h0.pc, Before(block, executed))
  {
    hide Ticks, TickOnce, Before, OnlyEndsJump, FailsInPlace, BlockOk, Clear0, Add;
    h := Clear0(h0);
    var cnt := |block|;
    var n := 0;
    ghost var last := h0;
    NoTicks(text, func, h0, block);
    while n + 1 < cnt
      invariant 0 <= n < cnt && Ticks(text, func, h0, n) == Stepped(last) && h == Clear0(last)
      invariant h.pc == Add(h0.pc, Before(block, n))
    {
      OneMore(text, func, h0, block, n, last);
      match func(block[n], h)
      case Failed(h1, cause, tval) =>
        h, executed, fault := h1, n, Some((cause, tval));
        return;
      case Done(h1, inc) =>
        h := h1.(pc := Add(h1.pc, inc));
        last := h;
        AlreadyClear(last);
        if h.x[0] != 0 {
          h := h.(x := h.x[0 := 0]);
        }
        n := n + 1;
    }
    OneMore(text, func, h0, block, n, last);
    match func(block[cnt - 1], h)
    case Failed(h1, cause, tval) =>
      h, executed, fault := h1, cnt - 1, Some((cause, tval));
    case Done(h1, inc) =>
      h, executed, fault := h1.(pc := Add(h1.pc, inc)), cnt, None;
  }

  lemma NoTicks<M>(text: Text, func: Handler<M>, h0: Hart<M>, block: seq<nat>)
    ensures Ticks(text, func, h0, 0) == Stepped(h0) && Clear0(h0).pc == Add(h0.pc, Before(block, 0))
  {
  }

  /** The next tick runs the block's next instruction. */
  lemma OneMore<M(!new)>(text: Text, func: Handler<M>, h0: Hart<M>, block: seq<nat>, n: nat, last: Hart<M>)
    requires n < |block| && BlockOk(text, h0.pc, block) && OnlyEndsJump(func) && FailsInPlace(func)
    requires Ticks(text, func, h0, n) == Stepped(last) && Clear0(last).pc == Add(h0.pc, Before(block, n))
    ensures match func(block[n], Clear0(last))
            case Failed(h1, cause, tval) =>
              Ticks(text, func, h0, n + 1) == Trapped(h1, cause, tval) && h1.pc == Add(h0.pc, Before(block, n))
            case Done(h1, inc) =>
              && Ticks(text, func, h0, n + 1) == Stepped(h1.(pc := Add(h1.pc, inc)))
              && (n + 1 < |block| ==> Add(h1.pc, inc) == Add(h0.pc, Before(block, n + 1)))
  {
    hide IsBlockEnd, SizeOf, Add, Ticks, Before;
    assert text(Clear0(last).pc) == Some(block[n]);
    NextTick(text, func, h0, n);
    NextBefore(block, n);
    AddAgain(h0.pc, Before(block, n), SizeOf(block[n]));
  }

  lemma NextTick<M>(text: Text, func: Handler<M>, h: Hart<M>, n: nat)
    ensures var t := Ticks(text, func, h, n);
            Ticks(text, func, h, n + 1) == if t.Stepped? then TickOnce(text, func, t.h) else t
  {
  }

  lemma NextBefore(block: seq<nat>, n: nat)
    requires n < |block|
    ensures Before(block, n + 1) == Before(block, n) + SizeOf(block[n])
  {
  }

  lemma AlreadyClear<M>(h: Hart<M>)
    ensures h.x[0] == 0 ==> Clear0(h) == h
    ensures Clear0(h) == h.(x := h.x[0 := 0]) && Clear0(h).pc == h.pc
  {
    assert h.x[0] == 0 ==> h.x[0 := 0] == h.x;
  }

  // The modelled handlers meet the hypothesis --------------------------------------------------------------

  lemma ControlEndsBlocks(d: Decoded)
    requires IsControl(d.op) && ControlEncoding(d)
    ensures IsBlockEnd(d.inst)
  {
    CompressedEnds(d.inst);
  }

  lemma CompressedEnds(inst: nat)
    ensures inst % 128 == 2 && inst / 0x2000 % 8 == 4 ==> IsBlockEnd(inst)
    ensures inst % 4 == 1 && inst / 0x2000 % 8 in {5, 6, 7} ==> IsBlockEnd(inst)
  {
    if inst % 128 == 2 {
      LowTwo(inst, inst / 128);
    }
  }

  lemma LowTwo(inst: nat, q: nat)
    requires inst == 128 * q + 2
    ensures inst % 4 == 2
  {
    assert inst == 4 * (32 * q) + 2;
  }

  /** Every other handler moves the pc by the instruction's size. */
  lemma OthersFallThrough(env: Env, s: State, d: Decoded)
    requires EnvOk(env) && |s.ram| == env.ramSize && Registered(d) && !IsControl(d.op)
    ensures var r := Handle(env, s, d); r.Next? ==> r.state.pc == Add(s.pc, Size(d))
  {
    hide EnvOk, HandleBase, HandleCAlu, HandleCMem, Registered;
    if !IsCompressed(d.op) {
      BaseFalls(env, s, d);
    } else if IsCompressedAlu(d.op) {
      CAluFalls(s, d);
    } else {
      CMemFalls(env, s, d);
    }
  }

  lemma BaseFalls(env: Env, s: State, d: Decoded)
    requires EnvOk(env) && |s.ram| == env.ramSize && Registered(d) && !IsControl(d.op) && !IsCompressed(d.op)
    ensures var r := HandleBase(env, s, d); r.Next? ==> r.state.pc == Add(s.pc, 4)
  {
    hide EnvOk, HandleR, HandleI, HandleM, Bits, DramOffset, LoadLE, StoreLE, Extend, ImmOf, ImmI, ImmS, ImmB, ImmU,
         ImmJ, Add;
  }

  lemma CAluFalls(s: State, d: Decoded)
    requires Registered(d) && IsCompressedAlu(d.op)
    ensures var r := HandleCAlu(s, d); r.Next? ==> r.state.pc == Add(s.pc, 2)
  {
    hide HandleR, Shift64, Bits, Sext32, CImmSigned, CImm4spn, CImm16sp, CImmArith, Add;
  }

  lemma CMemFalls(env: Env, s: State, d: Decoded)
    requires EnvOk(env) && |s.ram| == env.ramSize && Registered(d) && !IsControl(d.op) && IsCompressed(d.op)
    requires !IsCompressedAlu(d.op)
    ensures var r := HandleCMem(env, s, d); r.Next? ==> r.state.pc == Add(s.pc, 2)
  {
    hide EnvOk, Bits, DramOffset, LoadLE, StoreLE, Extend, CImmLw, CImmLd, CImmLwsp, CImmLdsp, CImmSwsp, CImmSdsp, Add;
  }

  /** What the decoded handler does to a hart whose memory is RAM.  Whatever goes beyond a
      TLB hit on RAM counts as a failure at the instruction. */
  function GuestStep(env: Env, inst: nat, h: Hart<Ram>): Return<Ram>
    requires EnvOk(env)
  {
    if |h.memory| != env.ramSize then Failed(h, 0, 0)
    else
      match Decode(inst)
      case None => Failed(h, 2, inst % M64)
      case Some(d) =>
        match Handle(env, State(h.pc, h.x, h.memory), d)
        case Yield => Failed(h, 0, 0)
        case Next(s) =>
          if IsControl(d.op) then Done(Hart(s.pc, s.x, s.ram), 0) else Done(Hart(h.pc, s.x, s.ram), Size(d))
  }

  /** The interpreter's handlers, found by decoding. */
  function Handlers(env: Env): Handler<Ram>
    requires EnvOk(env)
  {
    (inst: nat, h: Hart<Ram>) => GuestStep(env, inst, h)
  }

  /** They are what the block runner rests on. */
  lemma HandlersBehave(env: Env)
    requires EnvOk(env)
    ensures OnlyEndsJump(Handlers(env)) && FailsInPlace(Handlers(env))
  {
    hide EnvOk, Handle, Decode, IsBlockEnd, SizeOf;
    forall inst: nat, h: Hart<Ram> | !IsBlockEnd(inst) && Handlers(env)(inst, h).Done?
      ensures Handlers(env)(inst, h).h.pc == h.pc && Handlers(env)(inst, h).increase == SizeOf(inst)
    {
      var d := Decode(inst).value;
      if IsControl(d.op) { ControlEndsBlocks(d); }
    }
  }

  /** The instructions a text holds, as the decoder reads them. */
  ghost function DecodedText(text: Text): Program
  {
    imap pc: Word | text(pc).Some? && Decode(text(pc).value).Some? :: Decode(text(pc).value).value
  }

  /** Ticking is interpreting: a tick that completes is one step of the handlers. */
  lemma TickIsStep(env: Env, text: Text, h: Hart<Ram>)
    requires EnvOk(env) && |h.memory| == env.ramSize
    ensures var t := TickOnce(text, Handlers(env), h);
            var r := Interpret(env, DecodedText(text), State(h.pc, h.x[0 := 0], h.memory), 1);
            if t.Stepped? then r == Next(State(t.h.pc, t.h.x, t.h.memory)) else r == Yield
  {
    hide EnvOk, Handle, Decode;
    var s := State(h.pc, h.x[0 := 0], h.memory);
    assert Interpret(env, DecodedText(text), s, 0) == Next(s);
    if text(h.pc).Some? && Decode(text(h.pc).value).Some? {
      var d := Decode(text(h.pc).value).value;
      if !IsControl(d.op) { OthersFallThrough(env, s, d); }
      AddNothing(h.pc);
    }
  }

  lemma AddNothing(pc: Word)
    ensures forall q: Word :: Add(q, 0) == q
  {
  }

  /** So are any number of ticks. */
  lemma {:induction false} TicksInterpret(env: Env, text: Text, h: Hart<Ram>, n: nat)
    requires EnvOk(env) && |h.memory| == env.ramSize && h.x[0] == 0
    ensures var t := Ticks(text, Handlers(env), h, n);
            var r := Interpret(env, DecodedText(text), State(h.pc, h.x, h.memory), n);
            if t.Stepped? then r == Next(State(t.h.pc, t.h.x, t.h.memory)) else r == Yield
  {
    hide EnvOk, TickOnce, Ticks, Interpret, DecodedText, Handlers;
    var prog := DecodedText(text);
    var s := State(h.pc, h.x, h.memory);
    if n == 0 {
      NoTicks(text, Handlers(env), h, []);
      NoSteps(env, prog, s);
    } else {
      TicksInterpret(env, text, h, n - 1);
      NextTick(text, Handlers(env), h, n - 1);
      var t := Ticks(text, Handlers(env), h, n - 1);
      if t.Stepped? {
        var s1 := State(t.h.pc, t.h.x, t.h.memory);
        InterpretSum(env, prog, s, n - 1, 1, s1);
        assert t.h.x[0 := 0] == t.h.x;
        TickIsStep(env, text, t.h);
      } else {
        StaysStopped(env, prog, s, n);
      }
    }
  }

  lemma NoSteps(env: Env, prog: Program, s: State)
    requires EnvOk(env) && |s.ram| == env.ramSize && s.x[0] == 0
    ensures Interpret(env, prog, s, 0) == Next(s)
  {
  }

  lemma StaysStopped(env: Env, prog: Program, s: State, n: nat)
    requires EnvOk(env) && |s.ram| == env.ramSize && s.x[0] == 0 && n > 0
    ensures Interpret(env, prog, s, n - 1) == Yield ==> Interpret(env, prog, s, n) == Yield
  {
    hide EnvOk, Handle;
  }

  /** The block runner on the modelled handlers: a block that completes is as many
      interpreter steps as it has instructions; at a failure the instructions before it are,
      the next is not, and the pc is the failing instruction's. */
  method RunGuestBlock(env: Env, h0: Hart<Ram>, block: seq<nat>, ghost text: Text)
    returns (h: Hart<Ram>, executed: nat, fault: Option<(nat, Word)>)
    requires EnvOk(env) && |h0.memory| == env.ramSize && h0.x[0] == 0 && block != [] && BlockOk(text, h0.pc, block)
    ensures fault.None? ==> executed == |block|
    ensures fault.None? ==>
              Interpret(env, DecodedText(text), State(h0.pc, h0.x, h0.memory), executed) ==
              Next(State(h.pc, h.x, h.memory))
    ensures fault.Some? ==> executed < |block| && h.pc == Add(h0.pc, Before(block, executed))
    ensures fault.Some? ==> Interpret(env, DecodedText(text), State(h0.pc, h0.x, h0.memory), executed).Next?
    ensures fault.Some? ==> Interpret(env, DecodedText(text), State(h0.pc, h0.x, h0.memory), executed + 1) == Yield
  {
    hide EnvOk, Ticks, Interpret, DecodedText, BlockOk, OnlyEndsJump, FailsInPlace, Handlers;
    HandlersBehave(env);
    h, executed, fault := RunBlock(h0, block, Handlers(env), text);
    TicksInterpret(env, text, h0, executed);
    TicksInterpret(env, text, h0, executed + 1);
  }
}
