/** A whole compiled block against the interpreter: every exit and every miss leaves the
    state the handlers give after exactly the instructions the exit accounts for. */
module Blocks {
  import opened Words
  import opened Guest
  import opened Host
  import opened Translators
  import opened AluCode
  import opened InlineTlb
  import opened RegisterCache
  import opened Outcomes
  import opened ExitEmission
  import opened Emitter

  const MAX_INSTRUCTIONS: nat := 128

  type Stream = s: seq<Decoded> | forall i | 0 <= i < |s| :: Registered(s[i]) witness []

  function Bytes(prog: seq<Decoded>): nat
  {
    if prog == [] then 0 else Bytes(prog[..|prog| - 1]) + Size(prog[|prog| - 1])
  }

  lemma {:induction false} BytesMono(prog: seq<Decoded>, n: nat)
    requires n <= |prog|
    ensures Bytes(prog[..n]) <= Bytes(prog)
    ensures n < |prog| ==> Bytes(prog[..n]) < Bytes(prog)
  {
    if n == |prog| {
      assert prog[..n] == prog;
    } else {
      BytesMono(prog[..|prog| - 1], n);
      assert prog[..|prog| - 1][..n] == prog[..n];
    }
  }

  /** The interpreter on a straight line of instructions. */
  function Steps(env: Env, s: State, prog: Stream): (r: Result)
    requires EnvOk(env) && |s.ram| == env.ramSize && s.x[0] == 0
    ensures Shaped(env, r)
  {
    if prog == [] then Next(s)
    else
      match Steps(env, s, prog[..|prog| - 1])
      case Yield => Yield
      case Next(s1) => HandleShape(env, s1, prog[|prog| - 1]); Handle(env, s1, prog[|prog| - 1])
  }

  lemma StepsSnoc(env: Env, s: State, prog: Stream, d: Decoded)
    requires EnvOk(env) && |s.ram| == env.ramSize && s.x[0] == 0 && Registered(d)
    ensures var r := Steps(env, s, prog);
            Steps(env, s, prog + [d]) == if r.Next? then Handle(env, r.state, d) else Yield
  {
    hide Handle, EnvOk, Registered;
    assert (prog + [d])[..|prog|] == prog;
  }

  /** How the runner enters a block: nothing cached, GPR memory and RAM current. */
  ghost predicate Start(env: Env, m: Machine, s: State)
  {
    && s.x[0] == 0 && (forall v: Reg | v != 0 :: m.gpr[v] == s.x[v])
    && m.ram == s.ram && |s.ram| == env.ramSize && s.pc == m.entry
  }

  lemma StartShape(env: Env, m: Machine, s: State)
    requires Start(env, m, s)
    ensures |s.ram| == env.ramSize && s.x[0] == 0 && s.pc == m.entry
  {
  }

  /** The interpreter gets to instruction i of the block with its pc there. */
  ghost predicate OnLine(env: Env, s: State, prog: Stream, i: nat)
    requires EnvOk(env) && |s.ram| == env.ramSize && s.x[0] == 0 && i <= |prog|
  {
    Steps(env, s, prog[..i]).Next? && Steps(env, s, prog[..i]).state.pc == Add(s.pc, Bytes(prog[..i]))
  }

  ghost predicate Straight(env: Env, s: State, prog: Stream, n: nat)
    requires EnvOk(env) && |s.ram| == env.ramSize && s.x[0] == 0 && n <= |prog|
  {
    forall i | 0 <= i < n :: OnLine(env, s, prog, i)
  }

  lemma StraightExtends(env: Env, s: State, prog: Stream, d: Decoded, n: nat)
    requires EnvOk(env) && |s.ram| == env.ramSize && s.x[0] == 0 && n <= |prog| && Registered(d)
    requires Straight(env, s, prog, n)
    ensures Straight(env, s, prog + [d], n)
  {
    hide Steps, EnvOk, Registered;
    forall i | 0 <= i < n ensures OnLine(env, s, prog + [d], i) {
      assert OnLine(env, s, prog, i);
      assert (prog + [d])[..i] == prog[..i];
    }
  }

  lemma StraightOn(env: Env, s: State, prog: Stream, n: nat)
    requires EnvOk(env) && |s.ram| == env.ramSize && s.x[0] == 0 && n < |prog|
    requires Straight(env, s, prog, n) && OnLine(env, s, prog, n)
    ensures Straight(env, s, prog, n + 1)
  {
  }

  /** The first n instructions run one after the other, each fetched at its own pc, and
      take the interpreter to s'. */
  ghost predicate Reaches(env: Env, s: State, prog: Stream, n: nat, s': State)
    requires EnvOk(env) && |s.ram| == env.ramSize && s.x[0] == 0
  {
    n <= |prog| && Straight(env, s, prog, n) && Steps(env, s, prog[..n]) == Next(s')
  }

  ghost predicate MissedAt(env: Env, prog: Stream, site: MissSite, m: Machine, s: State, m': Machine)
    requires EnvOk(env) && |s.ram| == env.ramSize && s.x[0] == 0
  {
    exists s': State :: Reaches(env, s, prog, site.instr, s') && site.instr < |prog| &&
      site.bytes == Bytes(prog[..site.instr]) && s'.pc == Add(m.entry, site.bytes) &&
      Precise(site, m', s') && SameContext(m, m')
  }

  ghost predicate LeftAt(env: Env, prog: Stream, m: Machine, s: State, m': Machine)
    requires EnvOk(env) && |s.ram| == env.ramSize && s.x[0] == 0
  {
    exists n: nat, s': State :: 0 < n && Reaches(env, s, prog, n, s') && ExitOk(m, m', s', n)
  }

  ghost predicate RunAt(env: Env, prog: Stream, vr: VRegs, m: Machine, s: State, m': Machine)
    requires EnvOk(env) && |s.ram| == env.ramSize && s.x[0] == 0
  {
    && Straight(env, s, prog, |prog|) && Steps(env, s, prog).Next?
    && Agrees(env, vr, m', Steps(env, s, prog).state, Bytes(prog)) && SameContext(m, m')
  }

  /** What may have happened once the code so far has run. */
  ghost predicate SoFar(env: Env, prog: Stream, vr: VRegs, misses: seq<MissSite>, exits: nat, m: Machine, s: State,
                        st: Status)
    requires EnvOk(env) && |s.ram| == env.ramSize && s.x[0] == 0
  {
    match st
    case Run(m') => RunAt(env, prog, vr, m, s, m')
    case _ => Ended(env, prog, misses, exits, m, s, st)
  }

  ghost predicate Simulates(p: Policy, prog: Stream, code: seq<Op>, vr: VRegs, misses: seq<MissSite>, exits: nat)
  {
    forall env: Env, m: Machine, s: State | EnvOk(env) && Suits(env, p) && Start(env, m, s) ::
      SoFar(env, prog, vr, misses, exits, m, s, Exec(env, code, Run(m)))
  }

  ghost predicate Ended(env: Env, prog: Stream, misses: seq<MissSite>, exits: nat, m: Machine, s: State, st: Status)
    requires EnvOk(env) && |s.ram| == env.ramSize && s.x[0] == 0
  {
    match st
    case Missed(k, m') => k < |misses| && MissedAt(env, prog, misses[k], m, s, m')
    case Left(k, m') => k < exits && LeftAt(env, prog, m, s, m')
    case _ => false
  }

  /** The finished block: it never falls off its end. */
  ghost predicate Finished(p: Policy, prog: Stream, code: seq<Op>, misses: seq<MissSite>, exits: nat)
  {
    forall env: Env, m: Machine, s: State | EnvOk(env) && Suits(env, p) && Start(env, m, s) ::
      Ended(env, prog, misses, exits, m, s, Exec(env, code, Run(m)))
  }

  const EMPTY: VRegs := seq(32, _ => VReg(-1, false))

  lemma SimulatesEmpty(p: Policy, misses: seq<MissSite>, exits: nat)
    ensures Simulates(p, [], [], EMPTY, misses, exits)
  {
    forall env: Env, m: Machine, s: State | EnvOk(env) && Suits(env, p) && Start(env, m, s)
      ensures SoFar(env, [], EMPTY, misses, exits, m, s, Exec(env, [], Run(m)))
    {
      hide EnvOk;
    }
  }

  /** What happened earlier in the block stays as it was. */
  lemma Earlier(env: Env, prog: Stream, d: Decoded, vr: VRegs, vr': VRegs, misses: seq<MissSite>,
                misses': seq<MissSite>, exits: nat, exits': nat, m: Machine, s: State, st: Status)
    requires EnvOk(env) && |s.ram| == env.ramSize && s.x[0] == 0 && Registered(d)
    requires SoFar(env, prog, vr, misses, exits, m, s, st) && !st.Run? && misses <= misses' && exits <= exits'
    ensures SoFar(env, prog + [d], vr', misses', exits', m, s, st)
  {
    hide EnvOk, Steps, Precise, ExitOk, Registered, Bytes, Straight;
    if st.Missed? {
      var site := misses[st.site];
      var s': State :| Reaches(env, s, prog, site.instr, s') && site.instr < |prog| &&
        site.bytes == Bytes(prog[..site.instr]) && s'.pc == Add(m.entry, site.bytes) &&
        Precise(site, st.m, s') && SameContext(m, st.m);
      assert (prog + [d])[..site.instr] == prog[..site.instr];
      StraightExtends(env, s, prog, d, site.instr);
      assert Reaches(env, s, prog + [d], site.instr, s');
    } else {
      var n: nat, s': State :| 0 < n && Reaches(env, s, prog, n, s') && ExitOk(m, st.m, s', n);
      assert (prog + [d])[..n] == prog[..n];
      StraightExtends(env, s, prog, d, n);
      assert Reaches(env, s, prog + [d], n, s');
    }
  }

  /** The next instruction, from where the block has run so far. */
  lemma Here(env: Env, p: Policy, prog: Stream, d: Decoded, vr: VRegs, frag: seq<Op>, vr': VRegs, misses: seq<MissSite>,
             misses': seq<MissSite>, exits: nat, m: Machine, s: State, m1: Machine)
    requires EnvOk(env) && Suits(env, p) && |s.ram| == env.ramSize && s.x[0] == 0 && Registered(d) && s.pc == m.entry
    requires SoFar(env, prog, vr, misses, exits, m, s, Run(m1)) && ActionOk(Translated(d))
    requires Implements(p, vr, frag, vr', misses', exits, Translated(d), Size(d), |prog|, Bytes(prog))
    ensures SoFar(env, prog + [d], vr', misses', exits, m, s, Exec(env, frag, Run(m1)))
  {
    hide EnvOk, Steps, Precise, ExitOk, Registered, Bytes, Translated, Perform, Exec, ActionOk, Rep, Handle, Straight;
    var s1 := Steps(env, s, prog).state;
    var st := Exec(env, frag, Run(m1));
    assert Outcome(env, vr', misses', exits, Translated(d), Size(d), |prog|, Bytes(prog), m1, s1, st);
    TranslatedMatchesHandler(env, s1, d);
    StepsSnoc(env, s, prog, d);
    assert prog[..|prog|] == prog && (prog + [d])[..|prog|] == prog && (prog + [d])[..|prog| + 1] == prog + [d];
    BytesSnoc(prog, d);
    StraightExtends(env, s, prog, d, |prog|);
    assert OnLine(env, s, prog + [d], |prog|);
    StraightOn(env, s, prog + [d], |prog|);
    match st
    case Run(m2) =>
    case Missed(k, m2) =>
      assert Reaches(env, s, prog + [d], |prog|, s1);
    case Left(k, m2) =>
      var s2 := Handle(env, s1, d).state;
      assert Reaches(env, s, prog + [d], |prog| + 1, s2);
      ExitFrom(m, m1, m2, s2, |prog| + 1);
    case _ =>
  }

  lemma BytesSnoc(prog: seq<Decoded>, d: Decoded)
    ensures Bytes(prog + [d]) == Bytes(prog) + Size(d)
  {
    assert (prog + [d])[..|prog|] == prog;
  }

  lemma SimulatesStep(p: Policy, prog: Stream, code: seq<Op>, vr: VRegs, misses: seq<MissSite>, exits: nat, d: Decoded,
                      frag: seq<Op>, vr': VRegs, misses': seq<MissSite>, exits': nat)
    requires Simulates(p, prog, code, vr, misses, exits) && Registered(d) && misses <= misses' && exits <= exits'
    requires ActionOk(Translated(d))
    requires Implements(p, vr, frag, vr', misses', exits', Translated(d), Size(d), |prog|, Bytes(prog))
    ensures Simulates(p, prog + [d], code + frag, vr', misses', exits')
  {
    hide EnvOk, Registered, Exec, SoFar, Translated, ActionOk, Implements, Bytes, Steps, Size, Suits, Start;
    var longer: Stream := prog + [d];
    forall env: Env, m: Machine, s: State | EnvOk(env) && Suits(env, p) && Start(env, m, s)
      ensures |s.ram| == env.ramSize && s.x[0] == 0
      ensures SoFar(env, longer, vr', misses', exits', m, s, Exec(env, code + frag, Run(m)))
    {
      StartShape(env, m, s);
      assert SoFar(env, prog, vr, misses, exits, m, s, Exec(env, code, Run(m)));
      StepAt(env, p, prog, code, vr, misses, exits, d, frag, vr', misses', exits', m, s);
    }
  }

  lemma StepAt(env: Env, p: Policy, prog: Stream, code: seq<Op>, vr: VRegs, misses: seq<MissSite>, exits: nat,
               d: Decoded, frag: seq<Op>, vr': VRegs, misses': seq<MissSite>, exits': nat, m: Machine, s: State)
    requires EnvOk(env) && Suits(env, p) && |s.ram| == env.ramSize && s.x[0] == 0 && s.pc == m.entry
    requires SoFar(env, prog, vr, misses, exits, m, s, Exec(env, code, Run(m)))
    requires Registered(d) && misses <= misses' && exits <= exits' && ActionOk(Translated(d))
    requires Implements(p, vr, frag, vr', misses', exits', Translated(d), Size(d), |prog|, Bytes(prog))
    ensures SoFar(env, prog + [d], vr', misses', exits', m, s, Exec(env, code + frag, Run(m)))
  {
    hide EnvOk, Registered, Bytes, Translated, Exec, ActionOk, Implements, MissedAt, LeftAt, RunAt;
    var st := Exec(env, code, Run(m));
    ExecAppend(env, code, frag, Run(m));
    match st
    case Run(m1) =>
      Here(env, p, prog, d, vr, frag, vr', misses, misses', exits', m, s, m1);
    case Missed(k, m1) =>
      ExecMissed(env, frag, k, m1);
      Earlier(env, prog, d, vr, vr', misses, misses', exits, exits', m, s, st);
    case Left(k, m1) =>
      ExecLeft(env, frag, k, m1);
      Earlier(env, prog, d, vr, vr', misses, misses', exits, exits', m, s, st);
    case _ =>
  }

  // The end of the block ---------------------------------------------------------------

  lemma ClosesFinishes(p: Policy, prog: Stream, code: seq<Op>, vr: VRegs, misses: seq<MissSite>, exits: nat, d: Decoded,
                       frag: seq<Op>, vr': VRegs, misses': seq<MissSite>, exits': nat)
    requires Simulates(p, prog, code, vr, misses, exits) && Registered(d)
    requires Simulates(p, prog + [d], code + frag, vr', misses', exits')
    requires Closes(p, vr, frag, Bytes(prog))
    ensures Finished(p, prog + [d], code + frag, misses', exits')
  {
    hide EnvOk, Registered, Exec, Bytes, Steps, Suits, Start, Ended;
    var longer: Stream := prog + [d];
    forall env: Env, m: Machine, s: State | EnvOk(env) && Suits(env, p) && Start(env, m, s)
      ensures |s.ram| == env.ramSize && s.x[0] == 0
      ensures Ended(env, longer, misses', exits', m, s, Exec(env, code + frag, Run(m)))
    {
      StartShape(env, m, s);
      var st := Exec(env, code, Run(m));
      assert SoFar(env, prog, vr, misses, exits, m, s, st);
      assert SoFar(env, longer, vr', misses', exits', m, s, Exec(env, code + frag, Run(m)));
      ExecAppend(env, code, frag, Run(m));
      NotRun(env, p, prog, code, vr, misses, exits, frag, m, s);
    }
  }

  lemma NotRun(env: Env, p: Policy, prog: Stream, code: seq<Op>, vr: VRegs, misses: seq<MissSite>, exits: nat,
               frag: seq<Op>, m: Machine, s: State)
    requires EnvOk(env) && Suits(env, p) && |s.ram| == env.ramSize && s.x[0] == 0
    requires SoFar(env, prog, vr, misses, exits, m, s, Exec(env, code, Run(m))) && Closes(p, vr, frag, Bytes(prog))
    ensures !Exec(env, frag, Exec(env, code, Run(m))).Run?
  {
    hide EnvOk, Exec, Bytes, Steps, Suits, Agrees, MissedAt, LeftAt;
    match Exec(env, code, Run(m))
    case Run(m1) =>
      assert Agrees(env, vr, m1, Steps(env, s, prog).state, Bytes(prog));
    case Missed(k, m1) => ExecMissed(env, frag, k, m1);
    case Left(k, m1) => ExecLeft(env, frag, k, m1);
    case _ =>
  }

  /** Falling off a straight-line block: the epilogue leaves after all instructions. */
  lemma EpilogueFinishes(p: Policy, prog: Stream, code: seq<Op>, vr: VRegs, misses: seq<MissSite>, exits: nat,
                         flush: seq<Op>, vr': VRegs)
    requires Simulates(p, prog, code, vr, misses, exits) && prog != [] && Bytes(prog) <= 0x1000
    requires Keeps(vr, flush, vr', -1) && AllClean(vr')
    ensures Finished(p, prog, code + flush + LeaveCode(Bytes(prog), |prog|, exits), misses, exits + 1)
  {
    hide EnvOk, Exec, Bytes, Steps, Suits, Start, Ended, Keeps, AllClean, SoFar;
    var tail := flush + LeaveCode(Bytes(prog), |prog|, exits);
    assert code + flush + LeaveCode(Bytes(prog), |prog|, exits) == code + tail;
    forall env: Env, m: Machine, s: State | EnvOk(env) && Suits(env, p) && Start(env, m, s)
      ensures |s.ram| == env.ramSize && s.x[0] == 0
      ensures Ended(env, prog, misses, exits + 1, m, s, Exec(env, code + tail, Run(m)))
    {
      StartShape(env, m, s);
      assert SoFar(env, prog, vr, misses, exits, m, s, Exec(env, code, Run(m)));
      ExecAppend(env, code, tail, Run(m));
      EpilogueAt(env, prog, code, vr, misses, exits, flush, vr', m, s);
    }
  }

  lemma EpilogueAt(env: Env, prog: Stream, code: seq<Op>, vr: VRegs, misses: seq<MissSite>, exits: nat, flush: seq<Op>,
                   vr': VRegs, m: Machine, s: State)
    requires EnvOk(env) && |s.ram| == env.ramSize && s.x[0] == 0 && prog != [] && Bytes(prog) <= 0x1000
    requires SoFar(env, prog, vr, misses, exits, m, s, Exec(env, code, Run(m))) && Keeps(vr, flush, vr', -1)
    requires AllClean(vr')
    ensures Ended(env, prog, misses, exits + 1, m, s,
                  Exec(env, flush + LeaveCode(Bytes(prog), |prog|, exits), Exec(env, code, Run(m))))
  {
    hide EnvOk, Exec, Bytes, Steps, Suits, MissedAt, AllClean, LeaveCode, ExitOk, Straight, Rep;
    var leave := LeaveCode(Bytes(prog), |prog|, exits);
    match Exec(env, code, Run(m))
    case Run(m1) =>
      var s1 := Steps(env, s, prog).state;
      assert KeepsAt(env, flush, vr', -1, m1, s1.x);
      ExecAppend(env, flush, leave, Run(m1));
      var m2 := Exec(env, flush, Run(m1)).m;
      LeaveDeparts(env, vr', m2, s1, Bytes(prog), 0, |prog|, exits);
      SamePc(s1);
      var m3 := Exec(env, leave, Run(m2)).m;
      ExitFrom(m, m2, m3, s1, |prog|);
      assert prog[..|prog|] == prog;
      assert Reaches(env, s, prog, |prog|, s1);
    case Missed(k, m1) => ExecMissed(env, flush + leave, k, m1);
    case Left(k, m1) => ExecLeft(env, flush + leave, k, m1);
    case _ =>
  }

  lemma SamePc(s: State)
    ensures s.(pc := Add(s.pc, 0)) == s
  {
  }

  // Miss stubs ---------------------------------------------------------------------------

  function StoreCode(list: seq<Dirty>): seq<Op>
  {
    if list == [] then [] else [StoreGpr(list[0].v, Pool(list[0].slot))] + StoreCode(list[1..])
  }

  function StubCode(site: MissSite): seq<Op>
  {
    StoreCode(site.dirty) + [LoadOp(RAX, CtxEntry), ArithImm(ADD64, RAX, Int32(site.bytes)), SetExit(RAX),
                             SubBudget(site.instr)]
  }

  lemma {:induction false} StoreRuns(env: Env, list: seq<Dirty>, m: Machine)
    ensures Exec(env, StoreCode(list), Run(m)) == Run(m.(gpr := Commit(m.gpr, m.regs, list)))
    decreases |list|
  {
    hide Do, Exec;
    if list == [] {
      ExecNone(env, m);
    } else {
      var m1 := m.(gpr := m.gpr[list[0].v := m.regs[Pool(list[0].slot)]]);
      DoStoreGpr(env, m, list[0].v, Pool(list[0].slot));
      ExecCons(env, StoreGpr(list[0].v, Pool(list[0].slot)), StoreCode(list[1..]), Run(m));
      StoreRuns(env, list[1..], m1);
    }
  }

  lemma DoStoreGpr(env: Env, m: Machine, v: Reg, s: HReg)
    ensures Do(env, StoreGpr(v, s), Run(m)) == Run(m.(gpr := m.gpr[v := m.regs[s]]))
  {
  }

  lemma StubRuns(env: Env, site: MissSite, m: Machine)
    requires site.bytes <= 0x1000
    ensures var st := Exec(env, StubCode(site), Run(m));
            && st.Run? && st.m.gpr == Commit(m.gpr, m.regs, site.dirty) && st.m.ram == m.ram
            && st.m.exit == Add(m.entry, site.bytes) && st.m.entry == m.entry && st.m.budget == m.budget - site.instr
  {
    hide Do, Exec, StoreCode, Commit;
    var m1 := m.(gpr := Commit(m.gpr, m.regs, site.dirty));
    StoreRuns(env, site.dirty, m);
    var load := [LoadOp(RAX, CtxEntry), ArithImm(ADD64, RAX, Int32(site.bytes))];
    var done := [SetExit(RAX), SubBudget(site.instr)];
    assert StubCode(site) == StoreCode(site.dirty) + (load + done);
    ExecAppend(env, StoreCode(site.dirty), load + done, Run(m));
    ExecAppend(env, load, done, Run(m1));
    Int32Small(site.bytes);
    EntryPlus(env, m1, RAX, site.bytes);
    var m2 := Exec(env, load, Run(m1)).m;
    Exec2(env, SetExit(RAX), SubBudget(site.instr), Run(m2));
    DoSetExit(env, m2, RAX);
    DoLeave(env, m2.(exit := m2.regs[RAX]), site.instr, 0);
  }

  // The block as the runner sees it --------------------------------------------------------

  /** A block: its code, its miss stubs, and the stub each miss site jumps to. */
  datatype Block = GiveUp | Block(code: seq<Op>, stubs: seq<seq<Op>>, target: seq<nat>, exits: nat, count: nat,
                                  bytes: nat)

  datatype Ending = Chained(exit: nat, m: Machine) | Returned(m: Machine) | Broken

  /** Running a block until it hands over to the chain or returns to the runner. */
  function RunBlock(env: Env, b: Block, m: Machine): Ending
    requires b.Block?
  {
    match Exec(env, b.code, Run(m))
    case Left(k, m') => Chained(k, m')
    case Missed(k, m') =>
      if k >= |b.target| || b.target[k] >= |b.stubs| then Broken
      else (match Exec(env, b.stubs[b.target[k]], Run(m')) case Run(m'') => Returned(m'') case _ => Broken)
    case _ => Broken
  }

  /** A return through a miss stub before instruction n. */
  ghost predicate MissOk(m: Machine, m': Machine, s': State, n: nat)
  {
    && (forall v: Reg | v != 0 :: m'.gpr[v] == s'.x[v])
    && m'.gpr[0] == m.gpr[0] && m'.ram == s'.ram
    && m'.exit == s'.pc && m'.entry == m.entry
    && m'.budget == m.budget - n
  }

  ghost predicate Exact(env: Env, prog: Stream, exits: nat, m: Machine, s: State, e: Ending)
    requires EnvOk(env) && |s.ram| == env.ramSize && s.x[0] == 0
  {
    match e
    case Chained(k, m') => k < exits
        && exists n: nat, s': State :: 0 < n && Reaches(env, s, prog, n, s') && ExitOk(m, m', s', n)
    case Returned(m') => exists n: nat, s': State :: n < |prog| && Reaches(env, s, prog, n, s') && MissOk(m, m', s', n)
    case Broken => false
  }

  ghost predicate Correct(p: Policy, prog: Stream, b: Block)
  {
    b.Block? && forall env: Env, m: Machine, s: State | EnvOk(env) && Suits(env, p) && Start(env, m, s) ::
      Exact(env, prog, b.exits, m, s, RunBlock(env, b, m))
  }

  ghost predicate Stubbed(misses: seq<MissSite>, b: Block)
  {
    && b.Block? && |b.target| == |misses|
    && forall k | 0 <= k < |misses| :: b.target[k] < |b.stubs| && b.stubs[b.target[k]] == StubCode(misses[k])
  }

  lemma ExactAt(env: Env, prog: Stream, misses: seq<MissSite>, b: Block, m: Machine, s: State)
    requires EnvOk(env) && |s.ram| == env.ramSize && s.x[0] == 0 && s.pc == m.entry && Bytes(prog) <= 0x1000
    requires Stubbed(misses, b) && Ended(env, prog, misses, b.exits, m, s, Exec(env, b.code, Run(m)))
    ensures Exact(env, prog, b.exits, m, s, RunBlock(env, b, m))
  {
    hide EnvOk, Exec, Bytes, Steps, StubCode, ExitOk, Straight, Reaches, Commit;
    match Exec(env, b.code, Run(m))
    case Missed(k, m1) =>
      var site := misses[k];
      var s': State :| Reaches(env, s, prog, site.instr, s') && site.instr < |prog| &&
        site.bytes == Bytes(prog[..site.instr]) && s'.pc == Add(m.entry, site.bytes) &&
        Precise(site, m1, s') && SameContext(m, m1);
      BytesMono(prog, site.instr);
      StubRuns(env, site, m1);
      var m2 := Exec(env, StubCode(site), Run(m1)).m;
      assert MissOk(m, m2, s', site.instr);
    case Left(k, m1) =>
    case _ =>
  }

  /** From every state the runner can enter it in, the block leaves the interpreter's
      state: after n instructions at a chain exit, before instruction n at a miss. */
  lemma FinishedCorrect(p: Policy, prog: Stream, misses: seq<MissSite>, b: Block)
    requires Stubbed(misses, b) && Finished(p, prog, b.code, misses, b.exits) && Bytes(prog) <= 0x1000
    ensures Correct(p, prog, b)
  {
    hide EnvOk, Exec, Bytes, Steps, Suits, Start, Ended, Exact, RunBlock, Stubbed;
    assert b.Block? by { StubbedBlock(misses, b); }
    forall env: Env, m: Machine, s: State | EnvOk(env) && Suits(env, p) && Start(env, m, s)
      ensures |s.ram| == env.ramSize && s.x[0] == 0
      ensures Exact(env, prog, b.exits, m, s, RunBlock(env, b, m))
    {
      StartShape(env, m, s);
      assert Ended(env, prog, misses, b.exits, m, s, Exec(env, b.code, Run(m)));
      ExactAt(env, prog, misses, b, m, s);
    }
  }

  lemma StubbedBlock(misses: seq<MissSite>, b: Block)
    requires Stubbed(misses, b)
    ensures b.Block?
  {
  }

  /** One stub per instruction with misses; all its sites jump there.  The stub uses the
      snapshot of the first site, which is every site's snapshot. */
  method EmitMissStubs(misses: seq<MissSite>, ghost n: nat) returns (stubs: seq<seq<Op>>, target: seq<nat>)
    requires SitesOk(misses, n)
    ensures |target| == |misses|
    ensures forall k | 0 <= k < |misses| :: target[k] < |stubs| && stubs[target[k]] == StubCode(misses[k])
  {
    hide StubCode;
    stubs, target := [], [];
    var i := 0;
    while i < |misses|
      invariant 0 <= i <= |misses| && |target| == i
      invariant forall k | 0 <= k < i :: target[k] < |stubs| && stubs[target[k]] == StubCode(misses[k])
    {
      var first := misses[i];
      ghost var from := i;
      while i < |misses| && misses[i].instr == first.instr
        invariant from <= i <= |misses| && |target| == i && (i == from ==> from < |misses| && misses[from] == first)
        invariant forall k | from <= k < i :: target[k] == |stubs| && misses[k] == first
        invariant forall k | 0 <= k < from :: target[k] < |stubs| && stubs[target[k]] == StubCode(misses[k])
      {
        target := target + [|stubs|];
        i := i + 1;
      }
      stubs := stubs + [StubCode(first)];
    }
  }

  /** The emitter has compiled prog: it may go on, or it has closed the block. */
  ghost predicate Building(em: BlockEmitter, prog: Stream, keep: bool)
    reads em
  {
    && em.Ready() && SitesOk(em.misses, |prog|) && em.offset == Bytes(prog)
    && Simulates(em.policy, prog, em.code, em.vr, em.misses, em.exits)
    && if em.exited then !keep && em.exits <= MAX_EXITS && Finished(em.policy, prog, em.code, em.misses, em.exits)
       else em.Open()
  }

  /** One turn of the decode loop. */
  method CompileOne(em: BlockEmitter, ghost prog: Stream, d: Decoded, count: nat, full: bool) returns (keep: bool)
    requires Building(em, prog, true) && count == |prog| && Registered(d) && Bytes(prog) + Size(d) <= 0x1000
    modifies em
    ensures Building(em, prog + [d], keep)
  {
    hide Simulates, Finished, SitesOk, CacheOk, Settled, Closes, Implements, Translated, ActionOk, Registered, Bytes;
    ghost var code, vr, misses, exits := em.code, em.vr, em.misses, em.exits;
    BytesSnoc(prog, d);
    TranslatedOk(d);
    em.index := count;
    ghost var frag;
    keep, frag := em.EmitAction(Translated(d), Size(d), full);
    SimulatesStep(em.policy, prog, code, vr, misses, exits, d, frag, em.vr, em.misses, em.exits);
    if em.exited {
      ClosesFinishes(em.policy, prog, code, vr, misses, exits, d, frag, em.vr, em.misses, em.exits);
    }
    em.offset := em.offset + Size(d);
  }

  /** Compiles the stream as far as the buffer, the instruction limit and the
      instructions themselves allow.  The block never crosses its page, so the stream
      offered is at most a page long. */
  method Compile(p: Policy, stream: Stream) returns (b: Block)
    requires Bytes(stream) <= 0x1000
    ensures b.GiveUp? <==> stream == []
    ensures b.Block? ==> 1 <= b.count <= |stream| && b.count <= MAX_INSTRUCTIONS && b.exits <= MAX_EXITS
    ensures b.Block? ==> b.bytes == Bytes(stream[..b.count]) && Correct(p, stream[..b.count], b)
  {
    hide Simulates, Finished, Correct, SitesOk, CacheOk, Settled, Registered, LeaveCode, Bytes;
    var em := new BlockEmitter(p);
    EmptyReady(em.vr, em.hr, em.misses);
    SimulatesEmpty(p, [], 0);
    var count, keep := 0, true;
    assert stream[..0] == [];
    while count < |stream| && count < MAX_INSTRUCTIONS && keep
      invariant 0 <= count <= |stream| && count <= MAX_INSTRUCTIONS && (count == 0 ==> keep)
      invariant fresh(em) && em.policy == p && Building(em, stream[..count], keep)
    {
      var full: bool := *;
      if count > 0 && full { break; }
      var d := stream[count];
      assert stream[..count + 1] == stream[..count] + [d];
      BytesSnoc(stream[..count], d);
      BytesMono(stream, count + 1);
      var again: bool := *;
      keep := CompileOne(em, stream[..count], d, count, again);
      count := count + 1;
    }
    if count == 0 {
      return GiveUp;
    }
    BytesMono(stream, count);
    if !em.exited {
      ghost var code, vr, misses, exits := em.code, em.vr, em.misses, em.exits;
      ghost var flush := em.EmitBlockExit(em.offset, count);
      EpilogueFinishes(p, stream[..count], code, vr, misses, exits, flush, em.vr);
    }
    var stubs, target := EmitMissStubs(em.misses, count);
    b := Block(em.code, stubs, target, em.exits, count, em.offset);
    FinishedCorrect(p, stream[..count], em.misses, b);
  }

  lemma EmptyReady(vr: VRegs, hr: Slots, misses: seq<MissSite>)
    requires vr == EMPTY && hr == seq(6, _ => FREE) && misses == []
    ensures CacheOk(vr, hr) && Settled(hr) && SitesOk(misses, 0) && Bytes([]) == 0
  {
  }
}
