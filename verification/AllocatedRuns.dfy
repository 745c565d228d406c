/** Running a function on the locations the allocator chose simulates running
    it on its variables, whatever the clobbered registers are left holding. */
module AllocatedRuns {
  import opened FlowGraph
  import opened Prelude
  import opened RegisterAllocation

  /** What instructions compute. The world holds everything that is not a variable
      of the function: globals, the heap, and how each branch will go. */
  datatype Machine<!V, !W> = Machine(
    compute: (Instr, map<Var, V>, W) -> (V, W),
    next: (nat, W) -> nat)

  datatype Config<!S, W> = Config(block: nat, pc: nat, store: S, world: W)

  ghost predicate InCode<S, W>(fn: Function, c: Config<S, W>) {
    c.block < |fn.g.blocks| && c.pc < |fn.g.blocks[c.block].code|
  }

  // At the end of a block control leaves by one of its edges.
  ghost predicate Jumps<V, W, S>(m: Machine<V, W>, fn: Function, c: Config<S, W>, block: nat, pc: nat, world: W) {
    && c.block < |fn.g.blocks| && c.pc == |fn.g.blocks[c.block].code|
    && m.next(c.block, c.world) < |fn.g.blocks[c.block].succ|
    && block == fn.g.blocks[c.block].succ[m.next(c.block, c.world)]
    && pc == 0 && world == c.world
  }

  // ----- on variables -----

  function VarArgs<V>(fn: Function, ins: Instr, store: Var -> V): map<Var, V> {
    map v | v in ins.args && v in fn.Vars() :: store(v)
  }

  ghost predicate VarStep<V, W>(m: Machine<V, W>, fn: Function, c: Config<Var -> V, W>, c': Config<Var -> V, W>) {
    if InCode(fn, c) then
      var ins := fn.g.blocks[c.block].code[c.pc];
      var (value, world) := m.compute(ins, VarArgs(fn, ins, c.store), c.world);
      && c'.block == c.block && c'.pc == c.pc + 1 && c'.world == world
      && forall v: Var :: c'.store(v) == if ins.def == Some(v) then value else c.store(v)
    else
      Jumps(m, fn, c, c'.block, c'.pc, c'.world) && forall v: Var :: c'.store(v) == c.store(v)
  }

  // ----- on locations -----

  predicate ScratchRegister(loc: Location) {
    IsKind(loc, RegScratch)
  }

  // What the code of an instruction may leave anything in.
  predicate Clobbers(ins: Instr, loc: Location) {
    match ins.regs
    case NoRegs => false
    case Scratch => ScratchRegister(loc)
    case EarlyScratch => ScratchRegister(loc)
    case Caller => ScratchRegister(loc) || IsKind(loc, RegCaller)
  }

  function LocationArgs<V>(fn: Function, location: map<Var, Location>, ins: Instr, store: Location -> V): map<Var, V>
    requires location.Keys == Elems(fn.Vars())
  {
    map v | v in ins.args && v in location :: store(location[v])
  }

  ghost predicate IsDest(location: map<Var, Location>, ins: Instr, loc: Location) {
    ins.def.Some? && ins.def.value in location && loc == location[ins.def.value]
  }

  // What has become of the store when an instruction reads its inputs.
  ghost predicate EarlyClobber<V>(ins: Instr, store: Location -> V, mid: Location -> V) {
    forall l :: (ins.regs == EarlyScratch && ScratchRegister(l)) || mid(l) == store(l)
  }

  /** One step on locations. An early-scratch instruction reads its inputs from
      mid, in which the scratch registers may already be overwritten. */
  ghost predicate LocationStep<V, W>(m: Machine<V, W>, fn: Function, location: map<Var, Location>,
                                     c: Config<Location -> V, W>, mid: Location -> V, c': Config<Location -> V, W>)
    requires location.Keys == Elems(fn.Vars())
  {
    if InCode(fn, c) then
      var ins := fn.g.blocks[c.block].code[c.pc];
      var (value, world) := m.compute(ins, LocationArgs(fn, location, ins, mid), c.world);
      && EarlyClobber(ins, c.store, mid)
      && c'.block == c.block && c'.pc == c.pc + 1 && c'.world == world
      && (forall l :: IsDest(location, ins, l) ==> c'.store(l) == value)
      && (forall l :: IsDest(location, ins, l) || Clobbers(ins, l) || c'.store(l) == mid(l))
    else
      Jumps(m, fn, c, c'.block, c'.pc, c'.world) && forall l :: c'.store(l) == c.store(l)
  }

  // ----- the simulation -----

  /** A function with a solution of its liveness equations and an allocation
      that respects it, as flow_live and allocate_registers leave it. */
  datatype Compilation = Compilation(fn: Function, ins: seq<set<Var>>, outs: seq<set<Var>>, location: map<Var, Location>) {
    ghost predicate Sound() {
      fn.Valid() && LiveSolution(fn.g, ins, outs) && Allocated(fn, ins, outs, location)
    }
  }

  type Allocation = a: Compilation | a.Sound()
    ghost witness Compilation(Function(Graph([], {}), [], [], [], 0), [], [], map[])

  /** Liveness, then allocation, as code generation runs them for each function. */
  method AllocateFunction(fn: Function, nscratch: nat, ncaller: nat, ncallee: nat) returns (a: Allocation)
    requires fn.Valid()
    ensures a.fn == fn
    ensures forall b, v :: 0 <= b < |fn.g.blocks| ==> (v in a.ins[b] <==> LiveAt(fn.g, b, v))
  {
    var ins, outs := FlowLive(fn.g);
    var allocator := new Allocator(fn, ins, outs, nscratch, ncaller, ncallee);
    var scratch, caller, callee, spill;
    ghost var gr, demoted;
    scratch, caller, callee, spill, gr, demoted := allocator.AllocateRegisters();
    a := Compilation(fn, ins, outs, allocator.location);
  }

  // The live variables at a program point hold the same values in both stores.
  ghost predicate Agree<V, W>(fn: Function, outs: seq<set<Var>>, location: map<Var, Location>,
                              c: Config<Var -> V, W>, d: Config<Location -> V, W>)
    requires |outs| == |fn.g.blocks|
  {
    && c.block == d.block < |outs| && c.pc == d.pc <= |fn.g.blocks[c.block].code| && c.world == d.world
    && forall v :: v in location && v in LiveBefore(fn.g.blocks[c.block].code, c.pc, outs[c.block]) ==>
                     d.store(location[v]) == c.store(v)
  }

  // The instruction about to run reads the same arguments from locations as from variables.
  ghost predicate SameArgs<V, W>(fn: Function, location: map<Var, Location>, c: Config<Var -> V, W>, mid: Location -> V)
    requires location.Keys == Elems(fn.Vars()) && InCode(fn, c)
  {
    var i := fn.g.blocks[c.block].code[c.pc];
    LocationArgs(fn, location, i, mid) == VarArgs(fn, i, c.store)
  }

  // A variable that is live across an instruction keeps its location's content.
  lemma Undisturbed(fn: Function, ins: seq<set<Var>>, outs: seq<set<Var>>, location: map<Var, Location>, b: nat, k: nat, v: Var)
    requires |fn.g.blocks| == |ins| == |outs| && Allocated(fn, ins, outs, location)
    requires b < |outs| && k < |fn.g.blocks[b].code|
    requires v in location && v in LiveBefore(fn.g.blocks[b].code, k + 1, outs[b]) && v !in DefSet(fn.g.blocks[b].code[k])
    ensures !IsDest(location, fn.g.blocks[b].code[k], location[v])
    ensures !Clobbers(fn.g.blocks[b].code[k], location[v])
  {
    var code, out := fn.g.blocks[b].code, outs[b];
    var i := code[k];
    if i.def.Some? && i.def.value in location {
      assert v in LiveAfter(code, k, out) && i.def.value in LiveAfter(code, k, out);
      assert Together(fn.g, ins, outs, i.def.value, v);
    }
    ScanBlocksMember(CallSurvivors, fn.g, outs, |outs|, v);
    ScanBlocksMember(ScratchSurvivors, fn.g, outs, |outs|, v);
    assert i.regs == Caller ==> v in CallSurvivors(code, k, out);
    assert i.regs == Scratch || i.regs == EarlyScratch ==> v in ScratchSurvivors(code, k, out);
  }

  // An early-scratch instruction finds its inputs undisturbed.
  lemma InputsKept(fn: Function, ins: seq<set<Var>>, outs: seq<set<Var>>, location: map<Var, Location>, b: nat, k: nat, v: Var)
    requires |fn.g.blocks| == |ins| == |outs| && Allocated(fn, ins, outs, location)
    requires b < |outs| && k < |fn.g.blocks[b].code| && fn.g.blocks[b].code[k].regs == EarlyScratch
    requires v in location && v in LiveBefore(fn.g.blocks[b].code, k, outs[b])
    ensures !ScratchRegister(location[v])
  {
    ScanBlocksMember(ScratchSurvivors, fn.g, outs, |outs|, v);
    assert v in ScratchSurvivors(fn.g.blocks[b].code, k, outs[b]);
  }

  lemma ArgsAgree<V, W>(m: Machine<V, W>, fn: Function, ins: seq<set<Var>>, outs: seq<set<Var>>, location: map<Var, Location>,
                        c: Config<Var -> V, W>, d: Config<Location -> V, W>, mid: Location -> V)
    requires |fn.g.blocks| == |ins| == |outs| && Allocated(fn, ins, outs, location)
    requires Agree(fn, outs, location, c, d) && InCode(fn, c)
    requires EarlyClobber(fn.g.blocks[c.block].code[c.pc], d.store, mid)
    ensures forall v :: v in location && v in LiveBefore(fn.g.blocks[c.block].code, c.pc, outs[c.block]) ==>
                          mid(location[v]) == c.store(v)
    ensures SameArgs(fn, location, c, mid)
  {
    var code := fn.g.blocks[c.block].code;
    forall v | v in location && v in LiveBefore(code, c.pc, outs[c.block])
      ensures mid(location[v]) == c.store(v)
    {
      if code[c.pc].regs == EarlyScratch { InputsKept(fn, ins, outs, location, c.block, c.pc, v); }
    }
    assert code[c.pc].args <= LiveBefore(code, c.pc, outs[c.block]);
  }

  lemma InstructionAgrees<V, W>(m: Machine<V, W>, fn: Function, ins: seq<set<Var>>, outs: seq<set<Var>>, location: map<Var, Location>,
                                c: Config<Var -> V, W>, c': Config<Var -> V, W>,
                                d: Config<Location -> V, W>, mid: Location -> V, d': Config<Location -> V, W>)
    requires |fn.g.blocks| == |ins| == |outs| && Allocated(fn, ins, outs, location)
    requires Agree(fn, outs, location, c, d) && InCode(fn, c)
    requires VarStep(m, fn, c, c') && LocationStep(m, fn, location, d, mid, d')
    ensures Agree(fn, outs, location, c', d') && SameArgs(fn, location, c, mid)
  {
    var b, k := c.block, c.pc;
    var code := fn.g.blocks[b].code;
    ArgsAgree(m, fn, ins, outs, location, c, d, mid);
    forall v | v in location && v in LiveBefore(code, k + 1, outs[b])
      ensures d'.store(location[v]) == c'.store(v)
    {
      if v in DefSet(code[k]) {
        assert IsDest(location, code[k], location[v]);
      } else {
        assert v in LiveBefore(code, k, outs[b]);
        Undisturbed(fn, ins, outs, location, b, k, v);
      }
    }
  }

  lemma JumpAgrees<V, W>(m: Machine<V, W>, a: Allocation, c: Config<Var -> V, W>, c': Config<Var -> V, W>,
                         d: Config<Location -> V, W>, mid: Location -> V, d': Config<Location -> V, W>)
    requires Agree(a.fn, a.outs, a.location, c, d) && !InCode(a.fn, c)
    requires VarStep(m, a.fn, c, c') && LocationStep(m, a.fn, a.location, d, mid, d')
    ensures Agree(a.fn, a.outs, a.location, c', d')
  {
    var s := c'.block;
    assert s in a.fn.g.blocks[c.block].succ;
    EntryLive(a.fn, a.ins, a.outs, s);
    assert a.ins[s] <= a.outs[c.block];
    forall v | v in a.location && v in LiveBefore(a.fn.g.blocks[s].code, 0, a.outs[s])
      ensures d'.store(a.location[v]) == c'.store(v)
    {
      assert v in a.outs[c.block];
    }
  }

  lemma StepAgrees<V, W>(m: Machine<V, W>, a: Allocation, c: Config<Var -> V, W>, c': Config<Var -> V, W>,
                         d: Config<Location -> V, W>, mid: Location -> V, d': Config<Location -> V, W>)
    requires Agree(a.fn, a.outs, a.location, c, d)
    requires VarStep(m, a.fn, c, c') && LocationStep(m, a.fn, a.location, d, mid, d')
    ensures Agree(a.fn, a.outs, a.location, c', d')
    ensures InCode(a.fn, c) ==> SameArgs(a.fn, a.location, c, mid)
  {
    if InCode(a.fn, c) {
      InstructionAgrees(m, a.fn, a.ins, a.outs, a.location, c, c', d, mid, d');
    } else {
      JumpAgrees(m, a, c, c', d, mid, d');
    }
  }

  // At a block start the scan finds the block's live-in, as far as located variables go.
  lemma EntryLive(fn: Function, ins: seq<set<Var>>, outs: seq<set<Var>>, b: nat)
    requires fn.Valid() && LiveSolution(fn.g, ins, outs) && b < |ins|
    ensures forall v :: v in fn.Vars() ==> (v in LiveBefore(fn.g.blocks[b].code, 0, outs[b]) <==> v in ins[b])
  {
    ScanMeetsLiveIn(fn.g, ins, outs, b);
    forall v | v in fn.Vars() ensures v in LiveBefore(fn.g.blocks[b].code, 0, outs[b]) <==> v in ins[b] {
      assert v !in fn.g.globals;
      assert v in LiveBefore(fn.g.blocks[b].code, 0, outs[b]) <==> v in LiveBefore(fn.g.blocks[b].code, 0, outs[b]) - fn.g.globals;
    }
  }

  lemma StartAgrees<V, W>(a: Allocation, c: Config<Var -> V, W>, d: Config<Location -> V, W>)
    requires c.pc == d.pc == 0 && c.block == d.block < |a.ins| && c.world == d.world
    requires forall v :: v in a.location && v in a.ins[c.block] ==> d.store(a.location[v]) == c.store(v)
    ensures Agree(a.fn, a.outs, a.location, c, d)
  {
    EntryLive(a.fn, a.ins, a.outs, c.block);
  }

  // The i-th step of a run on variables and of a run on locations.
  ghost predicate StepAt<V, W>(m: Machine<V, W>, a: Allocation, run: seq<Config<Var -> V, W>>,
                               lrun: seq<Config<Location -> V, W>>, mids: seq<Location -> V>, i: nat)
    requires i < |mids| == |run| - 1 == |lrun| - 1
  {
    VarStep(m, a.fn, run[i], run[i+1]) && LocationStep(m, a.fn, a.location, lrun[i], mids[i], lrun[i+1])
  }

  // The two runs start at the same block, with the block's live-in variables in their locations.
  ghost predicate RunsFrom<V, W>(m: Machine<V, W>, a: Allocation, run: seq<Config<Var -> V, W>>,
                                 lrun: seq<Config<Location -> V, W>>, mids: seq<Location -> V>)
  {
    && |run| == |lrun| == |mids| + 1
    && (forall i :: 0 <= i < |mids| ==> StepAt(m, a, run, lrun, mids, i))
    && run[0].pc == lrun[0].pc == 0 && run[0].block == lrun[0].block < |a.ins| && run[0].world == lrun[0].world
    && forall v :: v in a.location && v in a.ins[run[0].block] ==> lrun[0].store(a.location[v]) == run[0].store(v)
  }

  // The i-th configurations of the two runs agree.
  ghost predicate InStep<V, W>(a: Compilation, run: seq<Config<Var -> V, W>>, lrun: seq<Config<Location -> V, W>>, i: nat)
    requires |a.outs| == |a.fn.g.blocks| && i < |run| == |lrun|
  {
    Agree(a.fn, a.outs, a.location, run[i], lrun[i])
  }

  lemma NextAgrees<V, W>(m: Machine<V, W>, a: Allocation, run: seq<Config<Var -> V, W>>,
                         lrun: seq<Config<Location -> V, W>>, mids: seq<Location -> V>, i: nat)
    requires RunsFrom(m, a, run, lrun, mids) && i < |mids| && InStep(a, run, lrun, i)
    ensures InStep(a, run, lrun, i + 1)
    ensures InCode(a.fn, run[i]) ==> SameArgs(a.fn, a.location, run[i], mids[i])
  {
    assert StepAt(m, a, run, lrun, mids, i);
    StepAgrees(m, a, run[i], run[i+1], lrun[i], mids[i], lrun[i+1]);
  }

  lemma {:induction false} AlwaysInStep<V, W>(a: Compilation, run: seq<Config<Var -> V, W>>, lrun: seq<Config<Location -> V, W>>, i: nat)
    requires |a.outs| == |a.fn.g.blocks| && i < |run| == |lrun|
    requires InStep(a, run, lrun, 0)
    requires forall j: nat :: j + 1 < |run| && InStep(a, run, lrun, j) ==> InStep(a, run, lrun, j + 1)
    ensures InStep(a, run, lrun, i)
  {
    if i > 0 {
      AlwaysInStep(a, run, lrun, i - 1);
    }
  }

  /** For every run on locations and the run on variables from the same start:
      both stay at the same point with the same world, every live variable's
      location holds the variable's value, and every instruction reads the same
      arguments. */
  lemma AllocationPreservesMeaning<V, W>(
    m: Machine<V, W>, a: Allocation, run: seq<Config<Var -> V, W>>,
    lrun: seq<Config<Location -> V, W>>, mids: seq<Location -> V>, i: nat)
    requires RunsFrom(m, a, run, lrun, mids) && i < |run|
    ensures InStep(a, run, lrun, i)
    ensures i < |mids| && InCode(a.fn, run[i]) ==> SameArgs(a.fn, a.location, run[i], mids[i])
  {
    StartAgrees(a, run[0], lrun[0]);
    forall j: nat | j + 1 < |run| && InStep(a, run, lrun, j) ensures InStep(a, run, lrun, j + 1) {
      NextAgrees(m, a, run, lrun, mids, j);
    }
    AlwaysInStep(a, run, lrun, i);
    if i < |mids| {
      NextAgrees(m, a, run, lrun, mids, i);
    }
  }

  /** The locations of the variables live on entry to a block are distinct, so
      any values of those variables can be held at once. */
  lemma EntryRealizable<V>(a: Allocation, b: nat, store: Var -> V, other: V) returns (t: Location -> V)
    requires b < |a.ins|
    ensures forall v :: v in a.location && v in a.ins[b] ==> t(a.location[v]) == store(v)
  {
    t := l => match HeldAt(a.ins[b], a.location, l) case None => other case Some(v) => store(v);
    forall v | v in a.location && v in a.ins[b] ensures t(a.location[v]) == store(v) {
      var held := HeldAt(a.ins[b], a.location, a.location[v]);
      assert held.value != v ==> Together(a.fn.g, a.ins, a.outs, held.value, v);
    }
  }

  ghost function HeldAt(live: set<Var>, location: map<Var, Location>, l: Location): (r: Option<Var>)
    ensures r.Some? ==> r.value in location && r.value in live && location[r.value] == l
    ensures r.None? ==> forall v :: v in location && v in live ==> location[v] != l
  {
    if exists v :: v in location && v in live && location[v] == l
    then (var v :| v in location && v in live && location[v] == l; Some(v))
    else None
  }

  // ----- progress -----

  /** From agreeing configurations every step on variables has its step on locations,
      whatever a mid-instruction store and the clobbered registers hold. */
  lemma StepExists<V, W>(m: Machine<V, W>, a: Allocation, c: Config<Var -> V, W>, c': Config<Var -> V, W>,
                         d: Config<Location -> V, W>, mid: Location -> V, junk: Location -> V)
    returns (d': Config<Location -> V, W>)
    requires Agree(a.fn, a.outs, a.location, c, d) && VarStep(m, a.fn, c, c')
    requires InCode(a.fn, c) ==> EarlyClobber(a.fn.g.blocks[c.block].code[c.pc], d.store, mid)
    ensures LocationStep(m, a.fn, a.location, d, mid, d') && Agree(a.fn, a.outs, a.location, c', d')
    ensures InCode(a.fn, c) ==>
              var i := a.fn.g.blocks[c.block].code[c.pc];
              forall l :: Clobbers(i, l) && !IsDest(a.location, i, l) ==> d'.store(l) == junk(l)
  {
    if InCode(a.fn, c) {
      var i := a.fn.g.blocks[c.block].code[c.pc];
      var value := m.compute(i, LocationArgs(a.fn, a.location, i, mid), d.world);
      d' := Config(d.block, d.pc + 1, AfterStore(i, a.location, value.0, mid, junk), value.1);
    } else {
      d' := Config(c'.block, c'.pc, d.store, c'.world);
    }
    StepAgrees(m, a, c, c', d, mid, d');
  }

  ghost function AfterStore<V>(i: Instr, location: map<Var, Location>, value: V, mid: Location -> V, junk: Location -> V): Location -> V {
    l => if i.def.Some? && i.def.value in location && l == location[i.def.value] then value
         else if Clobbers(i, l) then junk(l) else mid(l)
  }

  ghost predicate VarRun<V, W>(m: Machine<V, W>, fn: Function, run: seq<Config<Var -> V, W>>) {
    run != [] && run[0].pc == 0 && forall i :: 0 <= i < |run| - 1 ==> VarStep(m, fn, run[i], run[i + 1])
  }

  /** So every run on variables from a block's start has a run on locations beside it,
      from any store that holds the live variables. */
  lemma {:induction false} RunExists<V, W>(m: Machine<V, W>, a: Allocation, run: seq<Config<Var -> V, W>>, d: Config<Location -> V, W>)
    returns (lrun: seq<Config<Location -> V, W>>, mids: seq<Location -> V>)
    requires VarRun(m, a.fn, run) && d.pc == 0 && d.block == run[0].block < |a.ins| && d.world == run[0].world
    requires forall v :: v in a.location && v in a.ins[d.block] ==> d.store(a.location[v]) == run[0].store(v)
    ensures RunsFrom(m, a, run, lrun, mids) && lrun[0] == d
    decreases |run|
  {
    if |run| == 1 {
      lrun, mids := [d], [];
    } else {
      var last := |run| - 2;
      var front := run[..last + 1];
      var lfront, mfront := RunExists(m, a, front, d);
      AllocationPreservesMeaning(m, a, front, lfront, mfront, last);
      assert front[last] == run[last];
      var mid := lfront[last].store;
      var next := StepExists(m, a, run[last], run[last + 1], lfront[last], mid, mid);
      lrun, mids := lfront + [next], mfront + [mid];
      forall i | 0 <= i < |mids| ensures StepAt(m, a, run, lrun, mids, i) {
        if i < last { assert StepAt(m, a, front, lfront, mfront, i); }
      }
    }
  }
}
