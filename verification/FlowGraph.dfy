/** Flow graphs of intermediate code, and the liveness analysis of flow.mud.

    Variables are the numbers that mc:recompute_vars gives them, and bitsets of
    variables are sets. An instruction is known by what the allocator sees of
    it: the variables it reads, the variable it defines, and which registers
    its generated code clobbers. */
module FlowGraph {
  import opened Prelude

  type Var = nat

  datatype RegClass = NoRegs | Scratch | EarlyScratch | Caller

  datatype Instr = Instr(args: set<Var>, def: Option<Var>, regs: RegClass, op: nat)

  datatype Block = Block(code: seq<Instr>, succ: seq<nat>)

  datatype Graph = Graph(blocks: seq<Block>, globals: set<Var>) {
    predicate Valid() {
      forall b, s :: 0 <= b < |blocks| && s in blocks[b].succ ==> s < |blocks|
    }

    function Vars(): set<Var> {
      set b, k, v | 0 <= b < |blocks| && 0 <= k < |blocks[b].code| && v in blocks[b].code[k].args :: v
    }
  }

  function DefSet(ins: Instr): set<Var> {
    if ins.def.Some? then {ins.def.value} else {}
  }

  // The variables assigned somewhere in a block (mc:f_dvars).
  function Kill(code: seq<Instr>): set<Var> {
    set k, v | 0 <= k < |code| && v in DefSet(code[k]) :: v
  }

  ghost predicate UsedBeforeDef(code: seq<Instr>, v: Var) {
    exists k :: 0 <= k < |code| && v in code[k].args && forall j :: 0 <= j < k ==> code[j].def != Some(v)
  }

  // The set a block contributes to its own live-in (flow_gen).
  function Gen(code: seq<Instr>, globals: set<Var>): set<Var> {
    set k, v | 0 <= k < |code| && v in code[k].args && v !in globals
               && (forall j :: 0 <= j < k ==> v !in DefSet(code[j])) :: v
  }

  method BlockLive(code: seq<Instr>, globals: set<Var>) returns (gen: set<Var>)
    ensures forall v :: v in gen <==> v !in globals && UsedBeforeDef(code, v)
    ensures gen == Gen(code, globals)
  {
    var used, defined: set<Var> := {}, {};
    for i := 0 to |code|
      invariant defined == Kill(code[..i])
      invariant forall v :: v in used <==> UsedBeforeDef(code[..i], v)
    {
      assert code[..i+1] == code[..i] + [code[i]];
      forall v ensures UsedBeforeDef(code[..i+1], v) <==> UsedBeforeDef(code[..i], v) || (v in code[i].args && v !in defined) {
        UsedInMore(code[..i], code[i], v);
      }
      KillMore(code[..i], code[i]);
      used := used + (code[i].args - defined);
      defined := defined + DefSet(code[i]);
    }
    assert code[..|code|] == code;
    gen := used - globals;
  }

  lemma KillMore(code: seq<Instr>, ins: Instr)
    ensures Kill(code + [ins]) == Kill(code) + DefSet(ins)
  {
    var more := code + [ins];
    forall v | v in Kill(code) ensures v in Kill(more) {
      var k :| 0 <= k < |code| && v in DefSet(code[k]);
      assert more[k] == code[k];
    }
    forall v | v in DefSet(ins) ensures v in Kill(more) {
      assert more[|code|] == ins;
    }
  }

  lemma UsedInMore(code: seq<Instr>, ins: Instr, v: Var)
    ensures UsedBeforeDef(code + [ins], v) <==> UsedBeforeDef(code, v) || (v in ins.args && v !in Kill(code))
  {
    var more := code + [ins];
    if UsedBeforeDef(code, v) {
      var k :| 0 <= k < |code| && v in code[k].args && forall j :: 0 <= j < k ==> code[j].def != Some(v);
      assert more[k] == code[k];
    }
    if v in ins.args && v !in Kill(code) {
      assert more[|code|] == ins;
      forall j | 0 <= j < |code| ensures more[j].def != Some(v) {
        assert v !in DefSet(code[j]);
      }
    }
    if UsedBeforeDef(more, v) {
      var k :| 0 <= k < |more| && v in more[k].args && forall j :: 0 <= j < k ==> more[j].def != Some(v);
      forall j | 0 <= j < k ensures code[j].def != Some(v) {
        assert more[j] == code[j];
      }
      if k < |code| {
        assert code[k] == more[k];
      } else {
        forall j | 0 <= j < |code| ensures v !in DefSet(code[j]) {
          assert code[j].def != Some(v);
        }
      }
    }
  }

  // No instruction assigns v.
  ghost predicate LeftAlone(code: seq<Instr>, v: Var) {
    forall k :: 0 <= k < |code| ==> code[k].def != Some(v)
  }

  lemma GenKillMeaning(code: seq<Instr>, globals: set<Var>, v: Var)
    ensures v in Gen(code, globals) <==> v !in globals && UsedBeforeDef(code, v)
    ensures v !in Kill(code) <==> LeftAlone(code, v)
  {
    if k :| 0 <= k < |code| && code[k].def == Some(v) { assert v in DefSet(code[k]); }
  }

  // A path along which v is used before any definition of it.
  ghost predicate UsePath(g: Graph, v: Var, p: seq<nat>)
  {
    && |p| > 0
    && (forall i :: 0 <= i < |p| ==> p[i] < |g.blocks|)
    && (forall i :: 0 <= i < |p| - 1 ==> p[i+1] in g.blocks[p[i]].succ && LeftAlone(g.blocks[p[i]].code, v))
    && v !in g.globals && UsedBeforeDef(g.blocks[p[|p|-1]].code, v)
  }

  ghost predicate LiveAt(g: Graph, b: nat, v: Var) {
    exists p :: UsePath(g, v, p) && p[0] == b
  }

  // The equations of mc:flow_live.
  ghost predicate LiveSolution(g: Graph, ins: seq<set<Var>>, outs: seq<set<Var>>) {
    && |ins| == |outs| == |g.blocks|
    && g.Valid()
    && (forall b :: 0 <= b < |ins| ==> outs[b] == UnionOver(g.blocks[b].succ, ins))
    && (forall b :: 0 <= b < |ins| ==>
                      ins[b] == Gen(g.blocks[b].code, g.globals) + (outs[b] - Kill(g.blocks[b].code)))
  }

  function UnionOver(succ: seq<nat>, ins: seq<set<Var>>): set<Var>
    requires forall s :: s in succ ==> s < |ins|
  {
    set s, v | s in succ && v in ins[s] :: v
  }

  ghost predicate GensOf(g: Graph, gens: seq<set<Var>>) {
    |gens| == |g.blocks| && forall b :: 0 <= b < |gens| ==> gens[b] == Gen(g.blocks[b].code, g.globals)
  }

  // One step for one node: returns whether in(n) changed.
  method UnionSuccessors(g: Graph, gens: seq<set<Var>>, liveIn: array<set<Var>>, liveOut: array<set<Var>>, n: nat)
    returns (change: bool)
    requires g.Valid() && GensOf(g, gens) && n < |g.blocks| == liveIn.Length == liveOut.Length && liveIn != liveOut
    modifies liveIn, liveOut
    ensures liveOut[..] == old(liveOut[..])[n := old(liveOut[n] + UnionOver(g.blocks[n].succ, liveIn[..]))]
    ensures liveIn[..] == old(liveIn[..])[n := Gen(g.blocks[n].code, g.globals) + (liveOut[n] - Kill(g.blocks[n].code))]
    ensures change <==> liveIn[n] != old(liveIn[n])
  {
    var succ := g.blocks[n].succ;
    var newOut := liveOut[n];
    forall i | 0 <= i < |succ| ensures succ[i] < |g.blocks| {
      assert succ[i] in g.blocks[n].succ;
    }
    for i := 0 to |succ|
      invariant liveIn[..] == old(liveIn[..]) && liveOut[..] == old(liveOut[..])
      invariant newOut == old(liveOut[n]) + UnionOver(succ[..i], liveIn[..])
    {
      assert succ[..i+1][..i] == succ[..i];
      newOut := newOut + liveIn[succ[i]];
    }
    assert succ[..|succ|] == succ;
    liveOut[n] := newOut;
    var newIn := gens[n] + (newOut - Kill(g.blocks[n].code));
    change := liveIn[n] != newIn;
    if change {
      liveIn[n] := newIn;
    }
  }

  ghost predicate AllLive(g: Graph, sets: seq<set<Var>>) {
    && |sets| == |g.blocks|
    && forall b, v :: 0 <= b < |sets| && v in sets[b] ==> LiveAt(g, b, v)
  }

  // Number of (block, variable) pairs still missing from ins.
  ghost function Missing(g: Graph, ins: seq<set<Var>>): nat {
    if ins == [] then 0 else Missing(g, ins[1..]) + |g.Vars() - ins[0]|
  }

  lemma {:induction false} MissingShrinks(g: Graph, before: seq<set<Var>>, after: seq<set<Var>>)
    requires |before| == |after|
    requires forall b :: 0 <= b < |before| ==> before[b] <= after[b] <= g.Vars()
    ensures Missing(g, after) <= Missing(g, before)
    ensures before != after ==> Missing(g, after) < Missing(g, before)
  {
    if before != [] {
      MissingShrinks(g, before[1..], after[1..]);
      assert g.Vars() - after[0] <= g.Vars() - before[0];
      SubsetCard(g.Vars() - after[0], g.Vars() - before[0]);
      if before != after {
        if before[0] != after[0] {
          var v :| v in after[0] && v !in before[0];
          assert v in g.Vars() - before[0] && v !in g.Vars() - after[0];
        } else {
          assert before == [before[0]] + before[1..] && after == [after[0]] + after[1..];
        }
      }
    }
  }

  // Everything one step adds is used along some path.
  lemma StepSound(g: Graph, n: nat, ins: seq<set<Var>>, out: set<Var>)
    requires g.Valid() && n < |g.blocks| && AllLive(g, ins)
    requires forall v :: v in out ==> exists s :: s in g.blocks[n].succ && LiveAt(g, s, v)
    ensures forall v :: v in Gen(g.blocks[n].code, g.globals) + (out - Kill(g.blocks[n].code)) ==> LiveAt(g, n, v)
  {
    forall v | v in Gen(g.blocks[n].code, g.globals) + (out - Kill(g.blocks[n].code))
      ensures LiveAt(g, n, v)
    {
      GenKillMeaning(g.blocks[n].code, g.globals, v);
      if v in Gen(g.blocks[n].code, g.globals) {
        assert UsePath(g, v, [n]);
      } else {
        var s :| s in g.blocks[n].succ && LiveAt(g, s, v);
        var p :| UsePath(g, v, p) && p[0] == s;
        var q := [n] + p;
        assert forall j :: 0 < j < |q| ==> q[j] == p[j-1];
        assert q[|q|-1] == p[|p|-1];
        assert UsePath(g, v, q) && q[0] == n;
      }
    }
  }

  ghost predicate OutsBounded(g: Graph, ins: seq<set<Var>>, outs: seq<set<Var>>)
    requires g.Valid()
  {
    && |ins| == |outs| == |g.blocks|
    && forall b :: 0 <= b < |outs| ==> outs[b] <= UnionOver(g.blocks[b].succ, ins)
  }

  lemma LiveVarsKnown(g: Graph, b: nat, v: Var)
    requires LiveAt(g, b, v)
    ensures v in g.Vars()
  {
    var p :| UsePath(g, v, p) && p[0] == b;
    var last := p[|p|-1];
    var k :| 0 <= k < |g.blocks[last].code| && v in g.blocks[last].code[k].args;
  }

  // In a solution, a used-before-defined path puts v in the live-in of its first block.
  lemma {:induction false} PathIsIn(g: Graph, ins: seq<set<Var>>, outs: seq<set<Var>>, v: Var, p: seq<nat>)
    requires LiveSolution(g, ins, outs) && UsePath(g, v, p)
    ensures v in ins[p[0]]
    decreases |p|
  {
    if |p| > 1 {
      var q := p[1..];
      assert q[|q|-1] == p[|p|-1];
      assert UsePath(g, v, q);
      PathIsIn(g, ins, outs, v, q);
      assert p[1] in g.blocks[p[0]].succ;
    }
    GenKillMeaning(g.blocks[p[0]].code, g.globals, v);
  }

  /** Iterates to a solution of the equations; the live-in sets are exactly the
      variables that some path uses before defining them. */
  method FlowLive(g: Graph) returns (ins: seq<set<Var>>, outs: seq<set<Var>>)
    requires g.Valid()
    ensures LiveSolution(g, ins, outs)
    ensures forall b, v :: 0 <= b < |g.blocks| ==> (v in ins[b] <==> LiveAt(g, b, v))
  {
    hide LiveSolution, LiveAt, UsePath, Gen, Missing;
    var n := |g.blocks|;
    var gens := [];
    for b := 0 to n
      invariant |gens| == b && forall c :: 0 <= c < b ==> gens[c] == Gen(g.blocks[c].code, g.globals)
    {
      var gen := BlockLive(g.blocks[b].code, g.globals);
      gens := gens + [gen];
    }
    var liveIn, liveOut := new set<Var>[n](_ => {}), new set<Var>[n](_ => {});
    var change := true;
    while change
      invariant liveIn.Length == liveOut.Length == n && liveIn != liveOut && fresh(liveIn) && fresh(liveOut)
      invariant AllLive(g, liveIn[..]) && OutsBounded(g, liveIn[..], liveOut[..]) && InsBounded(g, liveIn[..], liveOut[..])
      invariant !change ==> LiveSolution(g, liveIn[..], liveOut[..])
      decreases change, Missing(g, liveIn[..])
    {
      change := Pass(g, gens, liveIn, liveOut);
    }
    ins, outs := liveIn[..], liveOut[..];
    SolutionHoldsLive(g, ins, outs);
  }

  lemma SolutionHoldsLive(g: Graph, ins: seq<set<Var>>, outs: seq<set<Var>>)
    requires g.Valid() && LiveSolution(g, ins, outs)
    ensures forall b, v :: 0 <= b < |g.blocks| && LiveAt(g, b, v) ==> v in ins[b]
  {
    forall b, v | 0 <= b < |g.blocks| && LiveAt(g, b, v) ensures v in ins[b] {
      var p :| UsePath(g, v, p) && p[0] == b;
      PathIsIn(g, ins, outs, v, p);
    }
  }

  ghost predicate InsBounded(g: Graph, ins: seq<set<Var>>, outs: seq<set<Var>>) {
    && |ins| == |outs| == |g.blocks|
    && forall b :: 0 <= b < |ins| ==> ins[b] <= Gen(g.blocks[b].code, g.globals) + (outs[b] - Kill(g.blocks[b].code))
  }

  // One sweep over all nodes.
  method Pass(g: Graph, gens: seq<set<Var>>, liveIn: array<set<Var>>, liveOut: array<set<Var>>) returns (change: bool)
    requires g.Valid() && GensOf(g, gens) && |g.blocks| == liveIn.Length == liveOut.Length && liveIn != liveOut
    requires AllLive(g, liveIn[..]) && OutsBounded(g, liveIn[..], liveOut[..]) && InsBounded(g, liveIn[..], liveOut[..])
    modifies liveIn, liveOut
    ensures AllLive(g, liveIn[..]) && OutsBounded(g, liveIn[..], liveOut[..]) && InsBounded(g, liveIn[..], liveOut[..])
    ensures if change then Missing(g, liveIn[..]) < old(Missing(g, liveIn[..]))
            else LiveSolution(g, liveIn[..], liveOut[..])
  {
    ghost var ins0 := liveIn[..];
    change := false;
    for i := 0 to |g.blocks|
      invariant AllLive(g, liveIn[..]) && OutsBounded(g, liveIn[..], liveOut[..]) && InsBounded(g, liveIn[..], liveOut[..])
      invariant forall b :: 0 <= b < |ins0| ==> ins0[b] <= liveIn[b]
      invariant change <==> liveIn[..] != ins0
      invariant !change ==> forall b :: 0 <= b < i ==>
                  && liveOut[b] == UnionOver(g.blocks[b].succ, ins0)
                  && liveIn[b] == Gen(g.blocks[b].code, g.globals) + (liveOut[b] - Kill(g.blocks[b].code))
    {
      ghost var ins1, outs1 := liveIn[..], liveOut[..];
      var changed := UnionSuccessors(g, gens, liveIn, liveOut, i);
      change := changed || change;
      StepKeeps(g, i, ins1, outs1, liveIn[..], liveOut[..]);
    }
    if change {
      forall b | 0 <= b < |ins0| ensures ins0[b] <= liveIn[b] <= g.Vars() {
        forall v | v in liveIn[b] ensures v in g.Vars() { LiveVarsKnown(g, b, v); }
      }
      MissingShrinks(g, ins0, liveIn[..]);
    }
  }

  lemma StepKeeps(g: Graph, n: nat, ins: seq<set<Var>>, outs: seq<set<Var>>, ins': seq<set<Var>>, outs': seq<set<Var>>)
    requires g.Valid() && n < |g.blocks|
    requires AllLive(g, ins) && OutsBounded(g, ins, outs) && InsBounded(g, ins, outs)
    requires outs' == outs[n := outs[n] + UnionOver(g.blocks[n].succ, ins)]
    requires ins' == ins[n := Gen(g.blocks[n].code, g.globals) + (outs'[n] - Kill(g.blocks[n].code))]
    ensures AllLive(g, ins') && OutsBounded(g, ins', outs') && InsBounded(g, ins', outs')
    ensures forall b :: 0 <= b < |ins| ==> ins[b] <= ins'[b]
  {
    var u := UnionOver(g.blocks[n].succ, ins);
    forall v | v in outs'[n] ensures exists s :: s in g.blocks[n].succ && LiveAt(g, s, v) {
      assert v in u;
      var s :| s in g.blocks[n].succ && v in ins[s];
    }
    StepSound(g, n, ins, outs'[n]);
    forall b | 0 <= b < |ins| ensures outs'[b] <= UnionOver(g.blocks[b].succ, ins') {
      UnionOverMono(g.blocks[b].succ, ins, ins');
    }
  }

  lemma UnionOverMono(succ: seq<nat>, ins: seq<set<Var>>, ins': seq<set<Var>>)
    requires |ins| == |ins'| && forall s :: s in succ ==> s < |ins|
    requires forall b :: 0 <= b < |ins| ==> ins[b] <= ins'[b]
    ensures UnionOver(succ, ins) <= UnionOver(succ, ins')
  {
  }

  // The live set mc:rscan_live carries when it is about to pass instruction k-1.
  function LiveBefore(code: seq<Instr>, k: nat, out: set<Var>): set<Var>
    decreases |code| - k
  {
    if k >= |code| then out else (LiveBefore(code, k + 1, out) - DefSet(code[k])) + code[k].args
  }

  // The live_out that mc:rscan_live passes on for instruction k: the defined variable counts.
  function LiveAfter(code: seq<Instr>, k: nat, out: set<Var>): set<Var>
    requires k < |code|
  {
    LiveBefore(code, k + 1, out) + DefSet(code[k])
  }

  lemma {:induction false} LiveBeforeMeaning(code: seq<Instr>, k: nat, out: set<Var>, v: Var)
    requires k <= |code|
    ensures v in LiveBefore(code, k, out) <==>
            || (exists j :: k <= j < |code| && v in code[j].args && forall i :: k <= i < j ==> v !in DefSet(code[i]))
            || (v in out && forall j :: k <= j < |code| ==> v !in DefSet(code[j]))
    decreases |code| - k
  {
    if k < |code| {
      LiveBeforeMeaning(code, k + 1, out, v);
      if v !in code[k].args && v !in DefSet(code[k]) && exists j :: k + 1 <= j < |code| && v in code[j].args && forall i :: k + 1 <= i < j ==> v !in DefSet(code[i]) {
        var j :| k + 1 <= j < |code| && v in code[j].args && forall i :: k + 1 <= i < j ==> v !in DefSet(code[i]);
        assert forall i :: k <= i < j ==> v !in DefSet(code[i]);
      }
    }
  }

  /** The reverse scan of a block started from its live-out meets its live-in
      again at the block start, globals aside. */
  lemma ScanMeetsLiveIn(g: Graph, ins: seq<set<Var>>, outs: seq<set<Var>>, b: nat)
    requires LiveSolution(g, ins, outs) && b < |ins|
    ensures LiveBefore(g.blocks[b].code, 0, outs[b]) - g.globals == ins[b] - g.globals
  {
    var code := g.blocks[b].code;
    forall v | v !in g.globals
      ensures v in LiveBefore(code, 0, outs[b]) <==> v in ins[b]
    {
      LiveBeforeMeaning(code, 0, outs[b], v);
    }
  }
}
