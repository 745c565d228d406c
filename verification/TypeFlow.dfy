/** The data-flow iteration of inference.mud: merge_block run to a fixed point
    gives the least typesets that satisfy the flow equations, and they are sound
    for every run. */
module TypeFlow {
  import opened Prelude
  import opened TypeInference

  datatype Edge = Edge(from: nat, fallthrough: bool)

  /** A block: its constraints, the constraints of the true and false edges of an
      interesting branch, the edges into it, and what is live on leaving it. */
  datatype Block = Block(gen: seq<Iconstraint>, branch: Option<(Iconstraint, Iconstraint)>, preds: seq<Edge>, liveOut: set<Var>)

  /** A function: its number of variables, its blocks, what init_infer puts in
      the entry block, and its globals. */
  datatype Problem = Problem(n: nat, blocks: seq<Block>, entry: nat, init: Typesets, globals: set<Var>) {
    ghost predicate Valid() {
      && |init| == n
      && forall b :: 0 <= b < |blocks| ==> ValidBlock(blocks[b])
    }

    ghost predicate ValidBlock(b: Block) {
      && (forall ic :: ic in b.gen ==> WellFormed(ic, n))
      && (b.branch.Some? ==> WellFormed(b.branch.value.0, n) && WellFormed(b.branch.value.1, n))
      && (forall e :: e in b.preds ==> e.from < |blocks|)
    }

    function Start(b: nat): (r: Typesets) {
      if b == entry then init else seq(n, _ => {})
    }
  }

  // One typeset vector per block.
  type Flow = seq<Typesets>

  ghost predicate IsFlow(p: Problem, f: Flow) {
    |f| == |p.blocks| && forall b :: 0 <= b < |f| ==> |f[b]| == p.n
  }

  ghost predicate LeqFlow(f: Flow, g: Flow) {
    |f| == |g| && forall b :: 0 <= b < |f| ==> Leq(f[b], g[b])
  }

  // ----- the equations -----

  // What flows along an edge: the branch constraint of that edge applied to the predecessor's out.
  ghost function EdgeTypes(p: Problem, e: Edge, outs: Flow): (r: Typesets)
    requires p.Valid() && IsFlow(p, outs) && e.from < |p.blocks|
    ensures |r| == p.n
  {
    match p.blocks[e.from].branch
    case None => outs[e.from]
    case Some((taken, fall)) => Applied(if e.fallthrough then fall else taken, outs[e.from])
  }

  ghost function JoinEdges(p: Problem, preds: seq<Edge>, outs: Flow, start: Typesets): (r: Typesets)
    requires p.Valid() && IsFlow(p, outs) && |start| == p.n
    requires forall e :: e in preds ==> e.from < |p.blocks|
    ensures |r| == p.n
  {
    if preds == [] then start
    else Join(JoinEdges(p, preds[..|preds|-1], outs, start), EdgeTypes(p, preds[|preds|-1], outs))
  }

  ghost function ApplyAll(gen: seq<Iconstraint>, ts: Typesets): (r: Typesets)
    requires forall ic :: ic in gen ==> WellFormed(ic, |ts|)
    ensures |r| == |ts|
  {
    if gen == [] then ts else Applied(gen[|gen|-1], ApplyAll(gen[..|gen|-1], ts))
  }

  // Types of dead variables are ignored by widening them to any.
  function Widen(p: Problem, b: Block, ts: Typesets): (r: Typesets)
    ensures |r| == |ts|
  {
    seq(|ts|, v requires 0 <= v < |ts| => if v in p.globals || v in b.liveOut then ts[v] else Any())
  }

  ghost function OutOf(p: Problem, b: nat, ts: Typesets): (r: Typesets)
    requires p.Valid() && b < |p.blocks| && |ts| == p.n
    ensures |r| == p.n
  {
    Widen(p, p.blocks[b], ApplyAll(p.blocks[b].gen, ts))
  }

  ghost function InOf(p: Problem, b: nat, outs: Flow): (r: Typesets)
    requires p.Valid() && b < |p.blocks| && IsFlow(p, outs)
    ensures |r| == p.n
  {
    JoinEdges(p, p.blocks[b].preds, outs, p.Start(b))
  }

  /** in(b) is the union over the edges into b, and out(b) is what the
      constraints of b make of in(b). */
  ghost predicate Solution(p: Problem, ins: Flow, outs: Flow)
    requires p.Valid()
  {
    && IsFlow(p, ins) && IsFlow(p, outs)
    && forall b :: 0 <= b < |p.blocks| ==> ins[b] == InOf(p, b, outs) && outs[b] == OutOf(p, b, ins[b])
  }

  // ----- what the equations say -----

  // Type t of v comes along the edge.
  ghost predicate Arrives(p: Problem, e: Edge, outs: Flow, v: Var, t: BaseType)
    requires p.Valid() && IsFlow(p, outs) && e.from < |p.blocks| && v < p.n
  {
    match p.blocks[e.from].branch
    case None => t in outs[e.from][v]
    case Some((taken, fall)) => t in Applied(if e.fallthrough then fall else taken, outs[e.from])[v]
  }

  /** A type is in a block's in-typeset exactly if the entry starts with it or it comes along
      some edge. */
  ghost predicate InsMeaning(p: Problem, ins: Flow, outs: Flow)
    requires p.Valid() && IsFlow(p, ins) && IsFlow(p, outs)
  {
    forall b :: 0 <= b < |p.blocks| ==> BlockEnters(p, b, outs, ins[b])
  }

  ghost predicate BlockEnters(p: Problem, b: nat, outs: Flow, before: Typesets)
    requires p.Valid() && b < |p.blocks| && IsFlow(p, outs)
  {
    && |before| == p.n
    && forall v, t :: 0 <= v < p.n ==>
         (t in before[v] <==> (b == p.entry && t in p.init[v])
                              || exists e :: e in p.blocks[b].preds && e.from < |p.blocks| && Arrives(p, e, outs, v, t))
  }

  // The typesets before each instruction of a block and after the last.
  ghost predicate Steps(gen: seq<Iconstraint>, mid: seq<Typesets>) {
    && |mid| == |gen| + 1
    && forall k :: 0 <= k < |gen| ==> WellFormed(gen[k], |mid[k]|) && mid[k + 1] == Applied(gen[k], mid[k])
  }

  /** A block's out-typesets are those after its last instruction, for what is live or global. */
  ghost predicate OutsMeaning(p: Problem, ins: Flow, outs: Flow)
    requires p.Valid() && IsFlow(p, ins) && IsFlow(p, outs)
  {
    forall b :: 0 <= b < |p.blocks| ==> BlockLeaves(p, p.blocks[b], ins[b], outs[b])
  }

  ghost predicate BlockLeaves(p: Problem, b: Block, before: Typesets, after: Typesets) {
    exists mid :: Steps(b.gen, mid) && mid[0] == before && |mid[|b.gen|]| == |after| == p.n
                  && forall v :: 0 <= v < p.n ==>
                       after[v] == if v in p.globals || v in b.liveOut then mid[|b.gen|][v] else Any()
  }

  lemma {:induction false} JoinMembers(p: Problem, preds: seq<Edge>, outs: Flow, start: Typesets, v: Var, t: BaseType)
    requires p.Valid() && IsFlow(p, outs) && |start| == p.n && v < p.n
    requires forall e :: e in preds ==> e.from < |p.blocks|
    ensures t in JoinEdges(p, preds, outs, start)[v] <==> t in start[v] || exists e :: e in preds && Arrives(p, e, outs, v, t)
  {
    if preds != [] {
      var front, last := preds[..|preds|-1], preds[|preds|-1];
      JoinMembers(p, front, outs, start, v, t);
      assert preds == front + [last];
      assert p.ValidBlock(p.blocks[last.from]);
      assert t in EdgeTypes(p, last, outs)[v] <==> Arrives(p, last, outs, v, t);
      if t in JoinEdges(p, front, outs, start)[v] && t !in start[v] {
        var e :| e in front && Arrives(p, e, outs, v, t);
        assert e in preds;
      }
    }
  }

  lemma {:induction false} ApplyAllSteps(gen: seq<Iconstraint>, ts: Typesets) returns (mid: seq<Typesets>)
    requires forall ic :: ic in gen ==> WellFormed(ic, |ts|)
    ensures Steps(gen, mid) && mid[0] == ts && mid[|gen|] == ApplyAll(gen, ts)
  {
    if gen == [] {
      mid := [ts];
    } else {
      var last := |gen| - 1;
      var front := ApplyAllSteps(gen[..last], ts);
      assert gen[last] in gen;
      mid := front + [ApplyAll(gen, ts)];
      forall k | 0 <= k < |gen| ensures WellFormed(gen[k], |mid[k]|) && mid[k + 1] == Applied(gen[k], mid[k]) {
        if k < last { assert gen[..last][k] == gen[k] && mid[k] == front[k]; }
      }
    }
  }

  /** What every solution of the equations is, spelled out. */
  lemma SolutionMeaning(p: Problem, ins: Flow, outs: Flow)
    requires p.Valid() && Solution(p, ins, outs)
    ensures InsMeaning(p, ins, outs) && OutsMeaning(p, ins, outs)
  {
    hide InOf, OutOf, BlockEnters, BlockLeaves;
    forall b | 0 <= b < |p.blocks| ensures BlockEnters(p, b, outs, ins[b]) && BlockLeaves(p, p.blocks[b], ins[b], outs[b]) {
      InMembers(p, b, outs);
      OutSteps(p, b, ins[b]);
    }
  }

  lemma InMembers(p: Problem, b: nat, outs: Flow)
    requires p.Valid() && b < |p.blocks| && IsFlow(p, outs)
    ensures BlockEnters(p, b, outs, InOf(p, b, outs))
  {
    assert p.ValidBlock(p.blocks[b]);
    forall v, t | 0 <= v < p.n
      ensures t in InOf(p, b, outs)[v] <==> (b == p.entry && t in p.init[v])
                                            || exists e :: e in p.blocks[b].preds && e.from < |p.blocks| && Arrives(p, e, outs, v, t)
    {
      JoinMembers(p, p.blocks[b].preds, outs, p.Start(b), v, t);
    }
  }

  lemma OutSteps(p: Problem, b: nat, ts: Typesets)
    requires p.Valid() && b < |p.blocks| && |ts| == p.n
    ensures BlockLeaves(p, p.blocks[b], ts, OutOf(p, b, ts))
  {
    assert p.ValidBlock(p.blocks[b]);
    var mid := ApplyAllSteps(p.blocks[b].gen, ts);
  }

  // ----- monotonicity -----

  lemma JoinMono(a: Typesets, a': Typesets, b: Typesets, b': Typesets)
    requires |a| == |b| && Leq(a, a') && Leq(b, b')
    ensures Leq(Join(a, b), Join(a', b'))
  {
  }

  lemma EdgeMono(p: Problem, e: Edge, f: Flow, g: Flow)
    requires p.Valid() && IsFlow(p, f) && IsFlow(p, g) && LeqFlow(f, g) && e.from < |p.blocks|
    ensures Leq(EdgeTypes(p, e, f), EdgeTypes(p, e, g))
  {
    match p.blocks[e.from].branch
    case None =>
    case Some((taken, fall)) => AppliedMono(if e.fallthrough then fall else taken, f[e.from], g[e.from]);
  }

  lemma {:induction false} JoinEdgesMono(p: Problem, preds: seq<Edge>, f: Flow, g: Flow, start: Typesets, start': Typesets)
    requires p.Valid() && IsFlow(p, f) && IsFlow(p, g) && LeqFlow(f, g)
    requires |start| == p.n && Leq(start, start')
    requires forall e :: e in preds ==> e.from < |p.blocks|
    ensures Leq(JoinEdges(p, preds, f, start), JoinEdges(p, preds, g, start'))
  {
    if preds != [] {
      var last := |preds| - 1;
      JoinEdgesMono(p, preds[..last], f, g, start, start');
      EdgeMono(p, preds[last], f, g);
      JoinMono(JoinEdges(p, preds[..last], f, start), JoinEdges(p, preds[..last], g, start'),
               EdgeTypes(p, preds[last], f), EdgeTypes(p, preds[last], g));
    }
  }

  lemma {:induction false} ApplyAllMono(gen: seq<Iconstraint>, a: Typesets, b: Typesets)
    requires Leq(a, b) && forall ic :: ic in gen ==> WellFormed(ic, |a|)
    ensures Leq(ApplyAll(gen, a), ApplyAll(gen, b))
  {
    if gen != [] {
      ApplyAllMono(gen[..|gen|-1], a, b);
      AppliedMono(gen[|gen|-1], ApplyAll(gen[..|gen|-1], a), ApplyAll(gen[..|gen|-1], b));
    }
  }

  lemma OutMono(p: Problem, b: nat, x: Typesets, y: Typesets)
    requires p.Valid() && b < |p.blocks| && |x| == p.n && Leq(x, y)
    ensures Leq(OutOf(p, b, x), OutOf(p, b, y))
  {
    assert p.ValidBlock(p.blocks[b]);
    ApplyAllMono(p.blocks[b].gen, x, y);
  }

  lemma JoinAbsorbs(a: Typesets, b: Typesets)
    requires Leq(a, b)
    ensures Join(a, b) == b
  {
    forall v | 0 <= v < |a| ensures Join(a, b)[v] == b[v] {}
  }

  lemma JoinSwaps(a: Typesets, b: Typesets, c: Typesets)
    requires |a| == |b| == |c|
    ensures Join(Join(a, b), c) == Join(Join(a, c), b)
  {
    forall v | 0 <= v < |a| ensures Join(Join(a, b), c)[v] == Join(Join(a, c), b)[v] {
      assert a[v] + b[v] + c[v] == a[v] + c[v] + b[v];
    }
  }

  // Joining the edges onto anything between the start and their join gives their join.
  lemma {:induction false} JoinEdgesAbsorbs(p: Problem, preds: seq<Edge>, outs: Flow, start: Typesets, x: Typesets)
    requires p.Valid() && IsFlow(p, outs) && |start| == p.n
    requires forall e :: e in preds ==> e.from < |p.blocks|
    requires Leq(start, x)
    ensures JoinEdges(p, preds, outs, x) == Join(JoinEdges(p, preds, outs, start), x)
  {
    if preds == [] {
      JoinAbsorbs(start, x);
    } else {
      var last := |preds| - 1;
      JoinEdgesAbsorbs(p, preds[..last], outs, start, x);
      var e := EdgeTypes(p, preds[last], outs);
      var j := JoinEdges(p, preds[..last], outs, start);
      JoinSwaps(j, x, e);
    }
  }

  // ----- the iteration -----

  // Values that already contain everything the equations put in.
  ghost predicate PreSolution(p: Problem, ins: Flow, outs: Flow)
    requires p.Valid()
  {
    && IsFlow(p, ins) && IsFlow(p, outs)
    && forall b :: 0 <= b < |p.blocks| ==> Leq(InOf(p, b, outs), ins[b]) && Leq(OutOf(p, b, ins[b]), outs[b])
  }

  // Nothing is in ins and outs that is not in every solution.
  ghost predicate BelowAll(p: Problem, ins: Flow, outs: Flow)
    requires p.Valid()
  {
    forall ins', outs' :: PreSolution(p, ins', outs') ==> LeqFlow(ins, ins') && LeqFlow(outs, outs')
  }

  // The state of the iteration: it only grows, and never beyond the equations.
  ghost predicate Growing(p: Problem, ins: Flow, outs: Flow)
    requires p.Valid()
  {
    && IsFlow(p, ins) && IsFlow(p, outs)
    && (forall b :: 0 <= b < |p.blocks| ==> Leq(p.Start(b), ins[b]) && Leq(ins[b], InOf(p, b, outs)))
    && (forall b :: 0 <= b < |p.blocks| ==> Leq(outs[b], OutOf(p, b, ins[b])))
    && BelowAll(p, ins, outs)
  }

  lemma StepBelowAll(p: Problem, ins: Flow, outs: Flow, n: nat)
    requires p.Valid() && Growing(p, ins, outs) && n < |p.blocks|
    ensures BelowAll(p, ins[n := InOf(p, n, outs)], outs[n := OutOf(p, n, InOf(p, n, outs))])
  {
    forall ins', outs' | PreSolution(p, ins', outs')
      ensures LeqFlow(ins[n := InOf(p, n, outs)], ins')
      ensures LeqFlow(outs[n := OutOf(p, n, InOf(p, n, outs))], outs')
    {
      assert p.ValidBlock(p.blocks[n]);
      JoinEdgesMono(p, p.blocks[n].preds, outs, outs', p.Start(n), p.Start(n));
      assert Leq(InOf(p, n, outs'), ins'[n]);
      assert Leq(InOf(p, n, outs), ins'[n]);
      OutMono(p, n, InOf(p, n, outs), ins'[n]);
      assert Leq(OutOf(p, n, ins'[n]), outs'[n]);
    }
  }

  lemma StepGrows(p: Problem, ins: Flow, outs: Flow, n: nat)
    requires p.Valid() && Growing(p, ins, outs) && n < |p.blocks|
    ensures Growing(p, ins[n := InOf(p, n, outs)], outs[n := OutOf(p, n, InOf(p, n, outs))])
    ensures LeqFlow(outs, outs[n := OutOf(p, n, InOf(p, n, outs))])
  {
    var newIn := InOf(p, n, outs);
    OutMono(p, n, ins[n], newIn);
    var newOut := OutOf(p, n, newIn);
    var ins', outs' := ins[n := newIn], outs[n := newOut];
    assert LeqFlow(outs, outs');
    forall b | 0 <= b < |p.blocks| ensures Leq(ins'[b], InOf(p, b, outs')) {
      assert p.ValidBlock(p.blocks[b]);
      JoinEdgesMono(p, p.blocks[b].preds, outs, outs', p.Start(b), p.Start(b));
      assert Leq(InOf(p, b, outs), InOf(p, b, outs'));
    }
    assert Leq(p.Start(n), ins[n]) && Leq(ins[n], newIn);
    StepBelowAll(p, ins, outs, n);
  }

  // How much the outs can still grow.
  ghost function Room(ts: Typesets): nat {
    if ts == [] then 0 else Room(ts[1..]) + |Any() - ts[0]|
  }

  ghost function RoomAll(outs: Flow): nat {
    if outs == [] then 0 else RoomAll(outs[1..]) + Room(outs[0])
  }

  lemma {:induction false} RoomShrinks(a: Typesets, b: Typesets)
    requires Leq(a, b)
    ensures Room(b) <= Room(a) && (a != b ==> Room(b) < Room(a))
  {
    if a != [] {
      RoomShrinks(a[1..], b[1..]);
      SubsetCard(Any() - b[0], Any() - a[0]);
      if a != b {
        if a[0] != b[0] {
          var t :| t in b[0] && t !in a[0];
          AnyHasAll(t);
          assert t in Any() - a[0] && t !in Any() - b[0];
        } else {
          assert a == [a[0]] + a[1..] && b == [b[0]] + b[1..];
        }
      }
    }
  }

  lemma {:induction false} RoomAllShrinks(f: Flow, g: Flow)
    requires LeqFlow(f, g)
    ensures RoomAll(g) <= RoomAll(f) && (f != g ==> RoomAll(g) < RoomAll(f))
  {
    if f != [] {
      assert Leq(f[0], g[0]) && LeqFlow(f[1..], g[1..]);
      hide Leq, LeqFlow, Room;
      RoomAllShrinks(f[1..], g[1..]);
      RoomShrinks(f[0], g[0]);
      if f != g && f[0] == g[0] {
        assert f == [f[0]] + f[1..] && g == [g[0]] + g[1..];
      }
    }
  }

  lemma LeqFlowAntisymmetric(f: Flow, g: Flow)
    requires LeqFlow(f, g) && LeqFlow(g, f)
    ensures f == g
  {
    forall b | 0 <= b < |f| ensures f[b] == g[b] {
      assert Leq(f[b], g[b]) && Leq(g[b], f[b]);
      assert forall v :: 0 <= v < |f[b]| ==> f[b][v] == g[b][v];
    }
  }

  // edge_flow_out_types: the types that reach a block along one edge.
  method EdgeFlowOutTypes(p: Problem, e: Edge, flowOut: array<Typesets>) returns (ts: Typesets)
    requires p.Valid() && IsFlow(p, flowOut[..]) && e.from < |p.blocks|
    ensures ts == EdgeTypes(p, e, flowOut[..])
  {
    assert p.ValidBlock(p.blocks[e.from]) && |flowOut[..][e.from]| == p.n;
    match p.blocks[e.from].branch
    case None => ts := flowOut[e.from];
    case Some((taken, fall)) =>
      ts := ApplyIconstraint(if e.fallthrough then fall else taken, flowOut[e.from]);
  }

  /** merge_block: updates in and out of one block, and returns whether out changed. */
  method MergeBlock(p: Problem, n: nat, flowIn: array<Typesets>, flowOut: array<Typesets>) returns (change: bool)
    requires p.Valid() && n < |p.blocks| && flowIn != flowOut && Growing(p, flowIn[..], flowOut[..])
    modifies flowIn, flowOut
    ensures flowIn[..] == old(flowIn[..])[n := InOf(p, n, old(flowOut[..]))]
    ensures flowOut[..] == old(flowOut[..])[n := OutOf(p, n, flowIn[..][n])]
    ensures Growing(p, flowIn[..], flowOut[..]) && LeqFlow(old(flowOut[..]), flowOut[..])
    ensures change <==> flowOut[..] != old(flowOut[..])
  {
    ghost var ins, outs := flowIn[..], flowOut[..];
    StepGrows(p, ins, outs, n);
    var block := p.blocks[n];
    assert p.ValidBlock(block);
    var newIn := flowIn[n];
    for i := 0 to |block.preds|
      invariant flowIn[..] == ins && flowOut[..] == outs && |newIn| == p.n
      invariant forall e :: e in block.preds[..i] ==> e.from < |p.blocks|
      invariant newIn == JoinEdges(p, block.preds[..i], outs, ins[n])
    {
      assert block.preds[i] in block.preds;
      assert block.preds[..i+1][..i] == block.preds[..i];
      var types := EdgeFlowOutTypes(p, block.preds[i], flowOut);
      newIn := Join(newIn, types);
    }
    assert block.preds[..|block.preds|] == block.preds;
    JoinEdgesAbsorbs(p, block.preds, outs, p.Start(n), ins[n]);
    JoinAbsorbs(ins[n], InOf(p, n, outs));
    JoinCommutes(InOf(p, n, outs), ins[n]);
    flowIn[n] := newIn;
    var newOut := newIn;
    for i := 0 to |block.gen|
      invariant flowIn[..] == ins[n := newIn] && flowOut[..] == outs && |newOut| == p.n
      invariant forall ic :: ic in block.gen[..i] ==> WellFormed(ic, p.n)
      invariant newOut == ApplyAll(block.gen[..i], newIn)
    {
      assert block.gen[i] in block.gen;
      assert block.gen[..i+1][..i] == block.gen[..i];
      newOut := ApplyIconstraint(block.gen[i], newOut);
    }
    assert block.gen[..|block.gen|] == block.gen;
    newOut := Widen(p, block, newOut);
    change := newOut != flowOut[n];
    if change {
      flowOut[n] := newOut;
    }
  }

  lemma JoinCommutes(a: Typesets, b: Typesets)
    requires |a| == |b|
    ensures Join(a, b) == Join(b, a)
  {
    forall v | 0 <= v < |a| ensures Join(a, b)[v] == Join(b, a)[v] {}
  }

  method Pass(p: Problem, flowIn: array<Typesets>, flowOut: array<Typesets>) returns (change: bool)
    requires p.Valid() && flowIn != flowOut && Growing(p, flowIn[..], flowOut[..])
    modifies flowIn, flowOut
    ensures Growing(p, flowIn[..], flowOut[..])
    ensures if change then RoomAll(flowOut[..]) < old(RoomAll(flowOut[..])) else Solution(p, flowIn[..], flowOut[..])
  {
    ghost var outs := flowOut[..];
    change := false;
    for b := 0 to |p.blocks|
      invariant Growing(p, flowIn[..], flowOut[..]) && LeqFlow(outs, flowOut[..])
      invariant change <==> flowOut[..] != outs
      invariant !change ==> forall c :: 0 <= c < b ==> flowIn[..][c] == InOf(p, c, outs) && outs[c] == OutOf(p, c, flowIn[..][c])
    {
      ghost var before := flowOut[..];
      var changed := MergeBlock(p, b, flowIn, flowOut);
      change := changed || change;
      if flowOut[..] == outs { LeqFlowAntisymmetric(outs, before); }
    }
    RoomAllShrinks(outs, flowOut[..]);
  }

  /** Iterating merge_block from empty typesets, with the entry block's in
      initialised, ends in the least solution of the flow equations. */
  method InferRun(p: Problem) returns (ins: Flow, outs: Flow)
    requires p.Valid()
    ensures Solution(p, ins, outs) && InsMeaning(p, ins, outs) && OutsMeaning(p, ins, outs)
    ensures forall ins', outs' :: Solution(p, ins', outs') ==> LeqFlow(ins, ins') && LeqFlow(outs, outs')
  {
    var k := |p.blocks|;
    var flowIn := new Typesets[k](b requires 0 <= b => p.Start(b));
    var flowOut := new Typesets[k](b => seq(p.n, _ => {}));
    InitialGrowing(p, flowIn[..], flowOut[..]);
    var change := true;
    while change
      invariant flowIn != flowOut && fresh(flowIn) && fresh(flowOut)
      invariant Growing(p, flowIn[..], flowOut[..])
      invariant !change ==> Solution(p, flowIn[..], flowOut[..])
      decreases change, RoomAll(flowOut[..])
    {
      change := Pass(p, flowIn, flowOut);
    }
    ins, outs := flowIn[..], flowOut[..];
    SolutionMeaning(p, ins, outs);
    forall ins', outs' | Solution(p, ins', outs') ensures LeqFlow(ins, ins') && LeqFlow(outs, outs') {
      assert PreSolution(p, ins', outs');
    }
  }

  lemma InitialGrowing(p: Problem, ins: Flow, outs: Flow)
    requires p.Valid() && |ins| == |outs| == |p.blocks|
    requires forall b :: 0 <= b < |ins| ==> ins[b] == p.Start(b) && outs[b] == seq(p.n, _ => {})
    ensures Growing(p, ins, outs)
  {
    forall b | 0 <= b < |ins| ensures Leq(ins[b], InOf(p, b, outs)) {
      StartBelow(p, p.blocks[b].preds, outs, p.Start(b));
    }
    forall ins', outs' | PreSolution(p, ins', outs') ensures LeqFlow(ins, ins') && LeqFlow(outs, outs') {
      forall b | 0 <= b < |ins| ensures Leq(ins[b], ins'[b]) {
        StartBelow(p, p.blocks[b].preds, outs', p.Start(b));
        assert Leq(InOf(p, b, outs'), ins'[b]);
      }
    }
  }

  lemma {:induction false} StartBelow(p: Problem, preds: seq<Edge>, outs: Flow, start: Typesets)
    requires p.Valid() && IsFlow(p, outs) && |start| == p.n
    requires forall e :: e in preds ==> e.from < |p.blocks|
    ensures Leq(start, JoinEdges(p, preds, outs, start))
  {
    if preds != [] {
      StartBelow(p, preds[..|preds|-1], outs, start);
    }
  }

  // ----- soundness for whole runs -----

  // One visit of a block: the values before each of its instructions and after the last.
  datatype Visit = Visit(block: nat, values: seq<Values>)

  ghost predicate ValidVisit(p: Problem, visit: Visit) {
    && visit.block < |p.blocks|
    && |visit.values| == |p.blocks[visit.block].gen| + 1
    && forall i :: 0 <= i < |p.blocks[visit.block].gen| ==>
                     Admits(p.blocks[visit.block].gen[i], visit.values[i], visit.values[i+1])
  }

  // Control follows an edge; the values satisfy the branch constraint of that edge and do not change.
  ghost predicate Follows(p: Problem, from: Visit, e: Edge, to: Visit)
    requires ValidVisit(p, from) && ValidVisit(p, to)
  {
    var st := from.values[|from.values|-1];
    && e in p.blocks[to.block].preds && e.from == from.block
    && to.values[0] == st
    && match p.blocks[e.from].branch
       case None => true
       case Some((taken, fall)) => Admits(if e.fallthrough then fall else taken, st, st)
  }

  ghost predicate Run(p: Problem, run: seq<Visit>, edges: seq<Edge>) {
    && |run| == |edges| + 1
    && (forall i :: 0 <= i < |run| ==> ValidVisit(p, run[i]))
    && (forall i :: 0 <= i < |edges| ==> Follows(p, run[i], edges[i], run[i+1]))
    && run[0].block == p.entry && InTypes(run[0].values[0], p.init)
  }

  lemma {:induction false} BlockSound(gen: seq<Iconstraint>, values: seq<Values>, ts: Typesets)
    requires |values| == |gen| + 1 && forall ic :: ic in gen ==> WellFormed(ic, |ts|)
    requires forall i :: 0 <= i < |gen| ==> Admits(gen[i], values[i], values[i+1])
    requires InTypes(values[0], ts)
    ensures InTypes(values[|gen|], ApplyAll(gen, ts))
  {
    if gen != [] {
      var last := |gen| - 1;
      BlockSound(gen[..last], values[..last+1], ts);
      AppliedSound(gen[last], values[last], values[last+1], ApplyAll(gen[..last], ts));
    }
  }

  lemma WidenSound(p: Problem, b: Block, ts: Typesets, st: Values)
    requires InTypes(st, ts)
    ensures InTypes(st, Widen(p, b, ts))
  {
    forall v | v in st && v < |ts| ensures st[v] in Widen(p, b, ts)[v] {
      AnyHasAll(st[v]);
    }
  }

  lemma {:induction false} EdgeReachesJoin(p: Problem, preds: seq<Edge>, outs: Flow, start: Typesets, e: Edge)
    requires p.Valid() && IsFlow(p, outs) && |start| == p.n && e in preds
    requires forall d :: d in preds ==> d.from < |p.blocks|
    ensures Leq(EdgeTypes(p, e, outs), JoinEdges(p, preds, outs, start))
  {
    if e != preds[|preds|-1] {
      EdgeReachesJoin(p, preds[..|preds|-1], outs, start, e);
    }
  }

  lemma VisitSound(p: Problem, ins: Flow, outs: Flow, visit: Visit)
    requires p.Valid() && Solution(p, ins, outs) && ValidVisit(p, visit) && InTypes(visit.values[0], ins[visit.block])
    ensures InTypes(visit.values[|visit.values|-1], outs[visit.block])
  {
    var b := p.blocks[visit.block];
    assert p.ValidBlock(b);
    BlockSound(b.gen, visit.values, ins[visit.block]);
    WidenSound(p, b, ApplyAll(b.gen, ins[visit.block]), visit.values[|visit.values|-1]);
  }

  lemma EdgeSound(p: Problem, ins: Flow, outs: Flow, from: Visit, e: Edge, to: Visit)
    requires p.Valid() && Solution(p, ins, outs) && ValidVisit(p, from) && ValidVisit(p, to) && Follows(p, from, e, to)
    requires InTypes(from.values[|from.values|-1], outs[from.block])
    ensures InTypes(to.values[0], ins[to.block])
  {
    var st := to.values[0];
    assert p.ValidBlock(p.blocks[to.block]) && p.ValidBlock(p.blocks[from.block]);
    match p.blocks[e.from].branch {
      case None =>
      case Some((taken, fall)) => AppliedSound(if e.fallthrough then fall else taken, st, st, outs[e.from]);
    }
    assert InTypes(st, EdgeTypes(p, e, outs));
    EdgeReachesJoin(p, p.blocks[to.block].preds, outs, p.Start(to.block), e);
  }

  /** In every run from the entry block, the values at each block entry have the
      inferred types of that block, and on leaving it those of its out. */
  lemma {:induction false} InferenceSound(p: Problem, ins: Flow, outs: Flow, run: seq<Visit>, edges: seq<Edge>, i: nat)
    requires p.Valid() && Solution(p, ins, outs) && Run(p, run, edges) && i < |run|
    ensures InTypes(run[i].values[0], ins[run[i].block])
    ensures InTypes(run[i].values[|run[i].values|-1], outs[run[i].block])
  {
    if i == 0 {
      StartBelow(p, p.blocks[p.entry].preds, outs, p.init);
    } else {
      InferenceSound(p, ins, outs, run, edges, i - 1);
      assert Follows(p, run[i-1], edges[i-1], run[i-1+1]);
      EdgeSound(p, ins, outs, run[i-1], edges[i-1], run[i]);
    }
    VisitSound(p, ins, outs, run[i]);
  }
}
