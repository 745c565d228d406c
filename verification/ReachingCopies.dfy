/** Reaching copies: which copies x := y are in effect on every way to a block
    (intersection_predecessors and mc:flow_copies in flow.mud). */
module ReachingCopies {
  import opened Prelude

  type Var = nat

  // The number of a copy statement.
  type Copy = nat

  /** What matters of an instruction: the variable it assigns, the variable it is a copy
      of with the number of the copy, and for a call that escapes the variables that
      closures may then assign. */
  datatype Instr = Instr(def: Option<Var>, copy: Option<(Copy, Var)>, ambiguous: set<Var>)

  datatype Block = Block(code: seq<Instr>, preds: seq<nat>)

  // The statements of all copies: destination and source.
  type Statements = seq<(Var, Var)>

  datatype Graph = Graph(blocks: seq<Block>, entry: nat, copies: Statements)

  ghost predicate ValidGraph(g: Graph) {
    && g.entry < |g.blocks|
    && (forall b :: 0 <= b < |g.blocks| ==> forall k :: 0 <= k < |g.blocks[b].preds| ==> g.blocks[b].preds[k] < |g.blocks|)
    && (forall b :: 0 <= b < |g.blocks| ==> ValidCode(g.blocks[b].code, g.copies))
  }

  ghost predicate ValidCode(code: seq<Instr>, copies: Statements) {
    forall k :: 0 <= k < |code| ==> ValidInstr(code[k], copies)
  }

  // A copy is numbered, assigns its destination from its source, and is no call.
  predicate ValidInstr(i: Instr, copies: Statements) {
    i.copy.Some? ==>
      i.copy.value.0 < |copies| && i.def.Some? && copies[i.copy.value.0] == (i.def.value, i.copy.value.1) && i.ambiguous == {}
  }

  function Numbers(copies: Statements): (s: set<Copy>)
    ensures forall c: Copy :: c in s <==> c < |copies|
  {
    if copies == [] then {} else Numbers(copies[..|copies|-1]) + {|copies| - 1}
  }

  // The instruction may change one of the copy's variables.
  predicate Disturbs(i: Instr, s: (Var, Var)) {
    i.def == Some(s.0) || i.def == Some(s.1) || s.0 in i.ambiguous || s.1 in i.ambiguous
  }

  // ----- one block -----

  // The copies in effect after some instructions, from those in effect before.
  function Scan(code: seq<Instr>, copies: Statements, before: set<Copy>): (after: set<Copy>)
    requires before <= Numbers(copies)
    ensures after <= Numbers(copies)
  {
    if code == [] then before
    else
      var i := code[|code|-1];
      var kept := set c | c in Scan(code[..|code|-1], copies, before) && !Disturbs(i, copies[c]);
      if i.copy.Some? && i.copy.value.0 < |copies| then kept + {i.copy.value.0} else kept
  }

  // Variables a block assigns, or lets be assigned.
  function Assigned(code: seq<Instr>): set<Var> {
    if code == [] then {}
    else
      var i := code[|code|-1];
      Assigned(code[..|code|-1]) + i.ambiguous + (if i.def.Some? then {i.def.value} else {})
  }

  function Gen(g: Graph, b: nat): (s: set<Copy>)
    requires b < |g.blocks|
    ensures s <= Numbers(g.copies)
  {
    Scan(g.blocks[b].code, g.copies, {})
  }

  // Copies of which the block assigns a variable, without those it generates.
  function Kill(g: Graph, b: nat): set<Copy>
    requires b < |g.blocks|
  {
    (set c | c in Numbers(g.copies) && (g.copies[c].0 in Assigned(g.blocks[b].code) || g.copies[c].1 in Assigned(g.blocks[b].code)))
    - Gen(g, b)
  }

  function Transfer(g: Graph, b: nat, before: set<Copy>): set<Copy>
    requires b < |g.blocks|
  {
    before - Kill(g, b) + Gen(g, b)
  }

  // Copy c is the last instruction of the code that has to do with its variables.
  ghost predicate LastWord(code: seq<Instr>, copies: Statements, c: Copy)
    requires c < |copies|
  {
    exists k :: 0 <= k < |code| && IsCopy(code[k], c) && Undisturbed(code, k + 1, copies[c])
  }

  predicate IsCopy(i: Instr, c: Copy) {
    i.copy.Some? && i.copy.value.0 == c
  }

  ghost predicate Undisturbed(code: seq<Instr>, from: nat, s: (Var, Var)) {
    forall k :: from <= k < |code| ==> !Disturbs(code[k], s)
  }

  /** Exactly the copies that nothing disturbs, since they were made or since the start. */
  lemma {:induction false} ScanMeaning(code: seq<Instr>, copies: Statements, before: set<Copy>, c: Copy)
    requires before <= Numbers(copies) && c < |copies| && ValidCode(code, copies)
    ensures c in Scan(code, copies, before) <==> LastWord(code, copies, c) || (c in before && Undisturbed(code, 0, copies[c]))
    decreases |code|
  {
    if code != [] {
      var last := |code| - 1;
      var front, i := code[..last], code[last];
      ScanMeaning(front, copies, before, c);
      if IsCopy(i, c) {
        assert LastWord(code, copies, c);
      } else if !Disturbs(i, copies[c]) {
        if LastWord(front, copies, c) {
          var k :| 0 <= k < |front| && IsCopy(front[k], c) && Undisturbed(front, k + 1, copies[c]);
          assert IsCopy(code[k], c) && Undisturbed(code, k + 1, copies[c]);
        }
        if LastWord(code, copies, c) {
          var k :| 0 <= k < |code| && IsCopy(code[k], c) && Undisturbed(code, k + 1, copies[c]);
          assert k < last && IsCopy(front[k], c) && Undisturbed(front, k + 1, copies[c]);
        }
        assert Undisturbed(code, 0, copies[c]) <==> Undisturbed(front, 0, copies[c]) by {
          assert forall k :: 0 <= k < last ==> front[k] == code[k];
        }
      }
    }
  }

  lemma {:induction false} AssignedMeaning(code: seq<Instr>, s: (Var, Var))
    ensures (s.0 !in Assigned(code) && s.1 !in Assigned(code)) <==> Undisturbed(code, 0, s)
  {
    if code != [] {
      var last := |code| - 1;
      AssignedMeaning(code[..last], s);
      assert forall k :: 0 <= k < last ==> code[..last][k] == code[k];
      assert Undisturbed(code, 0, s) <==> Undisturbed(code[..last], 0, s) && !Disturbs(code[last], s);
    }
  }

  /** Applying gen and kill is scanning the block. */
  lemma TransferIsScan(g: Graph, b: nat, before: set<Copy>)
    requires ValidGraph(g) && b < |g.blocks| && before <= Numbers(g.copies)
    ensures Transfer(g, b, before) == Scan(g.blocks[b].code, g.copies, before)
  {
    var code := g.blocks[b].code;
    forall c ensures c in Transfer(g, b, before) <==> c in Scan(code, g.copies, before) {
      if c in Numbers(g.copies) {
        ScanMeaning(code, g.copies, before, c);
        ScanMeaning(code, g.copies, {}, c);
        AssignedMeaning(code, g.copies[c]);
      }
    }
  }

  // ----- runs -----

  // The values of the variables.
  type Env<!V> = Var -> V

  // An instruction may give new values to the variables it assigns; a copy gives its
  // destination the value of its source.
  ghost predicate StepTo<V>(i: Instr, e: Env<V>, e': Env<V>) {
    && (forall v: Var :: i.def != Some(v) && v !in i.ambiguous ==> e'(v) == e(v))
    && (i.copy.Some? && i.def.Some? ==> e'(i.def.value) == e(i.copy.value.1))
  }

  ghost predicate RunsThrough<V>(code: seq<Instr>, envs: seq<Env<V>>) {
    |envs| == |code| + 1 && forall k :: 0 <= k < |code| ==> StepTo(code[k], envs[k], envs[k + 1])
  }

  // Destination and source are equal for all these copies.
  ghost predicate InEffect<V>(copies: Statements, s: set<Copy>, e: Env<V>) {
    forall c :: c in s && c < |copies| ==> e(copies[c].0) == e(copies[c].1)
  }

  lemma StepKeeps<V>(i: Instr, copies: Statements, s: set<Copy>, e: Env<V>, e': Env<V>)
    requires ValidInstr(i, copies) && StepTo(i, e, e') && InEffect(copies, s, e)
    ensures forall c :: c in s && c < |copies| && !Disturbs(i, copies[c]) ==> e'(copies[c].0) == e'(copies[c].1)
    ensures i.copy.Some? ==> InEffect(copies, {i.copy.value.0}, e')
  {
    if i.copy.Some? {
      var d, y := i.def.value, i.copy.value.1;
      assert e'(d) == e(y);
      assert y != d ==> e'(y) == e(y);
    }
  }

  /** The copies found by a scan are in effect wherever the code is run through. */
  lemma {:induction false} ScanSound<V>(code: seq<Instr>, copies: Statements, before: set<Copy>, envs: seq<Env<V>>)
    requires before <= Numbers(copies) && ValidCode(code, copies)
    requires RunsThrough(code, envs) && InEffect(copies, before, envs[0])
    ensures InEffect(copies, Scan(code, copies, before), envs[|code|])
    decreases |code|
  {
    if code != [] {
      var last := |code| - 1;
      ScanSound(code[..last], copies, before, envs[..|code|]);
      StepKeeps(code[last], copies, Scan(code[..last], copies, before), envs[last], envs[last + 1]);
    }
  }

  // Visits to blocks one after the other, from the entry, with the environments inside each.
  datatype Visit<!V> = Visit(block: nat, envs: seq<Env<V>>)

  ghost predicate IsRun<V>(g: Graph, run: seq<Visit<V>>)
    requires ValidGraph(g)
  {
    && run != [] && run[0].block == g.entry
    && (forall k :: 0 <= k < |run| ==> run[k].block < |g.blocks| && RunsThrough(g.blocks[run[k].block].code, run[k].envs))
    && (forall k :: 0 < k < |run| ==> run[k-1].block in g.blocks[run[k].block].preds
                                      && run[k].envs[0] == run[k-1].envs[|run[k-1].envs| - 1])
  }

  // ----- the equations -----

  ghost predicate Sized(g: Graph, ins: seq<set<Copy>>, outs: seq<set<Copy>>) {
    |ins| == |g.blocks| == |outs|
  }

  // in(entry) is empty; elsewhere it is the intersection over the predecessors.
  ghost predicate Meets(g: Graph, b: nat, ins: seq<set<Copy>>, outs: seq<set<Copy>>)
    requires ValidGraph(g) && b < |g.blocks| && Sized(g, ins, outs)
  {
    ins[b] == if b == g.entry then {} else OutOfAll(g, g.blocks[b].preds, outs, Numbers(g.copies))
  }

  function OutOfAll(g: Graph, preds: seq<nat>, outs: seq<set<Copy>>, all: set<Copy>): (s: set<Copy>)
    requires |outs| == |g.blocks| && forall k :: 0 <= k < |preds| ==> preds[k] < |g.blocks|
    ensures s <= all
    ensures forall c :: c in s <==> c in all && forall k :: 0 <= k < |preds| ==> c in outs[preds[k]]
  {
    if preds == [] then all else OutOfAll(g, preds[..|preds|-1], outs, all) * outs[preds[|preds|-1]]
  }

  ghost predicate Solves(g: Graph, ins: seq<set<Copy>>, outs: seq<set<Copy>>)
    requires ValidGraph(g)
  {
    && Sized(g, ins, outs)
    && (forall b :: 0 <= b < |g.blocks| ==> outs[b] == Transfer(g, b, ins[b]))
    && (forall b :: 0 <= b < |g.blocks| ==> Meets(g, b, ins, outs))
  }

  /** Whatever solution is used, a copy in a block's in-set is in effect each time a run
      arrives there. */
  lemma {:induction false} CopiesHold<V>(g: Graph, ins: seq<set<Copy>>, outs: seq<set<Copy>>, run: seq<Visit<V>>, k: nat)
    requires ValidGraph(g) && Solves(g, ins, outs) && IsRun(g, run) && k < |run|
    ensures run[k].block < |g.blocks| && InEffect(g.copies, ins[run[k].block], run[k].envs[0])
    decreases k
  {
    var b := run[k].block;
    assert Meets(g, b, ins, outs);
    if k > 0 && b != g.entry {
      CopiesHold(g, ins, outs, run, k - 1);
      var p := run[k-1].block;
      assert Meets(g, p, ins, outs);
      TransferIsScan(g, p, ins[p]);
      ScanSound(g.blocks[p].code, g.copies, ins[p], run[k-1].envs);
      assert ins[b] <= outs[p];
    }
  }

  // ----- all ways to a block -----

  // Blocks that follow each other and end with b.
  ghost predicate WayTo(g: Graph, way: seq<nat>, b: nat) {
    && way != [] && way[|way|-1] == b
    && (forall k :: 0 <= k < |way| ==> way[k] < |g.blocks|)
    && (forall k :: 0 < k < |way| ==> way[k-1] in g.blocks[way[k]].preds)
  }

  // The instructions on the way, up to the start of its last block.
  ghost function CodeAlong(g: Graph, way: seq<nat>): seq<Instr>
    requires forall k :: 0 <= k < |way| ==> way[k] < |g.blocks|
  {
    if |way| < 2 then [] else CodeAlong(g, way[..|way|-1]) + g.blocks[way[|way|-2]].code
  }

  // Copy c of y to x is made, and from then on neither of them is assigned or ambiguous.
  ghost predicate MadeAndKept(code: seq<Instr>, c: Copy, x: Var, y: Var) {
    exists k :: 0 <= k < |code| && code[k].copy.Some? && code[k].copy.value.0 == c
                && forall j {:trigger code[j]} :: k < j < |code| ==>
                     code[j].def != Some(x) && code[j].def != Some(y) && x !in code[j].ambiguous && y !in code[j].ambiguous
  }

  // Neither of them is assigned or ambiguous at all.
  ghost predicate LeftAlone(code: seq<Instr>, x: Var, y: Var) {
    forall j {:trigger code[j]} :: 0 <= j < |code| ==>
      code[j].def != Some(x) && code[j].def != Some(y) && x !in code[j].ambiguous && y !in code[j].ambiguous
  }

  /** On every way to b the copy is made and then kept; a way that does not start at the
      entry may also just leave it alone. */
  ghost predicate OnAllWays(g: Graph, b: nat, c: Copy) {
    && b != g.entry && c < |g.copies|
    && forall way :: WayTo(g, way, b) ==>
         var code, (x, y) := CodeAlong(g, way), g.copies[c];
         MadeAndKept(code, c, x, y) || (way[0] != g.entry && LeftAlone(code, x, y))
  }

  // All of it as scanning the way.
  ghost function Along(g: Graph, way: seq<nat>): (r: set<Copy>)
    requires way != [] && forall k :: 0 <= k < |way| ==> way[k] < |g.blocks|
    ensures r <= Numbers(g.copies)
  {
    Scan(CodeAlong(g, way), g.copies, if way[0] == g.entry then {} else Numbers(g.copies))
  }

  lemma {:induction false} CodeAlongValid(g: Graph, way: seq<nat>)
    requires ValidGraph(g) && forall k :: 0 <= k < |way| ==> way[k] < |g.blocks|
    ensures ValidCode(CodeAlong(g, way), g.copies)
  {
    if |way| >= 2 {
      CodeAlongValid(g, way[..|way|-1]);
      assert ValidCode(g.blocks[way[|way|-2]].code, g.copies);
    }
  }

  lemma AlongMeaning(g: Graph, way: seq<nat>, b: nat, c: Copy)
    requires ValidGraph(g) && WayTo(g, way, b) && c < |g.copies|
    ensures var code, (x, y) := CodeAlong(g, way), g.copies[c];
            c in Along(g, way) <==> MadeAndKept(code, c, x, y) || (way[0] != g.entry && LeftAlone(code, x, y))
  {
    var code := CodeAlong(g, way);
    CodeAlongValid(g, way);
    ScanMeaning(code, g.copies, if way[0] == g.entry then {} else Numbers(g.copies), c);
    WordsAgree(code, g.copies, c);
  }

  lemma WordsAgree(code: seq<Instr>, copies: Statements, c: Copy)
    requires c < |copies|
    ensures LastWord(code, copies, c) <==> MadeAndKept(code, c, copies[c].0, copies[c].1)
    ensures Undisturbed(code, 0, copies[c]) <==> LeftAlone(code, copies[c].0, copies[c].1)
  {
    if LastWord(code, copies, c) {
      var k :| 0 <= k < |code| && IsCopy(code[k], c) && Undisturbed(code, k + 1, copies[c]);
      assert code[k].copy.Some? && code[k].copy.value.0 == c;
    }
    if MadeAndKept(code, c, copies[c].0, copies[c].1) {
      var k :| 0 <= k < |code| && code[k].copy.Some? && code[k].copy.value.0 == c
               && forall j {:trigger code[j]} :: k < j < |code| ==>
                    code[j].def != Some(copies[c].0) && code[j].def != Some(copies[c].1)
                    && copies[c].0 !in code[j].ambiguous && copies[c].1 !in code[j].ambiguous;
      assert IsCopy(code[k], c) && Undisturbed(code, k + 1, copies[c]);
    }
  }

  lemma {:induction false} ScanConcat(a: seq<Instr>, b: seq<Instr>, copies: Statements, before: set<Copy>)
    requires before <= Numbers(copies)
    ensures Scan(a + b, copies, before) == Scan(b, copies, Scan(a, copies, before))
    decreases |b|
  {
    if b == [] {
      assert a + b == a;
    } else {
      var last := |b| - 1;
      assert (a + b)[..|a + b| - 1] == a + b[..last];
      ScanConcat(a, b[..last], copies, before);
    }
  }

  // One more block on the way.
  lemma AlongStep(g: Graph, way: seq<nat>, b: nat)
    requires ValidGraph(g) && way != [] && b < |g.blocks| && forall k :: 0 <= k < |way| ==> way[k] < |g.blocks|
    ensures Along(g, way + [b]) == Scan(g.blocks[way[|way|-1]].code, g.copies, Along(g, way))
  {
    var more := way + [b];
    assert more[..|more|-1] == way;
    ScanConcat(CodeAlong(g, way), g.blocks[way[|way|-1]].code, g.copies, if way[0] == g.entry then {} else Numbers(g.copies));
  }

  lemma ScanMonotone(code: seq<Instr>, copies: Statements, a: set<Copy>, b: set<Copy>, c: Copy)
    requires ValidCode(code, copies) && a <= Numbers(copies) && b <= Numbers(copies) && c < |copies| && (c in a ==> c in b)
    ensures c in Scan(code, copies, a) ==> c in Scan(code, copies, b)
  {
    ScanMeaning(code, copies, a, c);
    ScanMeaning(code, copies, b, c);
  }

  /** In any solution a copy in an in-set is in effect along every way there. */
  lemma {:induction false} InOnWay(g: Graph, ins: seq<set<Copy>>, outs: seq<set<Copy>>, way: seq<nat>, b: nat, c: Copy)
    requires ValidGraph(g) && Solves(g, ins, outs) && WayTo(g, way, b) && c in ins[b]
    ensures c in Along(g, way)
    decreases |way|
  {
    assert Meets(g, b, ins, outs);
    if |way| >= 2 {
      var front := way[..|way|-1];
      var p := front[|front|-1];
      assert way == front + [b] && WayTo(g, front, p);
      AlongStep(g, front, b);
      assert c in outs[p];
      hide Along, Scan, Transfer, CodeAlong;
      OutIsScan(g, ins, outs, p);
      if c in ins[p] { InOnWay(g, ins, outs, front, p, c); }
      hide WayTo;
      ScanMonotone(g.blocks[p].code, g.copies, ins[p], Along(g, front), c);
    }
  }

  lemma OutIsScan(g: Graph, ins: seq<set<Copy>>, outs: seq<set<Copy>>, p: nat)
    requires ValidGraph(g) && Solves(g, ins, outs) && p < |g.blocks|
    ensures ins[p] <= Numbers(g.copies) && outs[p] == Scan(g.blocks[p].code, g.copies, ins[p])
    ensures ValidCode(g.blocks[p].code, g.copies)
  {
    assert Meets(g, p, ins, outs);
    TransferIsScan(g, p, ins[p]);
  }

  // The copies in effect along every way to b.
  ghost function AllWays(g: Graph, b: nat): (r: set<Copy>)
    requires ValidGraph(g)
    ensures r <= Numbers(g.copies)
  {
    set c | c in Numbers(g.copies) && b != g.entry && forall way :: WayTo(g, way, b) ==> c in Along(g, way)
  }

  lemma WayOn(g: Graph, way: seq<nat>, p: nat, b: nat)
    requires ValidGraph(g) && b < |g.blocks| && p in g.blocks[b].preds && WayTo(g, way, p)
    ensures WayTo(g, way + [b], b)
  {
  }

  // What all predecessors let through is in effect along every way.
  lemma FromAllPreds(g: Graph, b: nat, c: Copy)
    requires ValidGraph(g) && b < |g.blocks| && b != g.entry && c < |g.copies|
    requires forall p :: p in g.blocks[b].preds ==> p < |g.blocks| && c in Scan(g.blocks[p].code, g.copies, AllWays(g, p))
    ensures c in AllWays(g, b)
  {
    forall way | WayTo(g, way, b) ensures c in Along(g, way) {
      if |way| >= 2 {
        var front := way[..|way|-1];
        var p := front[|front|-1];
        assert way == front + [b] && WayTo(g, front, p);
        assert p in g.blocks[b].preds;
        AlongStep(g, front, b);
        ScanMonotone(g.blocks[p].code, g.copies, AllWays(g, p), Along(g, front), c);
      }
    }
  }

  // And what is in effect along every way comes through each predecessor.
  lemma ThroughPred(g: Graph, b: nat, p: nat, c: Copy)
    requires ValidGraph(g) && b < |g.blocks| && p in g.blocks[b].preds && p < |g.blocks| && c in AllWays(g, b)
    ensures c in Scan(g.blocks[p].code, g.copies, AllWays(g, p))
  {
    var code := g.blocks[p].code;
    ScanMeaning(code, g.copies, AllWays(g, p), c);
    if !LastWord(code, g.copies, c) {
      forall way | WayTo(g, way, p) ensures c in Along(g, way) && Undisturbed(code, 0, g.copies[c]) {
        WayOn(g, way, p, b);
        AlongStep(g, way, b);
        ScanMeaning(code, g.copies, Along(g, way), c);
      }
      assert WayTo(g, [p], p);
      assert CodeAlong(g, [p]) == [] && c in Along(g, [p]);
    }
  }

  lemma AllWaysMeets(g: Graph, b: nat, ins: seq<set<Copy>>, outs: seq<set<Copy>>)
    requires ValidGraph(g) && b < |g.blocks| && Sized(g, ins, outs)
    requires forall p :: 0 <= p < |g.blocks| ==> ins[p] == AllWays(g, p) && outs[p] == Scan(g.blocks[p].code, g.copies, AllWays(g, p))
    ensures Meets(g, b, ins, outs)
  {
    if b != g.entry {
      var meet := OutOfAll(g, g.blocks[b].preds, outs, Numbers(g.copies));
      forall c ensures c in ins[b] <==> c in meet {
        if c in meet { FromAllPreds(g, b, c); }
        if c in ins[b] {
          forall k | 0 <= k < |g.blocks[b].preds| ensures c in outs[g.blocks[b].preds[k]] {
            ThroughPred(g, b, g.blocks[b].preds[k], c);
          }
        }
      }
    }
  }

  // They are a solution of the equations.
  lemma AllWaysSolve(g: Graph) returns (ins: seq<set<Copy>>, outs: seq<set<Copy>>)
    requires ValidGraph(g)
    ensures Solves(g, ins, outs) && forall b :: 0 <= b < |g.blocks| ==> ins[b] == AllWays(g, b)
  {
    ins := seq(|g.blocks|, b requires 0 <= b < |g.blocks| => AllWays(g, b));
    outs := seq(|g.blocks|, b requires 0 <= b < |g.blocks| => Scan(g.blocks[b].code, g.copies, AllWays(g, b)));
    forall b | 0 <= b < |g.blocks| ensures outs[b] == Transfer(g, b, ins[b]) { TransferIsScan(g, b, ins[b]); }
    forall b | 0 <= b < |g.blocks| ensures Meets(g, b, ins, outs) { AllWaysMeets(g, b, ins, outs); }
  }

  /** The greatest solution: a copy is in the in-set of a block if and only if it is made
      and kept on every way there. */
  lemma GreatestMeaning(g: Graph, ins: seq<set<Copy>>, outs: seq<set<Copy>>, b: nat, c: Copy)
    requires ValidGraph(g) && Solves(g, ins, outs) && b < |g.blocks|
    requires forall ins', outs' :: Solves(g, ins', outs') ==> Includes(ins, ins')
    ensures c in ins[b] <==> OnAllWays(g, b, c)
  {
    var ins', outs' := AllWaysSolve(g);
    assert Includes(ins, ins') && Meets(g, b, ins, outs);
    if c in ins[b] {
      InNumbers(g, ins, outs, b);
      forall way | WayTo(g, way, b) ensures c in Along(g, way) { InOnWay(g, ins, outs, way, b, c); }
    }
    if c < |g.copies| {
      forall way | WayTo(g, way, b)
        ensures var code, (x, y) := CodeAlong(g, way), g.copies[c];
                c in Along(g, way) <==> MadeAndKept(code, c, x, y) || (way[0] != g.entry && LeftAlone(code, x, y))
      {
        AlongMeaning(g, way, b, c);
      }
    }
  }

  ghost predicate Reachable(g: Graph, b: nat) {
    exists way :: WayTo(g, way, b) && way[0] == g.entry
  }

  lemma {:induction false} CodeAlongJoins(g: Graph, first: seq<nat>, way: seq<nat>)
    requires first != [] && way != [] && first[|first|-1] == way[0]
    requires (forall k :: 0 <= k < |first| ==> first[k] < |g.blocks|) && (forall k :: 0 <= k < |way| ==> way[k] < |g.blocks|)
    ensures CodeAlong(g, first + way[1..]) == CodeAlong(g, first) + CodeAlong(g, way)
    decreases |way|
  {
    var all := first + way[1..];
    if |way| == 1 {
      assert all == first;
    } else {
      var front := way[..|way|-1];
      CodeAlongJoins(g, first, front);
      assert front[1..] == way[1..][..|way|-2];
      assert all[..|all|-1] == first + front[1..];
      assert all[|all|-2] == way[|way|-2];
    }
  }

  /** When every block can be reached, only the ways from the entry count. */
  lemma WaysFromEntry(g: Graph, b: nat, c: Copy)
    requires ValidGraph(g) && b < |g.blocks| && c < |g.copies| && forall q :: 0 <= q < |g.blocks| ==> Reachable(g, q)
    ensures OnAllWays(g, b, c) <==>
            b != g.entry && forall way :: WayTo(g, way, b) && way[0] == g.entry ==>
              MadeAndKept(CodeAlong(g, way), c, g.copies[c].0, g.copies[c].1)
  {
    var (x, y) := g.copies[c];
    if b != g.entry && forall way :: WayTo(g, way, b) && way[0] == g.entry ==> MadeAndKept(CodeAlong(g, way), c, x, y) {
      forall way | WayTo(g, way, b)
        ensures MadeAndKept(CodeAlong(g, way), c, x, y) || (way[0] != g.entry && LeftAlone(CodeAlong(g, way), x, y))
      {
        assert Reachable(g, way[0]);
        var first :| WayTo(g, first, way[0]) && first[0] == g.entry;
        WaysJoin(g, first, way, b);
        CodeAlongJoins(g, first, way);
        KeptInRest(CodeAlong(g, first), CodeAlong(g, way), c, x, y);
      }
    }
  }

  lemma WaysJoin(g: Graph, first: seq<nat>, way: seq<nat>, b: nat)
    requires WayTo(g, way, b) && WayTo(g, first, way[0])
    ensures WayTo(g, first + way[1..], b) && (first + way[1..])[0] == first[0]
  {
    var all := first + way[1..];
    forall k | 0 < k < |all| ensures all[k-1] in g.blocks[all[k]].preds {
      if k >= |first| { assert all[k] == way[k - |first| + 1] && all[k-1] == way[k - |first|]; }
    }
  }

  lemma KeptInRest(a: seq<Instr>, b: seq<Instr>, c: Copy, x: Var, y: Var)
    requires MadeAndKept(a + b, c, x, y)
    ensures MadeAndKept(b, c, x, y) || LeftAlone(b, x, y)
  {
    var ab := a + b;
    var k :| 0 <= k < |ab| && ab[k].copy.Some? && ab[k].copy.value.0 == c
             && forall j {:trigger ab[j]} :: k < j < |ab| ==>
                  ab[j].def != Some(x) && ab[j].def != Some(y) && x !in ab[j].ambiguous && y !in ab[j].ambiguous;
    forall j | 0 <= j < |b| ensures b[j] == ab[|a| + j] {}
    if k >= |a| { assert b[k - |a|] == ab[k]; }
  }

  /** Otherwise blocks without a way from the entry count, too: behind one that assigns x,
      no copy of x is in effect. */
  lemma UnreachableBlocksCount(g: Graph)
    requires g == Graph([Block([], []), Block([Instr(Some(0), None, {})], []), Block([], [1])], 0, [(0, 1)])
    ensures ValidGraph(g) && !Reachable(g, 2) && !OnAllWays(g, 2, 0)
  {
    forall way | WayTo(g, way, 2) ensures way[0] != 0 {
      forall k | 0 < k < |way| ensures way[k] == 2 {
        assert way[k-1] in g.blocks[way[k]].preds;
      }
      forall k | 0 <= k < |way| - 1 ensures way[k] == 1 {
        assert way[k+1-1] in g.blocks[way[k+1]].preds;
      }
    }
    var code := CodeAlong(g, [1, 2]);
    assert [1, 2][..1] == [1] && code == [Instr(Some(0), None, {})];
    assert WayTo(g, [1, 2], 2) && code[0].def == Some(0);
  }

  lemma InNumbers(g: Graph, ins: seq<set<Copy>>, outs: seq<set<Copy>>, b: nat)
    requires ValidGraph(g) && Solves(g, ins, outs) && b < |g.blocks|
    ensures ins[b] <= Numbers(g.copies)
  {
    assert Meets(g, b, ins, outs);
  }

  // ----- the iteration -----

  function TotalSize(sets: seq<set<Copy>>): nat {
    if sets == [] then 0 else TotalSize(sets[..|sets|-1]) + |sets[|sets|-1]|
  }

  lemma {:induction false} Shrinks(sets: seq<set<Copy>>, b: nat, s: set<Copy>)
    requires b < |sets| && s < sets[b]
    ensures TotalSize(sets[b := s]) < TotalSize(sets)
  {
    var last := |sets| - 1;
    if b == last {
      assert sets[b := s][..last] == sets[..last];
      assert sets[b] == s + (sets[b] - s);
    } else {
      Shrinks(sets[..last], b, s);
      assert sets[b := s][..last] == sets[..last][b := s];
    }
  }

  /** The sets of all blocks, updated in place until a pass changes nothing. */
  class Problem {
    const g: Graph
    const ins: array<set<Copy>>
    const outs: array<set<Copy>>

    ghost predicate Valid()
      reads this, ins, outs
    {
      && ValidGraph(g) && ins != outs && ins.Length == |g.blocks| == outs.Length
      && Between(g, ins[..], outs[..])
    }

    // The start values.
    constructor (g: Graph)
      requires ValidGraph(g)
      ensures this.g == g && fresh(ins) && fresh(outs) && Valid()
    {
      this.g := g;
      var all := Numbers(g.copies);
      ins := new set<Copy>[|g.blocks|](b => if b == g.entry then {} else all);
      outs := new set<Copy>[|g.blocks|](b requires 0 <= b < |g.blocks| => if b == g.entry then Gen(g, b) else all - Kill(g, b));
      new;
      StartBetween(g, ins[..], outs[..]);
    }

    /** intersection_predecessors: one step for block n; whether its out-set changed. */
    method IntersectionPredecessors(n: nat) returns (changed: bool)
      requires Valid() && n < |g.blocks| && n != g.entry
      modifies ins, outs
      ensures Valid()
      ensures changed ==> TotalSize(outs[..]) < TotalSize(old(outs[..]))
      ensures !changed ==> outs[..] == old(outs[..])
      ensures forall b :: 0 <= b < |g.blocks| && b != n ==> ins[b] == old(ins[b])
      ensures BelowPreds(g, n, ins[n], old(outs[..]))
    {
      ghost var ins0, outs0 := ins[..], outs[..];
      var newIn := MeetPredecessors(n);
      var newOut := newIn - Kill(g, n) + Gen(g, n);
      changed := outs[n] != newOut;
      StepBetween(g, ins0, outs0, n, newIn);
      if changed { Shrinks(outs0, n, newOut); }
      ins[n], outs[n] := newIn, newOut;
      assert ins[..] == ins0[n := newIn] && outs[..] == outs0[n := newOut];
      assert !changed ==> outs[..] == outs0;
    }

    // What the block's in-set has in common with the out-sets of all predecessors.
    method MeetPredecessors(n: nat) returns (newIn: set<Copy>)
      requires ValidGraph(g) && n < |g.blocks| == ins.Length == outs.Length && ins[n] <= Numbers(g.copies)
      ensures newIn == ins[n] * OutOfAll(g, g.blocks[n].preds, outs[..], Numbers(g.copies))
    {
      var preds := g.blocks[n].preds;
      newIn := ins[n];
      var k := 0;
      while k < |preds|
        invariant 0 <= k <= |preds|
        invariant newIn == ins[n] * OutOfAll(g, preds[..k], outs[..], Numbers(g.copies))
      {
        assert preds[..k + 1][..k] == preds[..k];
        newIn := newIn * outs[preds[k]];
        k := k + 1;
      }
      assert preds[..k] == preds;
    }

    // One pass over all blocks.
    method Pass() returns (changed: bool)
      requires Valid()
      modifies ins, outs
      ensures Valid()
      ensures changed ==> TotalSize(outs[..]) < TotalSize(old(outs[..]))
      ensures !changed ==> forall b :: 0 <= b < |g.blocks| && b != g.entry ==> BelowPreds(g, b, ins[b], outs[..])
    {
      changed := false;
      var n := 0;
      while n < |g.blocks|
        invariant 0 <= n <= |g.blocks| && Valid()
        invariant changed ==> TotalSize(outs[..]) < TotalSize(old(outs[..]))
        invariant !changed ==> outs[..] == old(outs[..])
        invariant !changed ==> forall b :: 0 <= b < n && b != g.entry ==> BelowPreds(g, b, ins[b], outs[..])
      {
        if n != g.entry {
          var c := IntersectionPredecessors(n);
          changed := c || changed;
        }
        n := n + 1;
      }
    }

    /** mc:flow_copies: leaves a solution of the equations, and the greatest one. */
    method FlowCopies()
      requires Valid()
      modifies ins, outs
      ensures Valid() && Solves(g, ins[..], outs[..])
      ensures forall ins', outs' :: Solves(g, ins', outs') ==> Includes(ins[..], ins')
      ensures forall b, c :: 0 <= b < |g.blocks| ==> (c in ins[b] <==> OnAllWays(g, b, c))
    {
      var changed := true;
      while changed
        invariant Valid()
        invariant !changed ==> forall b :: 0 <= b < |g.blocks| && b != g.entry ==> BelowPreds(g, b, ins[b], outs[..])
        decreases changed, TotalSize(outs[..])
      {
        changed := Pass();
      }
      FinalSolves(g, ins[..], outs[..]);
      forall b, c | 0 <= b < |g.blocks| ensures c in ins[b] <==> OnAllWays(g, b, c) {
        GreatestMeaning(g, ins[..], outs[..], b, c);
      }
    }
  }

  ghost predicate Includes(a: seq<set<Copy>>, b: seq<set<Copy>>) {
    |a| == |b| && forall k :: 0 <= k < |b| ==> b[k] <= a[k]
  }

  // A set is within the out-sets of all predecessors.
  ghost predicate BelowPreds(g: Graph, b: nat, s: set<Copy>, outs: seq<set<Copy>>)
    requires ValidGraph(g) && b < |g.blocks| && |outs| == |g.blocks|
  {
    s <= OutOfAll(g, g.blocks[b].preds, outs, Numbers(g.copies))
  }

  /** During the iteration the sets are not below any solution, and not below what the
      predecessors now let through. */
  ghost predicate Between(g: Graph, ins: seq<set<Copy>>, outs: seq<set<Copy>>)
    requires ValidGraph(g)
  {
    && Sized(g, ins, outs) && ins[g.entry] == {}
    && (forall b :: 0 <= b < |g.blocks| ==> ins[b] <= Numbers(g.copies))
    && (forall b :: 0 <= b < |g.blocks| ==> outs[b] == Transfer(g, b, ins[b]))
    && (forall b :: 0 <= b < |g.blocks| && b != g.entry ==> OutOfAll(g, g.blocks[b].preds, outs, Numbers(g.copies)) <= ins[b])
    && (forall ins', outs' :: Solves(g, ins', outs') ==> Includes(ins, ins'))
  }

  lemma StartBetween(g: Graph, ins: seq<set<Copy>>, outs: seq<set<Copy>>)
    requires ValidGraph(g) && Sized(g, ins, outs)
    requires forall b :: 0 <= b < |g.blocks| ==> ins[b] == if b == g.entry then {} else Numbers(g.copies)
    requires forall b :: 0 <= b < |g.blocks| ==> outs[b] == if b == g.entry then Gen(g, b) else Numbers(g.copies) - Kill(g, b)
    ensures Between(g, ins, outs)
  {
    forall ins', outs' | Solves(g, ins', outs') ensures Includes(ins, ins') {
      forall b | 0 <= b < |g.blocks| ensures ins'[b] <= ins[b] {
        assert Meets(g, b, ins', outs');
      }
    }
  }

  lemma OutMonotone(g: Graph, preds: seq<nat>, a: seq<set<Copy>>, b: seq<set<Copy>>)
    requires |a| == |g.blocks| && Includes(a, b) && forall k :: 0 <= k < |preds| ==> preds[k] < |g.blocks|
    ensures OutOfAll(g, preds, b, Numbers(g.copies)) <= OutOfAll(g, preds, a, Numbers(g.copies))
  {
  }

  // Any solution stays below the sets after a step.
  lemma SolutionBelow(g: Graph, ins: seq<set<Copy>>, outs: seq<set<Copy>>, n: nat, newIn: set<Copy>, ins': seq<set<Copy>>, outs': seq<set<Copy>>)
    requires ValidGraph(g) && Between(g, ins, outs) && n < |g.blocks| && n != g.entry && Solves(g, ins', outs')
    requires newIn == ins[n] * OutOfAll(g, g.blocks[n].preds, outs, Numbers(g.copies))
    ensures Includes(ins[n := newIn], ins')
  {
    assert Includes(ins, ins');
    assert Includes(outs, outs') by {
      forall b | 0 <= b < |outs| ensures outs'[b] <= outs[b] {
        assert outs'[b] == Transfer(g, b, ins'[b]);
      }
    }
    OutMonotone(g, g.blocks[n].preds, outs, outs');
    assert Meets(g, n, ins', outs');
  }

  lemma StepBetween(g: Graph, ins: seq<set<Copy>>, outs: seq<set<Copy>>, n: nat, newIn: set<Copy>)
    requires ValidGraph(g) && Between(g, ins, outs) && n < |g.blocks| && n != g.entry
    requires newIn == ins[n] * OutOfAll(g, g.blocks[n].preds, outs, Numbers(g.copies))
    ensures var outs' := outs[n := Transfer(g, n, newIn)];
            Between(g, ins[n := newIn], outs') && outs'[n] <= outs[n] && newIn <= OutOfAll(g, g.blocks[n].preds, outs, Numbers(g.copies))
  {
    var ins1, outs1 := ins[n := newIn], outs[n := Transfer(g, n, newIn)];
    assert Includes(outs, outs1);
    forall b | 0 <= b < |g.blocks| && b != g.entry
      ensures OutOfAll(g, g.blocks[b].preds, outs1, Numbers(g.copies)) <= ins1[b]
    {
      OutMonotone(g, g.blocks[b].preds, outs, outs1);
    }
    forall ins', outs' | Solves(g, ins', outs') ensures Includes(ins1, ins') {
      SolutionBelow(g, ins, outs, n, newIn, ins', outs');
    }
  }

  lemma FinalSolves(g: Graph, ins: seq<set<Copy>>, outs: seq<set<Copy>>)
    requires ValidGraph(g) && Between(g, ins, outs)
    requires forall b :: 0 <= b < |g.blocks| && b != g.entry ==> BelowPreds(g, b, ins[b], outs)
    ensures Solves(g, ins, outs)
  {
    forall b | 0 <= b < |g.blocks| ensures Meets(g, b, ins, outs) {
      if b != g.entry { assert BelowPreds(g, b, ins[b], outs); }
    }
  }

  // ----- scanning a block, as the compiler does it -----

  // The copies in effect and the ambiguous variables seen: block_copies.
  method BlockCopies(code: seq<Instr>, copies: Statements) returns (live: set<Copy>, ambiguous: set<Var>)
    requires ValidCode(code, copies)
    ensures live == Scan(code, copies, {})
    ensures forall v :: v in ambiguous <==> exists k :: 0 <= k < |code| && v in code[k].ambiguous
  {
    live, ambiguous := {}, {};
    var k := 0;
    while k < |code|
      invariant 0 <= k <= |code| && live == Scan(code[..k], copies, {})
      invariant forall v :: v in ambiguous <==> exists j :: 0 <= j < k && v in code[j].ambiguous
    {
      var i := code[k];
      assert code[..k + 1][..k] == code[..k];
      assert ValidInstr(i, copies);
      if i.def.Some? {
        live := set c | c in live && copies[c].0 != i.def.value && copies[c].1 != i.def.value;
      }
      if i.ambiguous != {} {
        ambiguous := ambiguous + i.ambiguous;
        live := set c | c in live && copies[c].0 !in i.ambiguous && copies[c].1 !in i.ambiguous;
      }
      if i.copy.Some? {
        live := live + {i.copy.value.0};
      }
      k := k + 1;
    }
    assert code[..k] == code;
  }
}
