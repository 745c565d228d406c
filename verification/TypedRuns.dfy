/** Type inference for whole functions (init_infer and infer_run in inference.mud): from
    instructions, branches and reaching copies to constraints, and the soundness of the
    inferred types in every run. */
module TypedRuns {
  import opened Prelude
  import opened TypeInference
  import opened TypeTests
  import TF = TypeFlow
  import RC = ReachingCopies

  /** An instruction; if it is a copy, the number of the copy and its source; and the
      variables that flow_copies takes to be assigned by it if it escapes. */
  datatype Statement = Statement(ins: Instruction, copy: Option<(RC.Copy, Var)>, ambiguous: set<Var>)

  datatype CodeBlock = CodeBlock(code: seq<Statement>, test: Option<(Test, seq<Arg>)>, preds: seq<TF.Edge>, liveOut: set<Var>)

  /** What is known of a function: the variable of the argument count, the arguments, of
      which some are vectors of all further arguments, globals, closure variables, and all
      copy statements. */
  datatype Routine = Routine(n: nat, blocks: seq<CodeBlock>, entry: nat, count: Option<Var>, args: seq<(Var, bool)>,
                             globals: seq<Var>, closures: seq<Var>, copies: RC.Statements) {
    ghost predicate Valid() {
      && entry < |blocks|
      && (forall b :: 0 <= b < |blocks| ==> ValidBlock(blocks[b]))
      && (forall p :: p in copies ==> p.0 < n && p.1 < n)
      && (count.Some? ==> count.value < n)
      && (forall a :: a in args ==> a.0 < n)
      && (forall v :: v in globals ==> v < n) && (forall v :: v in closures ==> v < n)
    }

    ghost predicate ValidBlock(b: CodeBlock) {
      && (forall s :: s in b.code ==> ValidStatement(s))
      && (forall e :: e in b.preds ==> e.from < |blocks|)
      && (b.test.Some? ==> TestOk(b.test.value.0, b.test.value.1, n))
    }

    ghost predicate ValidStatement(s: Statement) {
      && s.ins.Valid(n)
      && (forall v :: v in s.ins.clobbers ==> v in s.ambiguous)
      && (s.copy.Some? ==>
            && s.copy.value.0 < |copies| && s.ins.dest.Some? && s.ambiguous == {}
            && copies[s.copy.value.0] == (s.ins.dest.value, s.copy.value.1))
    }

    // A variable that may have a value when the function starts.
    predicate EntryVar(v: Var) {
      v in globals || v in closures || count == Some(v) || exists a :: a in args && a.0 == v
    }
  }

  // ----- copies along a block -----

  predicate Assigns(i: Instruction, v: Var) {
    Some(v) == i.dest || v in i.clobbers
  }

  // The copies of which the instruction assigns neither side.
  function KeepCopies(i: Instruction, copies: seq<(Var, Var)>): (r: seq<(Var, Var)>)
    ensures forall p :: p in r <==> p in copies && !Assigns(i, p.0) && !Assigns(i, p.1)
  {
    if copies == [] then []
    else
      var rest := KeepCopies(i, copies[1..]);
      if Assigns(i, copies[0].0) || Assigns(i, copies[0].1) then rest else [copies[0]] + rest
  }

  function AfterStatement(s: Statement, copies: seq<(Var, Var)>): seq<(Var, Var)> {
    var kept := KeepCopies(s.ins, copies);
    if s.copy.Some? && s.ins.dest.Some? then [(s.ins.dest.value, s.copy.value.1)] + kept else kept
  }

  // The copies in effect before statement k of a block.
  function CopiesBefore(code: seq<Statement>, k: nat, start: seq<(Var, Var)>): seq<(Var, Var)>
    requires k <= |code|
  {
    if k == 0 then start else AfterStatement(code[k - 1], CopiesBefore(code, k - 1, start))
  }

  lemma {:induction false} CopiesKnown(f: Routine, code: seq<Statement>, k: nat, start: seq<(Var, Var)>)
    requires f.Valid() && k <= |code| && (forall s :: s in code ==> f.ValidStatement(s))
    requires forall p :: p in start ==> p.0 < f.n && p.1 < f.n
    ensures forall p :: p in CopiesBefore(code, k, start) ==> p.0 < f.n && p.1 < f.n
  {
    if k > 0 {
      CopiesKnown(f, code, k - 1, start);
      var s := code[k - 1];
      assert s in code && f.ValidStatement(s);
      if s.copy.Some? { assert f.copies[s.copy.value.0] in f.copies; }
    }
  }

  // ----- building the constraints -----

  ghost predicate GeneratedFor(s: Statement, copies: seq<(Var, Var)>, n: nat, ic: Iconstraint)
    requires s.ins.Valid(n)
  {
    && WellFormed(ic, n)
    && FromInstruction(ic.constraints, s.ins.sigs, s.ins.clobbers, s.ins.args, s.ins.dest)
    && forall p :: p in ic.copies <==> p in KeepCopies(s.ins, copies) && (p.0 in ic.vars || p.1 in ic.vars)
  }

  ghost predicate BlockGenerated(f: Routine, b: CodeBlock, start: seq<(Var, Var)>, tb: TF.Block)
    requires f.ValidBlock(b)
  {
    && tb.preds == b.preds && tb.liveOut == b.liveOut && |tb.gen| == |b.code|
    && (forall k :: 0 <= k < |b.code| ==> CodeGenerated(f, b, start, tb.gen, k))
    && (tb.branch.Some? <==> b.test.Some?)
    && (b.test.Some? ==>
          BranchGenerated(b.test.value.0, b.test.value.1, CopiesBefore(b.code, |b.code|, start), f.n, tb.branch.value))
  }

  ghost predicate CodeGenerated(f: Routine, b: CodeBlock, start: seq<(Var, Var)>, gen: seq<Iconstraint>, k: nat)
    requires f.ValidBlock(b) && k < |b.code| && k < |gen|
  {
    assert b.code[k] in b.code && f.ValidStatement(b.code[k]);
    GeneratedFor(b.code[k], CopiesBefore(b.code, k, start), f.n, gen[k])
  }

  // The constraints have the variables of all their parts in range.
  lemma GeneratedKnown(i: Instruction, n: nat, cl: seq<Constraint>)
    requires i.Valid(n) && FromInstruction(cl, i.sigs, i.clobbers, i.args, i.dest)
    ensures forall c :: c in cl ==> WellFormedConstraint(c, n)
  {
    forall c | c in cl ensures WellFormedConstraint(c, n) {
      if FromSig(c, i.sigs, i.args, i.dest) {
        var sig :| sig in i.sigs && IsInstance(c, sig, i.args, i.dest);
        InstanceKnown(c, sig, i, n);
      }
    }
  }

  lemma InstanceKnown(c: Constraint, sig: Sig, i: Instruction, n: nat)
    requires i.Valid(n) && sig in i.sigs && IsInstance(c, sig, i.args, i.dest)
    ensures WellFormedConstraint(c, n)
  {
    var m := |i.args|;
    forall cond | cond in c.conditions ensures KnownVars(cond, n) {
      var j :| 0 <= j < m && c.conditions[j] == cond;
      var k := m - 1 - j;
      assert c.conditions[m-1-k] == MakeCondition(sig.Param(k), i.args[k]);
    }
  }

  // generate_constraints, over a block.
  method GenerateBlock(f: Routine, b: CodeBlock, start: seq<(Var, Var)>) returns (tb: TF.Block)
    requires f.Valid() && f.ValidBlock(b) && forall p :: p in start ==> p.0 < f.n && p.1 < f.n
    ensures BlockGenerated(f, b, start, tb)
  {
    var gen, copies := [], start;
    for k := 0 to |b.code|
      invariant |gen| == k && copies == CopiesBefore(b.code, k, start)
      invariant forall j :: 0 <= j < k ==> CodeGenerated(f, b, start, gen, j)
    {
      var s := b.code[k];
      assert s in b.code && f.ValidStatement(s);
      CopiesKnown(f, b.code, k, start);
      var ic := GenerateStatement(f, s, copies);
      ghost var before := gen;
      gen := gen + [ic];
      forall j | 0 <= j < k ensures CodeGenerated(f, b, start, gen, j) {
        assert CodeGenerated(f, b, start, before, j);
      }
      copies := AfterStatement(s, copies);
    }
    CopiesKnown(f, b.code, |b.code|, start);
    var branch := None;
    if b.test.Some? {
      var edges := GenerateBranchConstraints(b.test.value.0, b.test.value.1, copies, f.n);
      branch := Some(edges);
    }
    tb := TF.Block(gen, branch, b.preds, b.liveOut);
  }

  method GenerateStatement(f: Routine, s: Statement, copies: seq<(Var, Var)>) returns (ic: Iconstraint)
    requires f.ValidStatement(s) && forall p :: p in copies ==> p.0 < f.n && p.1 < f.n
    ensures GeneratedFor(s, copies, f.n, ic)
  {
    var cl := GenerateConstraints(s.ins, f.n);
    GeneratedKnown(s.ins, f.n, cl);
    ic := BuildIconstraint(cl, KeepCopies(s.ins, copies), f.n);
  }

  // block_reset_copies: the statements of a block's set of copies.
  method ResetCopies(copies: RC.Statements, s: set<RC.Copy>) returns (list: seq<(Var, Var)>)
    ensures Lists(copies, s, list)
  {
    list := [];
    for i := 0 to |copies|
      invariant forall p :: p in list <==> exists c: nat :: c in s && c < i && copies[c] == p
    {
      if i in s {
        list := [copies[i]] + list;
      }
    }
  }

  ghost predicate Lists(copies: RC.Statements, s: set<RC.Copy>, list: seq<(Var, Var)>) {
    forall p :: p in list <==> exists c: nat :: c in s && c < |copies| && copies[c] == p
  }

  // ----- the entry block -----

  // What an argument's type is at the start: anything, or a vector.
  function ArgEntry(args: seq<(Var, bool)>, v: Var): Option<Itype> {
    if args == [] then None
    else
      var last := args[|args|-1];
      if last.0 == v then Some(if last.1 then {VectorType} else Any()) else ArgEntry(args[..|args|-1], v)
  }

  function EntryType(f: Routine, v: Var): Itype {
    if v in f.globals || v in f.closures then Any()
    else if ArgEntry(f.args, v).Some? then ArgEntry(f.args, v).value
    else if f.count == Some(v) then IntegerTypes()
    else {}
  }

  method InitTypes(f: Routine) returns (init: Typesets)
    requires f.Valid()
    ensures |init| == f.n && forall v :: 0 <= v < f.n ==> init[v] == EntryType(f, v)
  {
    init := seq(f.n, _ => {});
    if f.count.Some? {
      init := init[f.count.value := IntegerTypes()];
    }
    ghost var counted := init;
    for i := 0 to |f.args|
      invariant |init| == f.n
      invariant forall v :: 0 <= v < f.n ==>
                  init[v] == if ArgEntry(f.args[..i], v).Some? then ArgEntry(f.args[..i], v).value else counted[v]
    {
      var (v, vararg) := f.args[i];
      assert f.args[i] in f.args && f.args[..i + 1][..i] == f.args[..i];
      init := init[v := if vararg then {VectorType} else Any()];
    }
    assert f.args[..|f.args|] == f.args;
    init := SetAny(init, f.globals);
    init := SetAny(init, f.closures);
  }

  method SetAny(ts: Typesets, vars: seq<Var>) returns (r: Typesets)
    requires forall v :: v in vars ==> v < |ts|
    ensures |r| == |ts| && forall v :: 0 <= v < |ts| ==> r[v] == if v in vars then Any() else ts[v]
  {
    r := ts;
    for i := 0 to |vars|
      invariant |r| == |ts| && forall v :: 0 <= v < |ts| ==> r[v] == if v in vars[..i] then Any() else ts[v]
    {
      assert vars[i] in vars;
      r := r[vars[i] := Any()];
    }
    assert vars[..|vars|] == vars;
  }

  // What callers guarantee: the argument count is an integer, further arguments are in vectors.
  ghost predicate Called(f: Routine, e: State) {
    && (f.count.Some? && e(f.count.value).Some? ==> BaseOf(e(f.count.value).value) in IntegerTypes())
    && (forall v: Var :: (v, true) in f.args && e(v).Some? ==> BaseOf(e(v).value) == VectorType)
  }

  // Only arguments, the argument count, globals and closure variables have values.
  ghost predicate Fresh(f: Routine, e: State) {
    forall v: Var :: v < f.n && e(v).Some? ==> f.EntryVar(v)
  }

  lemma {:induction false} ArgEntryMeaning(args: seq<(Var, bool)>, v: Var)
    ensures ArgEntry(args, v).Some? <==> exists a :: a in args && a.0 == v
    ensures ArgEntry(args, v).Some? ==> (ArgEntry(args, v).value == {VectorType} && (v, true) in args) || ArgEntry(args, v).value == Any()
  {
    if args != [] {
      var front, last := args[..|args|-1], args[|args|-1];
      ArgEntryMeaning(front, v);
      assert args == front + [last];
      if last.0 == v {
        assert last in args;
      } else {
        forall a | a in args && a.0 == v ensures a in front {}
      }
    }
  }

  /** A function that is called as agreed starts within the types of init_infer if and only
      if none of its other variables has a value yet. */
  lemma StartExactly(f: Routine, e: State, init: Typesets)
    requires f.Valid() && Called(f, e) && |init| == f.n && forall v :: 0 <= v < f.n ==> init[v] == EntryType(f, v)
    ensures InTypes(TypesOf(e, f.n), init) <==> Fresh(f, e)
  {
    var st := TypesOf(e, f.n);
    forall v: Var | v < f.n && e(v).Some? ensures st[v] in init[v] <==> f.EntryVar(v) {
      ArgEntryMeaning(f.args, v);
      AnyHasAll(st[v]);
    }
    if InTypes(st, init) {
      forall v: Var | v < f.n && e(v).Some? ensures f.EntryVar(v) {
        assert v in st;
      }
    }
  }

  // The variables that may have values at the start are different ones.
  ghost predicate EntryDistinct(f: Routine) {
    && (forall i, j :: 0 <= i < j < |f.args| ==> f.args[i].0 != f.args[j].0)
    && (forall i :: 0 <= i < |f.args| ==> f.args[i].0 !in f.globals && f.args[i].0 !in f.closures && Some(f.args[i].0) != f.count)
    && (f.count.Some? ==> f.count.value !in f.globals && f.count.value !in f.closures)
  }

  /** The entry types are the least: each of them is that of some start state. */
  lemma EntryTypesOccur(f: Routine, v: Var, t: BaseType) returns (e: State)
    requires f.Valid() && EntryDistinct(f) && v < f.n && t in EntryType(f, v)
    ensures Called(f, e) && Fresh(f, e) && e(v).Some? && BaseOf(e(v).value) == t
  {
    e := (x: Var) => if x == v then Some(Sample(t, 0)) else None;
    ArgEntryMeaning(f.args, v);
    if (v, true) in f.args {
      var i :| 0 <= i < |f.args| && f.args[i] == (v, true);
      assert ArgEntry(f.args, v).Some?;
      forall a | a in f.args && a.0 == v ensures a == (v, true) {
        var j :| 0 <= j < |f.args| && f.args[j] == a;
      }
      ArgEntryIsVector(f.args, v);
    }
  }

  lemma {:induction false} ArgEntryIsVector(args: seq<(Var, bool)>, v: Var)
    requires (forall a :: a in args && a.0 == v ==> a.1) && ArgEntry(args, v).Some?
    ensures ArgEntry(args, v).value == {VectorType}
  {
    var front, last := args[..|args|-1], args[|args|-1];
    assert last in args;
    if last.0 != v {
      forall a | a in front ensures a in args {}
      ArgEntryIsVector(front, v);
    }
  }

  // ----- the data-flow problems of a function -----

  // What flow_copies sees of a statement.
  function CopyInstr(s: Statement): RC.Instr {
    RC.Instr(s.ins.dest, s.copy, s.ambiguous)
  }

  function CopyCode(code: seq<Statement>): (r: seq<RC.Instr>)
    ensures |r| == |code| && forall k :: 0 <= k < |r| ==> r[k] == CopyInstr(code[k])
  {
    seq(|code|, k requires 0 <= k < |code| => CopyInstr(code[k]))
  }

  function Sources(preds: seq<TF.Edge>): (r: seq<nat>)
    ensures |r| == |preds| && forall k :: 0 <= k < |r| ==> r[k] == preds[k].from
  {
    seq(|preds|, k requires 0 <= k < |preds| => preds[k].from)
  }

  function CopyGraph(f: Routine): (g: RC.Graph)
    ensures |g.blocks| == |f.blocks| && g.entry == f.entry && g.copies == f.copies
    ensures forall b :: 0 <= b < |f.blocks| ==>
              g.blocks[b] == RC.Block(CopyCode(f.blocks[b].code), Sources(f.blocks[b].preds))
  {
    RC.Graph(seq(|f.blocks|, b requires 0 <= b < |f.blocks| => RC.Block(CopyCode(f.blocks[b].code), Sources(f.blocks[b].preds))),
             f.entry, f.copies)
  }

  lemma CopyGraphValid(f: Routine)
    requires f.Valid()
    ensures RC.ValidGraph(CopyGraph(f))
  {
    var g := CopyGraph(f);
    forall b | 0 <= b < |g.blocks| ensures RC.ValidCode(g.blocks[b].code, g.copies) {
      assert f.ValidBlock(f.blocks[b]);
      forall k | 0 <= k < |g.blocks[b].code| ensures RC.ValidInstr(g.blocks[b].code[k], g.copies) {
        assert f.blocks[b].code[k] in f.blocks[b].code;
      }
    }
    forall b | 0 <= b < |g.blocks| ensures forall k :: 0 <= k < |g.blocks[b].preds| ==> g.blocks[b].preds[k] < |g.blocks| {
      assert f.ValidBlock(f.blocks[b]);
    }
  }

  // The type problem of a function, given its reaching copies.
  ghost predicate Built(f: Routine, cins: seq<set<RC.Copy>>, p: TF.Problem)
    requires f.Valid()
  {
    && p.n == f.n && p.entry == f.entry && p.globals == (set v | v in f.globals) && |p.blocks| == |f.blocks| == |cins|
    && |p.init| == f.n && (forall v :: 0 <= v < f.n ==> p.init[v] == EntryType(f, v))
    && (forall b :: 0 <= b < |f.blocks| ==> BlockBuilt(f, cins, p, b))
  }

  ghost predicate BlockBuilt(f: Routine, cins: seq<set<RC.Copy>>, p: TF.Problem, b: nat)
    requires f.Valid() && b < |f.blocks| == |cins| == |p.blocks|
  {
    exists start :: Lists(f.copies, cins[b], start) && BlockGenerated(f, f.blocks[b], start, p.blocks[b])
  }

  lemma BuiltValid(f: Routine, cins: seq<set<RC.Copy>>, p: TF.Problem)
    requires f.Valid() && Built(f, cins, p)
    ensures p.Valid()
  {
    forall b | 0 <= b < |p.blocks| ensures p.ValidBlock(p.blocks[b]) {
      assert BlockBuilt(f, cins, p, b) && f.ValidBlock(f.blocks[b]);
      var start :| Lists(f.copies, cins[b], start) && BlockGenerated(f, f.blocks[b], start, p.blocks[b]);
      forall ic | ic in p.blocks[b].gen ensures WellFormed(ic, p.n) {
        var k :| 0 <= k < |p.blocks[b].gen| && p.blocks[b].gen[k] == ic;
        assert CodeGenerated(f, f.blocks[b], start, p.blocks[b].gen, k);
      }
    }
  }

  // init_infer, after flow_copies.
  method BuildProblem(f: Routine, cins: seq<set<RC.Copy>>) returns (p: TF.Problem)
    requires f.Valid() && |cins| == |f.blocks|
    ensures Built(f, cins, p)
  {
    var init := InitTypes(f);
    var blocks: seq<TF.Block> := [];
    ghost var starts: seq<seq<(Var, Var)>> := [];
    for b := 0 to |f.blocks|
      invariant |blocks| == |starts| == b
      invariant forall c :: 0 <= c < b ==> Lists(f.copies, cins[c], starts[c]) && BlockGenerated(f, f.blocks[c], starts[c], blocks[c])
    {
      assert f.ValidBlock(f.blocks[b]);
      var start := ResetCopies(f.copies, cins[b]);
      var tb := GenerateBlock(f, f.blocks[b], start);
      hide Lists, BlockGenerated;
      blocks, starts := blocks + [tb], starts + [start];
    }
    p := TF.Problem(f.n, blocks, f.entry, init, set v | v in f.globals);
    forall b | 0 <= b < |f.blocks| ensures BlockBuilt(f, cins, p, b) {
      assert Lists(f.copies, cins[b], starts[b]);
    }
  }

  // ----- runs -----

  type Visit = RC.Visit<Option<Value>>

  /** The statement works on one of its signatures, changes only its destination and what
      closures may assign, and if it is a copy makes both sides the same value. */
  ghost predicate StatementStep(s: Statement, n: nat, e: State, e': State)
    requires s.ins.Valid(n)
  {
    && Performs(s.ins, n, TypesOf(e, n), TypesOf(e', n))
    && (forall v: Var :: !Assigns(s.ins, v) ==> e'(v) == e(v))
    && (s.copy.Some? && s.ins.dest.Some? ==> e'(s.ins.dest.value) == e(s.copy.value.1))
  }

  ghost predicate RunsBlock(f: Routine, visit: Visit)
    requires f.Valid()
  {
    && visit.block < |f.blocks| && |visit.envs| == |f.blocks[visit.block].code| + 1
    && forall k :: 0 <= k < |f.blocks[visit.block].code| ==> StepAt(f, visit, k)
  }

  ghost predicate StepAt(f: Routine, visit: Visit, k: nat)
    requires f.Valid() && visit.block < |f.blocks| && k < |f.blocks[visit.block].code| == |visit.envs| - 1
  {
    assert f.ValidBlock(f.blocks[visit.block]) && f.blocks[visit.block].code[k] in f.blocks[visit.block].code;
    StatementStep(f.blocks[visit.block].code[k], f.n, visit.envs[k], visit.envs[k + 1])
  }

  // At a branch, the edge is the one the outcome of the test selects.
  ghost predicate Selects(b: CodeBlock, e: TF.Edge, st: State)
    requires b.test.Some? ==> |b.test.value.1| == Arity(b.test.value.0)
  {
    b.test.Some? ==>
      var (test, args) := b.test.value;
      exists vals, yes :: ArgsAre(args, st, vals) && Outcome(test, vals, yes) && e.fallthrough == (yes == test.negated)
  }

  ghost predicate Follows(f: Routine, from: Visit, e: TF.Edge, to: Visit)
    requires f.Valid() && RunsBlock(f, from) && RunsBlock(f, to)
  {
    && e in f.blocks[to.block].preds && e.from == from.block
    && to.envs[0] == from.envs[|from.envs| - 1]
    && (assert f.ValidBlock(f.blocks[from.block]); Selects(f.blocks[from.block], e, to.envs[0]))
  }

  ghost predicate IsRun(f: Routine, run: seq<Visit>, edges: seq<TF.Edge>)
    requires f.Valid()
  {
    && |run| == |edges| + 1
    && (forall i :: 0 <= i < |run| ==> RunsBlock(f, run[i]))
    && (forall i :: 0 <= i < |edges| ==> Follows(f, run[i], edges[i], run[i + 1]))
    && run[0].block == f.entry && Called(f, run[0].envs[0]) && Fresh(f, run[0].envs[0])
  }

  // The copies of a list are in effect.
  ghost predicate AllHold(copies: seq<(Var, Var)>, e: State) {
    forall p :: p in copies ==> e(p.0) == e(p.1)
  }

  lemma HoldsInTypes(copies: seq<(Var, Var)>, e: State, n: nat)
    requires AllHold(copies, e) && forall p :: p in copies ==> p.0 < n && p.1 < n
    ensures forall p :: p in copies ==> CopyHolds(p, TypesOf(e, n))
  {
  }

  lemma StatementKeepsCopies(s: Statement, n: nat, e: State, e': State, copies: seq<(Var, Var)>)
    requires s.ins.Valid(n) && StatementStep(s, n, e, e') && AllHold(copies, e)
    requires s.copy.Some? ==> forall v :: v !in s.ins.clobbers
    ensures AllHold(KeepCopies(s.ins, copies), e') && AllHold(AfterStatement(s, copies), e')
  {
    if s.copy.Some? && s.ins.dest.Some? {
      var d, y := s.ins.dest.value, s.copy.value.1;
      assert y != d ==> e'(y) == e(y);
    }
  }

  lemma {:induction false} CopiesHoldAlong(f: Routine, visit: Visit, start: seq<(Var, Var)>, k: nat)
    requires f.Valid() && RunsBlock(f, visit) && k < |visit.envs| && AllHold(start, visit.envs[0])
    ensures AllHold(CopiesBefore(f.blocks[visit.block].code, k, start), visit.envs[k])
  {
    if k > 0 {
      var code := f.blocks[visit.block].code;
      CopiesHoldAlong(f, visit, start, k - 1);
      assert StepAt(f, visit, k - 1);
      assert f.ValidBlock(f.blocks[visit.block]) && code[k - 1] in code && f.ValidStatement(code[k - 1]);
      NoClobbers(code[k - 1], f);
      hide StatementStep, AllHold, AfterStatement;
      StatementKeepsCopies(code[k - 1], f.n, visit.envs[k - 1], visit.envs[k], CopiesBefore(code, k - 1, start));
    }
  }

  lemma NoClobbers(s: Statement, f: Routine)
    requires f.ValidStatement(s)
    ensures s.copy.Some? ==> forall v :: v !in s.ins.clobbers
  {
  }

  // ----- as runs of the two data-flow problems -----

  lemma VisitRunsThrough(f: Routine, visit: Visit)
    requires f.Valid() && RunsBlock(f, visit)
    ensures RC.RunsThrough(CopyCode(f.blocks[visit.block].code), visit.envs)
  {
    var code := f.blocks[visit.block].code;
    forall k | 0 <= k < |code| ensures RC.StepTo(CopyCode(code)[k], visit.envs[k], visit.envs[k + 1]) {
      assert StepAt(f, visit, k);
      assert f.ValidBlock(f.blocks[visit.block]) && code[k] in code && f.ValidStatement(code[k]);
    }
  }

  lemma RunIsCopyRun(f: Routine, run: seq<Visit>, edges: seq<TF.Edge>)
    requires f.Valid() && IsRun(f, run, edges) && RC.ValidGraph(CopyGraph(f))
    ensures RC.IsRun(CopyGraph(f), run)
  {
    var g := CopyGraph(f);
    forall k | 0 <= k < |run| ensures run[k].block < |g.blocks| && RC.RunsThrough(g.blocks[run[k].block].code, run[k].envs) {
      VisitRunsThrough(f, run[k]);
    }
    forall k | 0 < k < |run|
      ensures run[k-1].block in g.blocks[run[k].block].preds && run[k].envs[0] == run[k-1].envs[|run[k-1].envs| - 1]
    {
      assert Follows(f, run[k-1], edges[k-1], run[k-1+1]);
      var preds := f.blocks[run[k].block].preds;
      var j :| 0 <= j < |preds| && preds[j] == edges[k-1];
      assert Sources(preds)[j] == run[k-1].block;
    }
  }

  // The base types along a visit.
  ghost function TypeVisit(f: Routine, visit: Visit): (r: TF.Visit)
    ensures r.block == visit.block && |r.values| == |visit.envs|
    ensures forall k :: 0 <= k < |r.values| ==> r.values[k] == TypesOf(visit.envs[k], f.n)
  {
    TF.Visit(visit.block, seq(|visit.envs|, k requires 0 <= k < |visit.envs| => TypesOf(visit.envs[k], f.n)))
  }

  // A visit is told what it starts from: a list of copies that are in effect.
  ghost predicate StartsFrom(f: Routine, p: TF.Problem, visit: Visit, start: seq<(Var, Var)>)
    requires f.Valid() && RunsBlock(f, visit) && |p.blocks| == |f.blocks|
  {
    && AllHold(start, visit.envs[0]) && (forall q :: q in start ==> q.0 < f.n && q.1 < f.n)
    && (assert f.ValidBlock(f.blocks[visit.block]); BlockGenerated(f, f.blocks[visit.block], start, p.blocks[visit.block]))
  }

  lemma StatementAdmitted(f: Routine, p: TF.Problem, visit: Visit, start: seq<(Var, Var)>, k: nat)
    requires f.Valid() && p.n == f.n && |p.blocks| == |f.blocks| && RunsBlock(f, visit) && StartsFrom(f, p, visit, start)
    requires k < |f.blocks[visit.block].code|
    ensures |p.blocks[visit.block].gen| == |f.blocks[visit.block].code|
    ensures Admits(p.blocks[visit.block].gen[k], TypesOf(visit.envs[k], f.n), TypesOf(visit.envs[k + 1], f.n))
  {
    var b := f.blocks[visit.block];
    var s, ic := b.code[k], p.blocks[visit.block].gen[k];
    var copies := CopiesBefore(b.code, k, start);
    assert f.ValidBlock(b) && s in b.code && f.ValidStatement(s);
    assert StepAt(f, visit, k) && CodeGenerated(f, b, start, p.blocks[visit.block].gen, k);
    CopiesHoldAlong(f, visit, start, k);
    NoClobbers(s, f);
    StatementKeepsCopies(s, f.n, visit.envs[k], visit.envs[k + 1], copies);
    CopiesKnown(f, b.code, k, start);
    HoldsInTypes(KeepCopies(s.ins, copies), visit.envs[k + 1], f.n);
    PerformedIsAdmitted(s.ins, f.n, ic, TypesOf(visit.envs[k], f.n), TypesOf(visit.envs[k + 1], f.n));
  }

  lemma VisitIsValid(f: Routine, p: TF.Problem, visit: Visit, start: seq<(Var, Var)>)
    requires f.Valid() && p.n == f.n && |p.blocks| == |f.blocks| && RunsBlock(f, visit) && StartsFrom(f, p, visit, start)
    ensures TF.ValidVisit(p, TypeVisit(f, visit))
  {
    forall k | 0 <= k < |p.blocks[visit.block].gen|
      ensures Admits(p.blocks[visit.block].gen[k], TypesOf(visit.envs[k], f.n), TypesOf(visit.envs[k + 1], f.n))
    {
      StatementAdmitted(f, p, visit, start, k);
    }
  }

  // The edge's constraint admits the step to the next block.
  lemma EdgeAdmitted(f: Routine, p: TF.Problem, from: Visit, e: TF.Edge, to: Visit, start: seq<(Var, Var)>)
    requires f.Valid() && p.n == f.n && |p.blocks| == |f.blocks| && RunsBlock(f, from) && RunsBlock(f, to)
    requires StartsFrom(f, p, from, start) && Follows(f, from, e, to)
    ensures p.blocks[from.block].branch.Some? ==>
              var st, edges := TypesOf(to.envs[0], f.n), p.blocks[from.block].branch.value;
              Admits(if e.fallthrough then edges.1 else edges.0, st, st)
  {
    var b := f.blocks[from.block];
    assert f.ValidBlock(b);
    if b.test.Some? {
      var (test, args) := b.test.value;
      var copies := CopiesBefore(b.code, |b.code|, start);
      CopiesHoldAlong(f, from, start, |b.code|);
      CopiesKnown(f, b.code, |b.code|, start);
      HoldsInTypes(copies, to.envs[0], f.n);
      var vals, yes :| ArgsAre(args, to.envs[0], vals) && Outcome(test, vals, yes) && e.fallthrough == (yes == test.negated);
      BranchIsAdmitted(test, args, copies, f.n, p.blocks[from.block].branch.value, to.envs[0], vals, yes);
    }
  }

  // Every visit of a run starts from copies that are in effect.
  lemma StartsFromCopies(f: Routine, cins: seq<set<RC.Copy>>, couts: seq<set<RC.Copy>>, p: TF.Problem,
                         run: seq<Visit>, edges: seq<TF.Edge>, i: nat) returns (start: seq<(Var, Var)>)
    requires f.Valid() && RC.ValidGraph(CopyGraph(f)) && RC.Solves(CopyGraph(f), cins, couts) && Built(f, cins, p)
    requires IsRun(f, run, edges) && i < |run|
    ensures StartsFrom(f, p, run[i], start)
  {
    var b := run[i].block;
    RunIsCopyRun(f, run, edges);
    RC.CopiesHold(CopyGraph(f), cins, couts, run, i);
    assert BlockBuilt(f, cins, p, b);
    start :| Lists(f.copies, cins[b], start) && BlockGenerated(f, f.blocks[b], start, p.blocks[b]);
    forall q | q in start ensures q.0 < f.n && q.1 < f.n && run[i].envs[0](q.0) == run[i].envs[0](q.1) {
      var c: nat :| c in cins[b] && c < |f.copies| && f.copies[c] == q;
      assert f.copies[c] in f.copies;
    }
  }

  lemma EdgeIsFollowed(f: Routine, cins: seq<set<RC.Copy>>, p: TF.Problem, from: Visit, e: TF.Edge, to: Visit, start: seq<(Var, Var)>)
    requires f.Valid() && Built(f, cins, p) && RunsBlock(f, from) && RunsBlock(f, to)
    requires StartsFrom(f, p, from, start) && Follows(f, from, e, to)
    requires TF.ValidVisit(p, TypeVisit(f, from)) && TF.ValidVisit(p, TypeVisit(f, to))
    ensures TF.Follows(p, TypeVisit(f, from), e, TypeVisit(f, to))
  {
    EdgeAdmitted(f, p, from, e, to, start);
    assert BlockBuilt(f, cins, p, to.block);
    hide StartsFrom, Selects, EntryType;
  }

  lemma RunIsTypeRun(f: Routine, cins: seq<set<RC.Copy>>, couts: seq<set<RC.Copy>>, p: TF.Problem,
                     run: seq<Visit>, edges: seq<TF.Edge>) returns (truns: seq<TF.Visit>)
    requires f.Valid() && RC.ValidGraph(CopyGraph(f)) && RC.Solves(CopyGraph(f), cins, couts) && Built(f, cins, p)
    requires IsRun(f, run, edges)
    ensures |truns| == |run| && (forall i :: 0 <= i < |run| ==> truns[i] == TypeVisit(f, run[i]))
    ensures TF.Run(p, truns, edges)
  {
    truns := seq(|run|, i requires 0 <= i < |run| => TypeVisit(f, run[i]));
    StartExactly(f, run[0].envs[0], p.init);
    hide StartsFrom, BlockGenerated, Selects, EntryType, BlockBuilt, RC.Solves, TF.ValidVisit, TF.Follows;
    forall i | 0 <= i < |run| ensures TF.ValidVisit(p, truns[i]) {
      var start := StartsFromCopies(f, cins, couts, p, run, edges, i);
      VisitIsValid(f, p, run[i], start);
    }
    forall i | 0 <= i < |edges| ensures TF.Follows(p, truns[i], edges[i], truns[i + 1]) {
      assert Follows(f, run[i], edges[i], run[i + 1]);
      var start := StartsFromCopies(f, cins, couts, p, run, edges, i);
      assert TF.ValidVisit(p, truns[i]) && TF.ValidVisit(p, truns[i + 1]);
      EdgeIsFollowed(f, cins, p, run[i], edges[i], run[i + 1], start);
    }
  }

  /** For all runs of a function, the types at every block entry and exit are those of
      any solution of the equations that its instructions, branches and copies give. */
  lemma RoutineSound(f: Routine, cins: seq<set<RC.Copy>>, couts: seq<set<RC.Copy>>, p: TF.Problem, ins: TF.Flow, outs: TF.Flow,
                     run: seq<Visit>, edges: seq<TF.Edge>, i: nat)
    requires f.Valid() && RC.ValidGraph(CopyGraph(f)) && RC.Solves(CopyGraph(f), cins, couts)
    requires Built(f, cins, p) && p.Valid() && TF.Solution(p, ins, outs)
    requires IsRun(f, run, edges) && i < |run|
    ensures Within(f, ins, outs, run[i])
  {
    var truns := RunIsTypeRun(f, cins, couts, p, run, edges);
    TF.InferenceSound(p, ins, outs, truns, edges, i);
  }

  ghost predicate Within(f: Routine, ins: TF.Flow, outs: TF.Flow, visit: Visit) {
    && visit.block < |ins| && visit.block < |outs| && visit.envs != []
    && InTypes(TypesOf(visit.envs[0], f.n), ins[visit.block])
    && InTypes(TypesOf(visit.envs[|visit.envs| - 1], f.n), outs[visit.block])
  }

  /** Type inference of one function, from its code: reaching copies, then constraints,
      then the iteration. The result is the least solution of the equations that the
      function's instructions, branches and reaching copies give, and holds in every run. */
  method Infer(f: Routine) returns (ins: TF.Flow, outs: TF.Flow, ghost cins: seq<set<RC.Copy>>, ghost p: TF.Problem)
    requires f.Valid()
    ensures |cins| == |f.blocks| && forall b, c :: 0 <= b < |f.blocks| ==> (c in cins[b] <==> RC.OnAllWays(CopyGraph(f), b, c))
    ensures Built(f, cins, p) && p.Valid() && TF.Solution(p, ins, outs) && TF.InsMeaning(p, ins, outs) && TF.OutsMeaning(p, ins, outs)
    ensures forall ins', outs' :: TF.Solution(p, ins', outs') ==> TF.LeqFlow(ins, ins') && TF.LeqFlow(outs, outs')
    ensures forall run: seq<Visit>, edges: seq<TF.Edge>, i: nat :: IsRun(f, run, edges) && i < |run| ==> Within(f, ins, outs, run[i])
  {
    CopyGraphValid(f);
    var copies := new RC.Problem(CopyGraph(f));
    copies.FlowCopies();
    var reaching := copies.ins[..];
    ghost var couts := copies.outs[..];
    var problem := BuildProblem(f, reaching);
    cins, p := reaching, problem;
    BuiltValid(f, cins, p);
    ins, outs := TF.InferRun(problem);
    forall run: seq<Visit>, edges: seq<TF.Edge>, i: nat | IsRun(f, run, edges) && i < |run| ensures Within(f, ins, outs, run[i]) {
      RoutineSound(f, cins, couts, p, ins, outs, run, edges, i);
    }
  }
}
