/** Code for conditions: && || ! and comparisons with false become branches, with
    the code for success and failure generated by continuations (gen_condition,
    gen_if and gen_while in phase2.mud). */
module Conditions {
  import opened Arithmetic
  import opened Prelude

  type Label = nat
  type Local = nat
  type Id = nat

  // ----- conditions and their meaning -----

  // How an evaluated atom is tested.
  datatype Test =
    | Value            // not equal to false
    | Swapped          // equal to false: tests of an inverted result
    | Compare          // an operator that can also compute a boolean
    | Flag             // an operator that can only branch
    | Bit(bit: nat)    // a single bit is set

  datatype Cond =
    | Atom(test: Test, id: Id)
    | NotBit(bit: nat, id: Id)                  // ~x & (1 << bit)
    | Guarded(guard: Id, test: Test, id: Id)    // a type check before the test
    | And(left: Cond, right: Cond)
    | Or(left: Cond, right: Cond)
    | Not(arg: Cond)
    | IsFalse(arg: Cond)                        // arg == false
    | IsNotFalse(arg: Cond)                     // arg != false
    | After(effect: Id, last: Cond)             // (effect; last)

  // What has been evaluated so far, and the variable holding the result.
  datatype State = State(history: seq<Id>, result: int)

  // The value of an expression, which may depend on everything evaluated before it.
  type World = (seq<Id>, Id) -> int

  function BitOf(x: int, k: nat): int {
    x / Pow2(k) % 2
  }

  predicate Holds(test: Test, v: int) {
    match test
    case Swapped => v == 0
    case Bit(k) => BitOf(v, k) == 1
    case _ => v != 0
  }

  function After1(st: State, id: Id): State {
    st.(history := st.history + [id])
  }

  // Short-circuit evaluation.
  function Eval(w: World, c: Cond, st: State): (bool, State) {
    match c
    case Atom(test, id) => (Holds(test, w(st.history, id)), After1(st, id))
    case NotBit(k, id) => (BitOf(-w(st.history, id) - 1, k) == 1, After1(st, id))
    case Guarded(guard, test, id) =>
      var st1 := After1(st, guard);
      if w(st.history, guard) == 0 then (false, st1) else (Holds(test, w(st1.history, id)), After1(st1, id))
    case And(l, r) =>
      var x := Eval(w, l, st);
      if x.0 then Eval(w, r, x.1) else x
    case Or(l, r) =>
      var x := Eval(w, l, st);
      if x.0 then x else Eval(w, r, x.1)
    case Not(a) =>
      var x := Eval(w, a, st);
      (!x.0, x.1)
    case IsFalse(a) =>
      var x := Eval(w, a, st);
      (!x.0, x.1)
    case IsNotFalse(a) => Eval(w, a, st)
    case After(e, last) => Eval(w, last, After1(st, e))
  }

  // A list of components: evaluated for its value, or only read.
  datatype Clist = Expr(id: Id) | Recall(id: Id) | Constant(value: int)

  function EvalClist(w: World, cl: Clist, st: State): (int, State) {
    match cl
    case Expr(id) => (w(st.history, id), After1(st, id))
    case Recall(id) => (w(st.history, id), st)
    case Constant(v) => (v, st)
  }

  // ----- intermediate code -----

  datatype BranchOp = Always | True | False | Succeeds | Fails | BitSet(bit: nat) | BitClear(bit: nat)

  datatype Ins =
    | LabelIns(l: Label)
    | Branch(op: BranchOp, target: Label, arg: Local)
    | Compute(cl: Clist, dst: Local)
    | SetFlag(inverted: bool, src: Local, dst: Local)     // dst := src != false, or src == false
    | ShiftRight(bits: nat, src: Local, dst: Local)
    | AndOne(dst: Local)
    | XorOne(dst: Local)
    | Copy(src: Local, dst: Local)
    | Assign(src: Local)                                  // result := src

  datatype Config = Config(st: State, locals: Local -> int)

  // Code ends at its end, or by a branch to a label it does not bind further on.
  datatype Outcome = Done(st: State) | Exit(l: Label, st: State)

  predicate Taken(op: BranchOp, v: int) {
    match op
    case Always => true
    case True => v != 0
    case False => v == 0
    case Succeeds => v != 0
    case Fails => v == 0
    case BitSet(k) => BitOf(v, k) == 1
    case BitClear(k) => BitOf(v, k) != 1
  }

  function SetLocal(s: Config, t: Local, v: int): Config {
    s.(locals := (x: Local) => if x == t then v else s.locals(x))
  }

  function Step(w: World, i: Ins, s: Config): Config {
    match i
    case Compute(cl, t) =>
      var x := EvalClist(w, cl, s.st);
      SetLocal(s.(st := x.1), t, x.0)
    case SetFlag(inverted, a, t) => SetLocal(s, t, if (s.locals(a) != 0) != inverted then 1 else 0)
    case ShiftRight(k, a, t) => SetLocal(s, t, s.locals(a) / Pow2(k))
    case AndOne(t) => SetLocal(s, t, s.locals(t) % 2)
    case XorOne(t) => SetLocal(s, t, if s.locals(t) % 2 == 0 then s.locals(t) + 1 else s.locals(t) - 1)
    case Copy(a, t) => SetLocal(s, t, s.locals(a))
    case Assign(a) => s.(st := s.st.(result := s.locals(a)))
    case LabelIns(_) => s
    case Branch(_, _, _) => s
  }

  predicate Jumps(i: Ins, s: Config) {
    i.Branch? && Taken(i.op, s.locals(i.arg))
  }

  function Run(w: World, code: seq<Ins>, s: Config): Outcome
    decreases |code|
  {
    if code == [] then Done(s.st)
    else if Jumps(code[0], s) then Goto(w, code[1..], code[0].target, s)
    else Run(w, code[1..], Step(w, code[0], s))
  }

  // Continues after the binding of l.
  function Goto(w: World, code: seq<Ins>, l: Label, s: Config): Outcome
    decreases |code|
  {
    if code == [] then Exit(l, s.st)
    else if code[0] == LabelIns(l) then Run(w, code[1..], s)
    else Goto(w, code[1..], l, s)
  }

  lemma RunCons(w: World, i: Ins, code: seq<Ins>, s: Config)
    ensures Run(w, [i] + code, s) ==
            if Jumps(i, s) then Goto(w, code, i.target, s) else Run(w, code, Step(w, i, s))
  {
    assert ([i] + code)[1..] == code;
  }

  lemma GotoCons(w: World, i: Ins, code: seq<Ins>, l: Label, s: Config)
    ensures Goto(w, [i] + code, l, s) == if i == LabelIns(l) then Run(w, code, s) else Goto(w, code, l, s)
  {
    assert ([i] + code)[1..] == code;
  }

  // ----- continuations -----

  // What to generate where the conclusion of a condition is known: nothing, a block
  // of the program, or the rest of a condition.
  datatype Cont =
    | NoCont
    | Block(entry: Label, body: Option<Clist>, assign: bool, next: Label)
    | Rest(entry: Label, goal: Goal)

  // The arguments of gen_condition. boolean is the label where a computed truth value
  // goes on; trivial holds the two bodies of a single-branch conditional.
  datatype Goal = Goal(cond: Cond, slab: Label, success: Cont, flab: Label, failure: Cont,
                       boolean: Option<Label>, trivial: Option<Trivial>, inverse: bool)

  datatype Trivial = Trivial(success: Clist, failure: Clist, next: Label)

  function RunBlock(w: World, body: Option<Clist>, assign: bool, st: State): State {
    match body
    case None => st
    case Some(cl) =>
      var x := EvalClist(w, cl, st);
      if assign then x.1.(result := x.0) else x.1
  }

  function Pick(a: Option<Outcome>, b: Option<Outcome>, l: Label, st: State): Outcome {
    if a.Some? then a.value else if b.Some? then b.value else Exit(l, st)
  }

  // What going to l means inside the continuation's code, if it binds l.
  function Lookup(w: World, c: Cont, l: Label, st: State): Option<Outcome>
    decreases c
  {
    match c
    case NoCont => None
    case Block(entry, body, assign, next) => if l == entry then Some(Exit(next, RunBlock(w, body, assign, st))) else None
    case Rest(entry, g) =>
      if l == entry then
        var x := Eval(w, g.cond, st);
        var t := if x.0 then g.slab else g.flab;
        Some(Pick(Lookup(w, g.success, t, x.1), Lookup(w, g.failure, t, x.1), t, x.1))
      else
        var a := Lookup(w, g.success, l, st);
        if a.Some? then a else Lookup(w, g.failure, l, st)
  }

  /** What going to l means, given both continuations. */
  function Meaning(w: World, success: Cont, failure: Cont, l: Label, st: State): Outcome {
    Pick(Lookup(w, success, l, st), Lookup(w, failure, l, st), l, st)
  }

  /** What the code for a condition should do: evaluate it by short-circuit rules
      and go on at slab if it holds, else at flab. */
  function Target(w: World, g: Goal, st: State): Outcome {
    var x := Eval(w, g.cond, st);
    Meaning(w, g.success, g.failure, if x.0 then g.slab else g.flab, x.1)
  }

  function CondSize(c: Cond): (n: nat)
    ensures n > 0
  {
    match c
    case Atom(_, _) => 1
    case NotBit(_, _) => 2
    case Guarded(_, _, _) => 1
    case And(l, r) => CondSize(l) + CondSize(r) + 2
    case Or(l, r) => CondSize(l) + CondSize(r) + 2
    case Not(a) => CondSize(a) + 1
    case IsFalse(a) => CondSize(a) + 1
    case IsNotFalse(a) => CondSize(a) + 1
    case After(_, last) => CondSize(last) + 1
  }

  function ContSize(c: Cont): nat
    decreases c
  {
    match c
    case NoCont => 0
    case Block(_, _, _, _) => 1
    case Rest(_, g) => 1 + CondSize(g.cond) + ContSize(g.success) + ContSize(g.failure)
  }

  function GoalSize(g: Goal): nat {
    CondSize(g.cond) + ContSize(g.success) + ContSize(g.failure)
  }

  // ----- labels -----

  // How often code binds l.
  function Count(code: seq<Ins>, l: Label): nat {
    if code == [] then 0 else (if code[0] == LabelIns(l) then 1 else 0) + Count(code[1..], l)
  }

  lemma {:induction false} CountConcat(a: seq<Ins>, b: seq<Ins>, l: Label)
    ensures Count(a + b, l) == Count(a, l) + Count(b, l)
  {
    if a == [] {
      assert a + b == b;
    } else {
      CountConcat(a[1..], b, l);
      assert (a + b)[1..] == a[1..] + b;
    }
  }

  function ContCount(c: Cont, l: Label): nat
    decreases c
  {
    match c
    case NoCont => 0
    case Block(entry, _, _, _) => if l == entry then 1 else 0
    case Rest(entry, g) => (if l == entry then 1 else 0) + ContCount(g.success, l) + ContCount(g.failure, l)
  }

  // The labels that code for a goal may use without binding them.
  function Needs(g: Goal): set<Label>
    decreases g
  {
    {g.slab, g.flab} + (if g.boolean.Some? then {g.boolean.value} else {}) + ContNeeds(g.success) + ContNeeds(g.failure)
  }

  function ContNeeds(c: Cont): set<Label>
    decreases c
  {
    match c
    case NoCont => {}
    case Block(_, _, _, next) => {next}
    case Rest(_, g) => Needs(g)
  }

  // Every branch goes to a label the code binds, or one in needs.
  ghost predicate Refers(code: seq<Ins>, needs: set<Label>) {
    forall i :: 0 <= i < |code| && code[i].Branch? ==> code[i].target in needs || Count(code, code[i].target) > 0
  }

  // Labels from n0 up to n1 are new and bound at most once; older ones as often as the continuations say.
  ghost predicate Binds(code: seq<Ins>, success: Cont, failure: Cont, n0: Label, n1: Label) {
    && n0 <= n1
    && (forall l: Label :: l < n0 ==> Count(code, l) == ContCount(success, l) + ContCount(failure, l))
    && (forall l: Label :: n0 <= l < n1 ==> Count(code, l) <= 1)
    && (forall l: Label :: n1 <= l ==> Count(code, l) == 0)
  }

  // ----- valid arguments -----

  ghost predicate ContOk(c: Cont, n: Label)
    decreases c
  {
    match c
    case NoCont => true
    case Block(entry, _, _, next) => entry < n && next < n && next != entry
    case Rest(entry, g) =>
      && entry < n && g.trivial.None? && GoalOk(g, n)
      && ContCount(g.success, entry) == 0 && ContCount(g.failure, entry) == 0
  }

  ghost predicate GoalOk(g: Goal, n: Label)
    decreases g
  {
    && g.slab < n && g.flab < n && g.slab != g.flab
    && ContOk(g.success, n) && ContOk(g.failure, n)
    && (g.success != NoCont ==> g.success.entry == g.slab)
    && (g.failure != NoCont ==> g.failure.entry == g.flab)
    && Paired(g.success, g.failure)
    && (g.boolean.Some? ==> g.boolean.value < n && BooleanOk(g.success, g.failure, g.slab, g.flab, g.boolean.value, g.inverse))
    && (g.trivial.Some? ==> TrivialOk(g, g.trivial.value))
  }

  // Two blocks are given together; the rest of a condition is given alone.
  ghost predicate Paired(success: Cont, failure: Cont) {
    success.NoCont? || failure.NoCont? ||
    (success.Block? && failure.Block? && success.next != failure.entry && failure.next != success.entry
     && success.entry != failure.entry)
  }

  // Going to slab is the same as setting the result to true and going to next.
  ghost predicate BooleanOk(success: Cont, failure: Cont, slab: Label, flab: Label, next: Label, inverse: bool) {
    forall w: World, st: State ::
      && Meaning(w, success, failure, slab, st) == Meaning(w, success, failure, next, st.(result := if inverse then 0 else 1))
      && Meaning(w, success, failure, flab, st) == Meaning(w, success, failure, next, st.(result := if inverse then 1 else 0))
  }

  // The continuations are the two bodies, one of which is only read.
  ghost predicate TrivialOk(g: Goal, t: Trivial) {
    && !(t.success.Expr? && t.failure.Expr?)
    && g.success == Block(g.slab, Some(if g.inverse then t.failure else t.success), true, t.next)
    && g.failure == Block(g.flab, Some(if g.inverse then t.success else t.failure), true, t.next)
  }

  // ----- what generated code does -----

  // In trivial mode the code falls through to the label after the conditional.
  function Lands(trivial: Option<Trivial>, o: Outcome): Outcome {
    if trivial.Some? && o.Exit? && o.l == trivial.value.next then Done(o.st) else o
  }

  ghost predicate Runs(g: Goal, code: seq<Ins>) {
    forall w: World, s: Config :: Lands(g.trivial, Run(w, code, s)) == Lands(g.trivial, Target(w, g, s.st))
  }

  // Labels bound by the continuations can be reached from outside the code.
  ghost predicate Enters(success: Cont, failure: Cont, code: seq<Ins>, n0: Label) {
    forall w: World, s: Config, l: Label :: l < n0 ==> Goto(w, code, l, s) == Meaning(w, success, failure, l, s.st)
  }

  ghost predicate Labelled(g: Goal, code: seq<Ins>, n0: Label, n1: Label) {
    || (Binds(code, g.success, g.failure, n0, n1) && Refers(code, Needs(g)))
    || (g.trivial.Some? && Binds(code, NoCont, NoCont, n0, n1) && Refers(code, {}))
  }

  /** The contract of gen_condition, for code that took labels n0 up to n1. */
  ghost predicate Correct(g: Goal, code: seq<Ins>, n0: Label, n1: Label) {
    && Runs(g, code)
    && (g.trivial.None? ==> Enters(g.success, g.failure, code, n0))
    && Labelled(g, code, n0, n1)
  }

  // The same for the code of both continuations.
  ghost predicate ContsCode(success: Cont, failure: Cont, needs: set<Label>, code: seq<Ins>, n0: Label, n1: Label) {
    && Enters(success, failure, code, n0)
    && Binds(code, success, failure, n0, n1)
    && Refers(code, needs)
    && (success != NoCont ==> code != [] && code[0] == LabelIns(success.entry))
    && (success == NoCont && failure != NoCont ==> code != [] && code[0] == LabelIns(failure.entry))
    && (success == NoCont && failure == NoCont ==> code == [])
  }

  // ----- prefixes -----

  predicate Straight(i: Ins) {
    !i.Branch? && !i.LabelIns?
  }

  lemma CountCons(i: Ins, code: seq<Ins>, l: Label)
    ensures Count([i] + code, l) == (if i == LabelIns(l) then 1 else 0) + Count(code, l)
  {
    assert ([i] + code)[1..] == code;
  }

  // An instruction in front that binds no label.
  lemma BindsCons(i: Ins, code: seq<Ins>, success: Cont, failure: Cont, n0: Label, n1: Label)
    requires !i.LabelIns? && Binds(code, success, failure, n0, n1)
    ensures Binds([i] + code, success, failure, n0, n1)
  {
    forall l: Label ensures Count([i] + code, l) == Count(code, l) {
      CountCons(i, code, l);
    }
  }

  lemma RefersCons(i: Ins, code: seq<Ins>, needs: set<Label>)
    requires Refers(code, needs) && (i.Branch? ==> i.target in needs || Count(code, i.target) > 0)
    ensures Refers([i] + code, needs)
  {
    var code' := [i] + code;
    forall k | 0 <= k < |code'| && code'[k].Branch?
      ensures code'[k].target in needs || Count(code', code'[k].target) > 0
    {
      CountCons(i, code, code'[k].target);
      if k > 0 { assert code'[k] == code[k - 1]; }
    }
  }

  lemma RefersMore(code: seq<Ins>, needs: set<Label>, more: set<Label>)
    requires Refers(code, needs) && forall l :: l in needs ==> l in more || Count(code, l) > 0
    ensures Refers(code, more)
  {
  }

  lemma EntersCons(i: Ins, code: seq<Ins>, success: Cont, failure: Cont, n0: Label)
    requires !i.LabelIns? && Enters(success, failure, code, n0)
    ensures Enters(success, failure, [i] + code, n0)
  {
    forall w: World, s: Config, l: Label | l < n0
      ensures Goto(w, [i] + code, l, s) == Meaning(w, success, failure, l, s.st)
    {
      GotoCons(w, i, code, l, s);
    }
  }

  lemma LabelledCons(g: Goal, i: Ins, code: seq<Ins>, n0: Label, n1: Label)
    requires Straight(i) && Labelled(g, code, n0, n1)
    ensures Labelled(g, [i] + code, n0, n1)
  {
    if Binds(code, g.success, g.failure, n0, n1) && Refers(code, Needs(g)) {
      BindsCons(i, code, g.success, g.failure, n0, n1);
      RefersCons(i, code, Needs(g));
    } else {
      BindsCons(i, code, NoCont, NoCont, n0, n1);
      RefersCons(i, code, {});
    }
  }

  // ----- after an atom has been evaluated -----

  ghost predicate Tests(g: Goal, test: Test, t: Local, code: seq<Ins>) {
    forall w: World, s: Config :: TestsFrom(g, test, t, code, w, s)
  }

  ghost predicate TestsFrom(g: Goal, test: Test, t: Local, code: seq<Ins>, w: World, s: Config) {
    Lands(g.trivial, Run(w, code, s)) ==
    Lands(g.trivial, Meaning(w, g.success, g.failure, if Holds(test, s.locals(t)) then g.slab else g.flab, s.st))
  }

  // Code for a goal whose atom is in t.
  ghost predicate TestCode(g: Goal, test: Test, t: Local, code: seq<Ins>, n0: Label, n1: Label) {
    && Tests(g, test, t, code)
    && (g.trivial.None? ==> Enters(g.success, g.failure, code, n0))
    && Labelled(g, code, n0, n1)
  }

  lemma AtomCorrect(g: Goal, test: Test, id: Id, t: Local, code: seq<Ins>, n0: Label, n1: Label)
    requires g.cond == Atom(test, id) && TestCode(g, test, t, code, n0, n1)
    ensures Correct(g, [Compute(Expr(id), t)] + code, n0, n1)
  {
    var i := Compute(Expr(id), t);
    forall w: World, s: Config
      ensures Lands(g.trivial, Run(w, [i] + code, s)) == Lands(g.trivial, Target(w, g, s.st))
    {
      RunCons(w, i, code, s);
      assert TestsFrom(g, test, t, code, w, Step(w, i, s));
    }
    if g.trivial.None? { EntersCons(i, code, g.success, g.failure, n0); }
    LabelledCons(g, i, code, n0, n1);
  }

  lemma AfterCorrect(g: Goal, e: Id, last: Cond, t: Local, code: seq<Ins>, n0: Label, n1: Label)
    requires g.cond == After(e, last) && Correct(g.(cond := last), code, n0, n1)
    ensures Correct(g, [Compute(Expr(e), t)] + code, n0, n1)
  {
    var i, g' := Compute(Expr(e), t), g.(cond := last);
    forall w: World, s: Config
      ensures Lands(g.trivial, Run(w, [i] + code, s)) == Lands(g.trivial, Target(w, g, s.st))
    {
      RunCons(w, i, code, s);
      var s' := Step(w, i, s);
      assert Lands(g.trivial, Run(w, code, s')) == Lands(g.trivial, Target(w, g', s'.st));
    }
    if g.trivial.None? { EntersCons(i, code, g.success, g.failure, n0); }
    assert Needs(g) == Needs(g');
    assert Labelled(g', code, n0, n1) ==> Labelled(g, code, n0, n1);
    LabelledCons(g, i, code, n0, n1);
  }

  // The type check goes to flab at once; the label must be bound, so trivial mode is off.
  lemma GuardCorrect(g: Goal, guard: Id, test: Test, id: Id, t: Local, code: seq<Ins>, n0: Label, n1: Label)
    requires g.cond == Guarded(guard, test, id) && g.flab < n0
    requires Correct(g.(cond := Atom(test, id), trivial := None), code, n0, n1)
    ensures Correct(g, [Compute(Expr(guard), t)] + ([Branch(Fails, g.flab, t)] + code), n0, n1)
  {
    var i, j, g' := Compute(Expr(guard), t), Branch(Fails, g.flab, t), g.(cond := Atom(test, id), trivial := None);
    forall w: World, s: Config
      ensures Run(w, [i] + ([j] + code), s) == Target(w, g, s.st)
    {
      RunCons(w, i, [j] + code, s);
      var s' := Step(w, i, s);
      RunCons(w, j, code, s');
      assert Goto(w, code, g.flab, s') == Meaning(w, g'.success, g'.failure, g.flab, s'.st);
      assert Lands(g'.trivial, Run(w, code, s')) == Lands(g'.trivial, Target(w, g', s'.st));
    }
    EntersCons(j, code, g.success, g.failure, n0);
    EntersCons(i, [j] + code, g.success, g.failure, n0);
    assert Needs(g') == Needs(g);
    BindsCons(j, code, g.success, g.failure, n0, n1);
    RefersCons(j, code, Needs(g));
    LabelledCons(g, i, [j] + code, n0, n1);
  }

  function SucceedOp(test: Test): BranchOp {
    match test
    case Value => True
    case Swapped => False
    case Compare => Succeeds
    case Flag => Succeeds
    case Bit(k) => BitSet(k)
  }

  function FailOp(test: Test): BranchOp {
    match test
    case Value => False
    case Swapped => True
    case Compare => Fails
    case Flag => Fails
    case Bit(k) => BitClear(k)
  }

  lemma OpsTest(test: Test, v: int)
    ensures Taken(SucceedOp(test), v) <==> Holds(test, v)
    ensures Taken(FailOp(test), v) <==> !Holds(test, v)
  {
  }

  // Fall into the code for success.
  lemma FailBranch(g: Goal, test: Test, t: Local, k: seq<Ins>, n0: Label, n1: Label)
    requires GoalOk(g, n0) && g.success != NoCont && ContsCode(g.success, g.failure, Needs(g), k, n0, n1)
    ensures TestCode(g, test, t, [Branch(FailOp(test), g.flab, t)] + k, n0, n1)
  {
    var i := Branch(FailOp(test), g.flab, t);
    forall w: World, s: Config ensures TestsFrom(g, test, t, [i] + k, w, s) {
      RunCons(w, i, k, s);
      OpsTest(test, s.locals(t));
      assert Goto(w, k, g.flab, s) == Meaning(w, g.success, g.failure, g.flab, s.st);
      assert Goto(w, k, g.slab, s) == Meaning(w, g.success, g.failure, g.slab, s.st);
    }
    EntersCons(i, k, g.success, g.failure, n0);
    BindsCons(i, k, g.success, g.failure, n0, n1);
    RefersCons(i, k, Needs(g));
  }

  // Fall into the code for failure, or branch there.
  lemma SucceedBranch(g: Goal, test: Test, t: Local, k: seq<Ins>, n0: Label, n1: Label)
    requires GoalOk(g, n0) && g.success == NoCont && n0 <= n1
    requires if g.failure != NoCont then ContsCode(g.success, g.failure, Needs(g), k, n0, n1) else k == [Branch(Always, g.flab, t)]
    ensures TestCode(g, test, t, [Branch(SucceedOp(test), g.slab, t)] + k, n0, n1)
  {
    if g.failure == NoCont {
      NoConts(g, t, n0, n1);
    }
    var i := Branch(SucceedOp(test), g.slab, t);
    forall w: World, s: Config ensures TestsFrom(g, test, t, [i] + k, w, s) {
      RunCons(w, i, k, s);
      OpsTest(test, s.locals(t));
      assert Goto(w, k, g.slab, s) == Meaning(w, g.success, g.failure, g.slab, s.st);
      assert Goto(w, k, g.flab, s) == Meaning(w, g.success, g.failure, g.flab, s.st);
    }
    EntersCons(i, k, g.success, g.failure, n0);
    BindsCons(i, k, g.success, g.failure, n0, n1);
    RefersCons(i, k, Needs(g));
  }

  lemma NoConts(g: Goal, t: Local, n0: Label, n1: Label)
    requires g.success == NoCont && g.failure == NoCont && n0 <= n1
    ensures var k := [Branch(Always, g.flab, t)];
            && Enters(NoCont, NoCont, k, n0) && Binds(k, NoCont, NoCont, n0, n1) && Refers(k, Needs(g))
            && forall w: World, s: Config :: Run(w, k, s) == Exit(g.flab, s.st)
  {
    forall l: Label ensures Count([Branch(Always, g.flab, t)], l) == 0 {
      CountNone([Branch(Always, g.flab, t)], l);
    }
  }

  // ----- boolean results -----

  // The result, possibly inverted, is in r.
  ghost predicate BoolRuns(g: Goal, r: Local, code: seq<Ins>) {
    forall w: World, s: Config :: BoolRunsFrom(g, r, code, w, s)
  }

  ghost predicate BoolRunsFrom(g: Goal, r: Local, code: seq<Ins>, w: World, s: Config) {
    (s.locals(r) == 0 || s.locals(r) == 1) ==>
    Run(w, code, s) == Meaning(w, g.success, g.failure, if (s.locals(r) == 1) != g.inverse then g.slab else g.flab, s.st)
  }

  lemma BoolResult(g: Goal, r: Local, k: seq<Ins>, n0: Label, n1: Label)
    requires GoalOk(g, n0) && g.boolean.Some? && ContsCode(g.success, g.failure, Needs(g), k, n0, n1)
    ensures var code := [Assign(r)] + ([Branch(Always, g.boolean.value, r)] + k);
            && BoolRuns(g, r, code) && Enters(g.success, g.failure, code, n0)
            && Binds(code, g.success, g.failure, n0, n1) && Refers(code, Needs(g))
  {
    var i, j := Assign(r), Branch(Always, g.boolean.value, r);
    forall w: World, s: Config ensures BoolRunsFrom(g, r, [i] + ([j] + k), w, s) {
      RunCons(w, i, [j] + k, s);
      var s' := Step(w, i, s);
      RunCons(w, j, k, s');
      assert Goto(w, k, g.boolean.value, s') == Meaning(w, g.success, g.failure, g.boolean.value, s'.st);
    }
    EntersCons(j, k, g.success, g.failure, n0);
    EntersCons(i, [j] + k, g.success, g.failure, n0);
    BindsCons(j, k, g.success, g.failure, n0, n1);
    BindsCons(i, [j] + k, g.success, g.failure, n0, n1);
    RefersCons(j, k, Needs(g));
    RefersCons(i, [j] + k, Needs(g));
  }

  ghost predicate BoolCode(g: Goal, r: Local, code: seq<Ins>, n0: Label, n1: Label) {
    && BoolRuns(g, r, code) && Enters(g.success, g.failure, code, n0)
    && Binds(code, g.success, g.failure, n0, n1) && Refers(code, Needs(g))
  }

  lemma FlagResult(g: Goal, test: Test, t: Local, r: Local, code: seq<Ins>, n0: Label, n1: Label)
    requires (test.Value? || test.Swapped? || test.Compare?) && BoolCode(g, r, code, n0, n1)
    ensures TestCode(g, test, t, [SetFlag(g.inverse != test.Swapped?, t, r)] + code, n0, n1)
  {
    var i := SetFlag(g.inverse != test.Swapped?, t, r);
    forall w: World, s: Config ensures TestsFrom(g, test, t, [i] + code, w, s) {
      RunCons(w, i, code, s);
      assert BoolRunsFrom(g, r, code, w, Step(w, i, s));
    }
    EntersCons(i, code, g.success, g.failure, n0);
    LabelledCons(g, i, code, n0, n1);
  }

  // One bit, shifted down and possibly flipped.
  lemma BitResult(g: Goal, k: nat, id: Id, flip: bool, t: Local, r: Local, code: seq<Ins>, n0: Label, n1: Label)
    requires g.cond == Atom(Bit(k), id) || g.cond == NotBit(k, id)
    requires flip == (g.inverse != g.cond.NotBit?) && BoolCode(g, r, code, n0, n1)
    ensures Correct(g, BitCode(k, id, flip, t, r, code), n0, n1)
  {
    var i0, i1, i2, i3 := Compute(Expr(id), t), ShiftRight(k, t, r), AndOne(r), XorOne(r);
    var c3 := if flip then [i3] + code else code;
    forall w: World, s: Config ensures Run(w, BitCode(k, id, flip, t, r, code), s) == Target(w, g, s.st) {
      BitRun(g, k, id, flip, t, r, code, w, s);
    }
    if flip { StraightCons(g, i3, code, n0, n1); }
    StraightCons(g, i2, c3, n0, n1);
    StraightCons(g, i1, [i2] + c3, n0, n1);
    StraightCons(g, i0, [i1] + ([i2] + c3), n0, n1);
  }

  function BitCode(k: nat, id: Id, flip: bool, t: Local, r: Local, code: seq<Ins>): seq<Ins> {
    [Compute(Expr(id), t)] + ([ShiftRight(k, t, r)] + ([AndOne(r)] + (if flip then [XorOne(r)] + code else code)))
  }

  lemma BitRun(g: Goal, k: nat, id: Id, flip: bool, t: Local, r: Local, code: seq<Ins>, w: World, s: Config)
    requires g.cond == Atom(Bit(k), id) || g.cond == NotBit(k, id)
    requires flip == (g.inverse != g.cond.NotBit?) && BoolRuns(g, r, code)
    ensures Run(w, BitCode(k, id, flip, t, r, code), s) == Target(w, g, s.st)
  {
    var i0, i1, i2, i3 := Compute(Expr(id), t), ShiftRight(k, t, r), AndOne(r), XorOne(r);
    var c3 := if flip then [i3] + code else code;
    RunCons(w, i0, [i1] + ([i2] + c3), s);
    var s1 := Step(w, i0, s);
    RunCons(w, i1, [i2] + c3, s1);
    var s2 := Step(w, i1, s1);
    RunCons(w, i2, c3, s2);
    var s3 := Step(w, i2, s2);
    var v := w(s.st.history, id);
    NegatedBit(v, k);
    assert s3.locals(r) == BitOf(v, k);
    if flip {
      RunCons(w, i3, code, s3);
      assert BoolRunsFrom(g, r, code, w, Step(w, i3, s3));
    } else {
      assert BoolRunsFrom(g, r, code, w, s3);
    }
  }

  lemma StraightCons(g: Goal, i: Ins, code: seq<Ins>, n0: Label, n1: Label)
    requires Straight(i) && Enters(g.success, g.failure, code, n0) && Labelled(g, code, n0, n1)
    ensures Enters(g.success, g.failure, [i] + code, n0) && Labelled(g, [i] + code, n0, n1)
  {
    EntersCons(i, code, g.success, g.failure, n0);
    LabelledCons(g, i, code, n0, n1);
  }

  // Complementing a number flips each of its bits.
  lemma NegatedBit(x: int, k: nat)
    ensures BitOf(-x - 1, k) == 1 - BitOf(x, k)
  {
    var p := Pow2(k);
    var q, r := x / p, x % p;
    assert x == q * p + r;
    Distribute(-q, -1, p);
    DivModOf(-x - 1, p, -q - 1, p - 1 - r);
  }

  // ----- trivial conditionals -----

  lemma TrivialRuns(g: Goal, test: Test, t: Local, a: Local, r: Local, b: Local, lab: Label, n0: Label)
    requires GoalOk(g, n0) && g.trivial.Some? && lab == n0 && t != a && t != r
    ensures TestCode(g, test, t, TrivialCode(g, test, t, a, r, b, lab), n0, n0 + 1)
  {
    var code := TrivialCode(g, test, t, a, r, b, lab);
    forall w: World, s: Config ensures TestsFrom(g, test, t, code, w, s) {
      TrivialRun(g, test, t, a, r, b, lab, w, s, n0);
    }
    forall l: Label ensures Count(code, l) == if l == lab then 1 else 0 {
      TrivialLabels(g, test, t, a, r, b, lab, l);
    }
    assert Binds(code, NoCont, NoCont, n0, n0 + 1);
    assert Refers(code, {}) by {
      forall i | 0 <= i < |code| && code[i].Branch? ensures Count(code, code[i].target) > 0 {
        assert code[i].target == lab;
      }
    }
  }

  // r := one body's value; then, unless the branch is taken, r := the other's.
  function TrivialCode(g: Goal, test: Test, t: Local, a: Local, r: Local, b: Local, lab: Label): seq<Ins>
    requires g.trivial.Some?
  {
    var v := g.trivial.value;
    var other := v.success.Expr?;
    var succeeds := other == g.inverse;
    [Compute(if other then v.failure else v.success, a)]
    + ([Copy(a, r)]
    + ([Branch(if succeeds then SucceedOp(test) else FailOp(test), lab, t)]
    + ([Compute(if other then v.success else v.failure, b)]
    + ([Copy(b, r)]
    + ([LabelIns(lab)]
    + ([Assign(r)] + []))))))
  }

  lemma TrivialLabels(g: Goal, test: Test, t: Local, a: Local, r: Local, b: Local, lab: Label, l: Label)
    requires g.trivial.Some?
    ensures Count(TrivialCode(g, test, t, a, r, b, lab), l) == if l == lab then 1 else 0
  {
    var code := TrivialCode(g, test, t, a, r, b, lab);
    assert |code| == 7;
    CountCons(code[6], [], l);
    CountCons(code[5], [code[6]], l);
    CountConcat(code[..5], code[5..], l);
    assert code == code[..5] + code[5..] && code[5..] == [code[5]] + [code[6]];
    CountNone(code[..5], l);
  }

  lemma {:induction false} CountNone(code: seq<Ins>, l: Label)
    requires forall i :: 0 <= i < |code| ==> !code[i].LabelIns?
    ensures Count(code, l) == 0
  {
    if code != [] { CountNone(code[1..], l); }
  }

  lemma TrivialRun(g: Goal, test: Test, t: Local, a: Local, r: Local, b: Local, lab: Label, w: World, s: Config, n0: Label)
    requires GoalOk(g, n0) && g.trivial.Some? && lab == n0 && t != a && t != r
    ensures TestsFrom(g, test, t, TrivialCode(g, test, t, a, r, b, lab), w, s)
  {
    var v := g.trivial.value;
    var other := v.success.Expr?;
    var first, second := if other then v.failure else v.success, if other then v.success else v.failure;
    var op := if other == g.inverse then SucceedOp(test) else FailOp(test);
    OpsTest(test, s.locals(t));
    TrivialTail(first, second, op, t, a, r, b, lab, w, s);
    TrivialTarget(g, v, Holds(test, s.locals(t)), w, s.st);
  }

  lemma TrivialTail(first: Clist, second: Clist, op: BranchOp, t: Local, a: Local, r: Local, b: Local, lab: Label, w: World, s: Config)
    requires !first.Expr? && t != a && t != r
    ensures var code := [Compute(first, a)] + ([Copy(a, r)] + ([Branch(op, lab, t)] + ([Compute(second, b)] + ([Copy(b, r)]
                        + ([LabelIns(lab)] + ([Assign(r)] + []))))));
            Run(w, code, s) == Done(RunBlock(w, Some(if Taken(op, s.locals(t)) then first else second), true, s.st))
  {
    var tail := [LabelIns(lab)] + ([Assign(r)] + []);
    var rest := [Compute(second, b)] + ([Copy(b, r)] + tail);
    RunCons(w, Compute(first, a), [Copy(a, r)] + ([Branch(op, lab, t)] + rest), s);
    var s1 := Step(w, Compute(first, a), s);
    RunCons(w, Copy(a, r), [Branch(op, lab, t)] + rest, s1);
    var s2 := Step(w, Copy(a, r), s1);
    RunCons(w, Branch(op, lab, t), rest, s2);
    if Taken(op, s.locals(t)) {
      GotoCons(w, Compute(second, b), [Copy(b, r)] + tail, lab, s2);
      GotoCons(w, Copy(b, r), tail, lab, s2);
      TailRuns(w, r, lab, s2);
    } else {
      RunCons(w, Compute(second, b), [Copy(b, r)] + tail, s2);
      var s3 := Step(w, Compute(second, b), s2);
      RunCons(w, Copy(b, r), tail, s3);
      TailRuns(w, r, lab, Step(w, Copy(b, r), s3));
    }
  }

  // What the two continuations of a trivial conditional do.
  lemma TrivialTarget(g: Goal, v: Trivial, holds: bool, w: World, st: State)
    requires TrivialOk(g, v) && g.trivial == Some(v) && g.slab != g.flab
    ensures Lands(g.trivial, Meaning(w, g.success, g.failure, if holds then g.slab else g.flab, st))
            == Done(RunBlock(w, Some(if holds != g.inverse then v.success else v.failure), true, st))
  {
  }

  lemma TailRuns(w: World, r: Local, lab: Label, s: Config)
    ensures var tail := [LabelIns(lab)] + ([Assign(r)] + []);
            Run(w, tail, s) == Goto(w, tail, lab, s) == Done(s.st.(result := s.locals(r)))
  {
    RunCons(w, LabelIns(lab), [Assign(r)] + [], s);
    GotoCons(w, LabelIns(lab), [Assign(r)] + [], lab, s);
    RunCons(w, Assign(r), [], s);
  }

  // ----- continuations -----

  // Labels of valid continuations are old.
  lemma {:induction false} ContOld(c: Cont, n: Label, l: Label)
    requires ContOk(c, n) && l >= n
    ensures ContCount(c, l) == 0
    decreases c
  {
    if c.Rest? {
      ContOld(c.goal.success, n, l);
      ContOld(c.goal.failure, n, l);
    }
  }

  lemma {:induction false} ContOkMore(c: Cont, n: Label, m: Label)
    requires ContOk(c, n) && n <= m
    ensures ContOk(c, m)
    decreases c
  {
    if c.Rest? {
      ContOkMore(c.goal.success, n, m);
      ContOkMore(c.goal.failure, n, m);
    }
  }

  lemma MeaningSymmetric(w: World, success: Cont, failure: Cont, l: Label, st: State)
    requires Paired(success, failure)
    ensures Meaning(w, success, failure, l, st) == Meaning(w, failure, success, l, st)
  {
  }

  function BlockCode(c: Cont, t: Local): seq<Ins>
    requires c.Block?
  {
    [LabelIns(c.entry)] + (BodyCode(c, t) + [Branch(Always, c.next, t)])
  }

  function BodyCode(c: Cont, t: Local): seq<Ins>
    requires c.Block?
  {
    if c.body.None? then [] else if c.assign then [Compute(c.body.value, t)] + [Assign(t)] else [Compute(c.body.value, t)]
  }

  lemma BlockRuns(w: World, c: Cont, t: Local, rest: seq<Ins>, s: Config)
    requires c.Block?
    ensures exists s': Config :: s'.st == RunBlock(w, c.body, c.assign, s.st)
              && Run(w, BodyCode(c, t) + ([Branch(Always, c.next, t)] + rest), s) == Goto(w, rest, c.next, s')
  {
    var tail := [Branch(Always, c.next, t)] + rest;
    var s' := BodyRuns(w, c, t, tail, s);
    RunCons(w, Branch(Always, c.next, t), rest, s');
    assert Run(w, BodyCode(c, t) + tail, s) == Goto(w, rest, c.next, s');
  }

  lemma BodyRuns(w: World, c: Cont, t: Local, tail: seq<Ins>, s: Config) returns (s': Config)
    requires c.Block?
    ensures s'.st == RunBlock(w, c.body, c.assign, s.st) && Run(w, BodyCode(c, t) + tail, s) == Run(w, tail, s')
  {
    s' := s;
    if c.body.None? {
      assert BodyCode(c, t) + tail == tail;
    } else {
      var i := Compute(c.body.value, t);
      s' := Step(w, i, s);
      if c.assign {
        assert BodyCode(c, t) + tail == [i] + ([Assign(t)] + tail);
        RunCons(w, i, [Assign(t)] + tail, s);
        RunCons(w, Assign(t), tail, s');
        s' := Step(w, Assign(t), s');
      } else {
        RunCons(w, i, tail, s);
      }
    }
  }

  lemma {:induction false} GotoSkips(w: World, a: seq<Ins>, b: seq<Ins>, l: Label, s: Config)
    requires forall i :: 0 <= i < |a| ==> a[i] != LabelIns(l)
    ensures Goto(w, a + b, l, s) == Goto(w, b, l, s)
  {
    if a == [] {
      assert a + b == b;
    } else {
      GotoSkips(w, a[1..], b, l, s);
      assert (a + b)[1..] == a[1..] + b;
    }
  }

  // Going to a label at the start of a block.
  lemma BlockEnters(w: World, c: Cont, t: Local, rest: seq<Ins>, l: Label, s: Config)
    requires c.Block?
    ensures if l == c.entry then
              exists s': Config :: s'.st == RunBlock(w, c.body, c.assign, s.st)
                && Goto(w, BlockCode(c, t) + rest, l, s) == Goto(w, rest, c.next, s')
            else
              Goto(w, BlockCode(c, t) + rest, l, s) == Goto(w, rest, l, s)
  {
    if l == c.entry {
      var body := BodyCode(c, t) + ([Branch(Always, c.next, t)] + rest);
      assert BlockCode(c, t) + rest == [LabelIns(l)] + body;
      GotoCons(w, LabelIns(l), body, l, s);
      BlockRuns(w, c, t, rest, s);
    } else {
      GotoSkips(w, BlockCode(c, t), rest, l, s);
    }
  }

  lemma BlockLabels(c: Cont, t: Local, l: Label)
    requires c.Block?
    ensures Count(BlockCode(c, t), l) == ContCount(c, l)
  {
    var body := BodyCode(c, t) + [Branch(Always, c.next, t)];
    CountCons(LabelIns(c.entry), body, l);
    CountNone(body, l);
  }

  lemma BlockRefers(c: Cont, t: Local)
    requires c.Block?
    ensures Refers(BlockCode(c, t), {c.next})
  {
  }

  lemma OneBlock(c: Cont, t: Local, n0: Label, n1: Label)
    requires c.Block? && ContOk(c, n0) && n0 <= n1
    ensures ContsCode(c, NoCont, ContNeeds(c), BlockCode(c, t), n0, n1)
  {
    var k := BlockCode(c, t);
    assert k + [] == k;
    forall w: World, s: Config, l: Label ensures Goto(w, k, l, s) == Meaning(w, c, NoCont, l, s.st) {
      BlockEnters(w, c, t, [], l, s);
    }
    forall l: Label ensures Count(k, l) == ContCount(c, l) {
      BlockLabels(c, t, l);
    }
    BlockRefers(c, t);
  }

  // It does not matter which of the two continuations is given alone.
  lemma EitherSide(c: Cont, needs: set<Label>, code: seq<Ins>, n0: Label, n1: Label)
    requires c != NoCont && ContsCode(c, NoCont, needs, code, n0, n1)
    ensures ContsCode(NoCont, c, needs, code, n0, n1)
  {
    SwappedEnters(NoCont, c, code, n0);
  }

  // The code where one continuation, or neither, is given.
  lemma OneOrNone(c: Cont, n: Label)
    ensures ContNeeds(NoCont) + ContNeeds(c) == ContNeeds(c) && ContNeeds(c) + ContNeeds(NoCont) == ContNeeds(c)
    ensures ContsCode(NoCont, NoCont, ContNeeds(NoCont) + ContNeeds(NoCont), [], n, n)
  {
  }

  lemma TwoBlocks(a: Cont, b: Cont, t: Local, u: Local, n0: Label, n1: Label)
    requires a.Block? && b.Block? && Paired(a, b) && ContOk(a, n0) && ContOk(b, n0) && n0 <= n1
    ensures ContsCode(a, b, ContNeeds(a) + ContNeeds(b), BlockCode(a, t) + BlockCode(b, u), n0, n1)
  {
    var x, y := BlockCode(a, t), BlockCode(b, u);
    assert y + [] == y;
    forall w: World, s: Config, l: Label ensures Goto(w, x + y, l, s) == Meaning(w, a, b, l, s.st) {
      BlockEnters(w, a, t, y, l, s);
      if l == a.entry {
        var s': Config :| s'.st == RunBlock(w, a.body, a.assign, s.st) && Goto(w, x + y, l, s) == Goto(w, y, a.next, s');
        BlockEnters(w, b, u, [], a.next, s');
      } else {
        BlockEnters(w, b, u, [], l, s);
      }
    }
    forall l: Label ensures Count(x + y, l) == ContCount(a, l) + ContCount(b, l) {
      CountConcat(x, y, l);
      BlockLabels(a, t, l);
      BlockLabels(b, u, l);
    }
    BlockRefers(a, t);
    BlockRefers(b, u);
    var k: seq<Ins> := x + y;
    forall i | 0 <= i < |k| && k[i].Branch? ensures k[i].target in {a.next, b.next} {
      if i < |x| { assert k[i] == x[i]; } else { assert k[i] == y[i - |x|]; }
    }
  }

  // The rest of a condition, after its label.
  lemma RestEnters(c: Cont, code: seq<Ins>, n0: Label, n1: Label)
    requires c.Rest? && ContOk(c, n0) && Correct(c.goal, code, n0, n1)
    ensures ContsCode(c, NoCont, ContNeeds(c), [LabelIns(c.entry)] + code, n0, n1)
  {
    var k, g := [LabelIns(c.entry)] + code, c.goal;
    forall w: World, s: Config, l: Label | l < n0 ensures Goto(w, k, l, s) == Meaning(w, c, NoCont, l, s.st) {
      GotoCons(w, LabelIns(c.entry), code, l, s);
      assert Lands(g.trivial, Run(w, code, s)) == Lands(g.trivial, Target(w, g, s.st));
      assert Goto(w, code, l, s) == Meaning(w, g.success, g.failure, l, s.st);
    }
    forall l: Label ensures Count(k, l) == (if l == c.entry then 1 else 0) + Count(code, l) {
      CountCons(LabelIns(c.entry), code, l);
    }
    RefersCons(LabelIns(c.entry), code, Needs(g));
  }

  // ----- goals that generate through other goals -----

  function SwappedGoal(g: Goal, cond: Cond): Goal {
    Goal(cond, g.flab, g.failure, g.slab, g.success, g.boolean, g.trivial, !g.inverse)
  }

  lemma SwappedOk(g: Goal, cond: Cond, n: Label)
    requires GoalOk(g, n)
    ensures GoalOk(SwappedGoal(g, cond), n)
  {
    if g.boolean.Some? {
      var e := g.boolean.value;
      forall w: World, st: State
        ensures Meaning(w, g.failure, g.success, g.flab, st) == Meaning(w, g.failure, g.success, e, st.(result := if g.inverse then 1 else 0))
        ensures Meaning(w, g.failure, g.success, g.slab, st) == Meaning(w, g.failure, g.success, e, st.(result := if g.inverse then 0 else 1))
      {
        MeaningSymmetric(w, g.success, g.failure, g.flab, st);
        MeaningSymmetric(w, g.success, g.failure, g.slab, st);
        MeaningSymmetric(w, g.success, g.failure, e, st.(result := if g.inverse then 1 else 0));
        MeaningSymmetric(w, g.success, g.failure, e, st.(result := if g.inverse then 0 else 1));
      }
    }
  }

  // A condition that fails exactly when another holds.
  ghost predicate Opposite(a: Cond, b: Cond) {
    forall w: World, st: State :: Eval(w, a, st) == (!Eval(w, b, st).0, Eval(w, b, st).1)
  }

  lemma SwappedTarget(g: Goal, cond: Cond, w: World, st: State)
    requires Paired(g.success, g.failure) && Opposite(g.cond, cond)
    ensures Target(w, g, st) == Target(w, SwappedGoal(g, cond), st)
  {
    assert Eval(w, g.cond, st) == (!Eval(w, cond, st).0, Eval(w, cond, st).1);
    var x := Eval(w, g.cond, st);
    MeaningSymmetric(w, g.success, g.failure, if x.0 then g.slab else g.flab, x.1);
  }

  lemma SwappedRuns(g: Goal, cond: Cond, code: seq<Ins>)
    requires Paired(g.success, g.failure) && Opposite(g.cond, cond) && Runs(SwappedGoal(g, cond), code)
    ensures Runs(g, code)
  {
    var g' := SwappedGoal(g, cond);
    forall w: World, s: Config
      ensures Lands(g.trivial, Run(w, code, s)) == Lands(g.trivial, Target(w, g, s.st))
    {
      assert Lands(g'.trivial, Run(w, code, s)) == Lands(g'.trivial, Target(w, g', s.st));
      SwappedTarget(g, cond, w, s.st);
    }
  }

  lemma SwappedEnters(success: Cont, failure: Cont, code: seq<Ins>, n0: Label)
    requires Paired(success, failure) && Enters(failure, success, code, n0)
    ensures Enters(success, failure, code, n0)
  {
    forall w: World, s: Config, l: Label | l < n0
      ensures Goto(w, code, l, s) == Meaning(w, success, failure, l, s.st)
    {
      MeaningSymmetric(w, success, failure, l, s.st);
    }
  }

  lemma SwappedCorrect(g: Goal, cond: Cond, code: seq<Ins>, n0: Label, n1: Label)
    requires Paired(g.success, g.failure) && Opposite(g.cond, cond) && Correct(SwappedGoal(g, cond), code, n0, n1)
    ensures Correct(g, code, n0, n1)
  {
    SwappedRuns(g, cond, code);
    if g.trivial.None? { SwappedEnters(g.success, g.failure, code, n0); }
    assert Needs(SwappedGoal(g, cond)) == Needs(g);
  }

  lemma OppositeBit(k: nat, id: Id)
    ensures Opposite(NotBit(k, id), Atom(Bit(k), id))
  {
    forall w: World, st: State
      ensures Eval(w, NotBit(k, id), st) == (!Eval(w, Atom(Bit(k), id), st).0, Eval(w, Atom(Bit(k), id), st).1)
    {
      NegatedBit(w(st.history, id), k);
      var x := w(st.history, id) / Pow2(k);
      assert x % 2 == 0 || x % 2 == 1;
    }
  }

  // The second operand's goal.
  function RightGoal(g: Goal, r: Cond): Goal {
    g.(cond := r, trivial := None)
  }

  // The first operand of &&: its success is the label of the second.
  function AndGoal(g: Goal, l: Cond, r: Cond, lab: Label): Goal {
    Goal(l, lab, Rest(lab, RightGoal(g, r)), g.flab, NoCont, None, None, false)
  }

  function OrGoal(g: Goal, l: Cond, r: Cond, lab: Label): Goal {
    Goal(l, g.slab, NoCont, lab, Rest(lab, RightGoal(g, r)), None, None, false)
  }

  lemma RestOk(g: Goal, r: Cond, lab: Label)
    requires GoalOk(g, lab)
    ensures ContOk(Rest(lab, RightGoal(g, r)), lab + 1)
  {
    ContOld(g.success, lab, lab);
    ContOld(g.failure, lab, lab);
    ContOkMore(g.success, lab, lab + 1);
    ContOkMore(g.failure, lab, lab + 1);
  }

  // The continuation's code seen from outside.
  lemma RestMeaning(w: World, g: Goal, r: Cond, lab: Label, l: Label, st: State)
    ensures var c := Rest(lab, RightGoal(g, r));
            && Meaning(w, c, NoCont, l, st) == Meaning(w, NoCont, c, l, st)
            && Meaning(w, c, NoCont, l, st) == (if l == lab then Target(w, RightGoal(g, r), st) else Meaning(w, g.success, g.failure, l, st))
  {
  }

  lemma AndCorrect(g: Goal, l: Cond, r: Cond, code: seq<Ins>, n0: Label, n1: Label)
    requires GoalOk(g, n0) && g.cond == And(l, r) && Correct(AndGoal(g, l, r, n0), code, n0 + 1, n1)
    ensures Correct(g, code, n0, n1)
  {
    var g' := AndGoal(g, l, r, n0);
    forall w: World, s: Config ensures Run(w, code, s) == Target(w, g, s.st) {
      assert Lands(g'.trivial, Run(w, code, s)) == Lands(g'.trivial, Target(w, g', s.st));
      var x := Eval(w, l, s.st);
      RestMeaning(w, g, r, n0, if x.0 then n0 else g.flab, x.1);
    }
    ShortCircuitLabels(g, r, g', code, n0, n1);
  }

  lemma OrCorrect(g: Goal, l: Cond, r: Cond, code: seq<Ins>, n0: Label, n1: Label)
    requires GoalOk(g, n0) && g.cond == Or(l, r) && Correct(OrGoal(g, l, r, n0), code, n0 + 1, n1)
    ensures Correct(g, code, n0, n1)
  {
    var g' := OrGoal(g, l, r, n0);
    forall w: World, s: Config ensures Run(w, code, s) == Target(w, g, s.st) {
      assert Lands(g'.trivial, Run(w, code, s)) == Lands(g'.trivial, Target(w, g', s.st));
      var x := Eval(w, l, s.st);
      RestMeaning(w, g, r, n0, if x.0 then g.slab else n0, x.1);
    }
    ShortCircuitLabels(g, r, g', code, n0, n1);
  }

  // The second operand's continuation is the only one.
  ghost predicate OnlyRest(g': Goal, c: Cont) {
    (g'.success == c && g'.failure == NoCont) || (g'.success == NoCont && g'.failure == c)
  }

  lemma ShortCircuitLabels(g: Goal, r: Cond, g': Goal, code: seq<Ins>, n0: Label, n1: Label)
    requires GoalOk(g, n0) && Correct(g', code, n0 + 1, n1)
    requires exists l :: g' == AndGoal(g, l, r, n0) || g' == OrGoal(g, l, r, n0)
    ensures Enters(g.success, g.failure, code, n0) && Labelled(g, code, n0, n1)
  {
    assert g'.trivial.None? && OnlyRest(g', Rest(n0, RightGoal(g, r)));
    ShortCircuitEnters(g, r, g', code, n0);
    ContOld(g.success, n0, n0);
    ContOld(g.failure, n0, n0);
    ShortCircuitBinds(g, r, g', code, n0, n1);
    ShortCircuitNeeds(g, r, g', n0);
    RefersMore(code, Needs(g'), Needs(g));
  }

  lemma ShortCircuitEnters(g: Goal, r: Cond, g': Goal, code: seq<Ins>, n0: Label)
    requires OnlyRest(g', Rest(n0, RightGoal(g, r))) && Enters(g'.success, g'.failure, code, n0 + 1)
    ensures Enters(g.success, g.failure, code, n0)
  {
    forall w: World, s: Config, l: Label | l < n0 ensures Goto(w, code, l, s) == Meaning(w, g.success, g.failure, l, s.st) {
      RestMeaning(w, g, r, n0, l, s.st);
      assert Goto(w, code, l, s) == Meaning(w, g'.success, g'.failure, l, s.st);
    }
  }

  lemma ShortCircuitBinds(g: Goal, r: Cond, g': Goal, code: seq<Ins>, n0: Label, n1: Label)
    requires OnlyRest(g', Rest(n0, RightGoal(g, r))) && Binds(code, g'.success, g'.failure, n0 + 1, n1)
    requires ContCount(g.success, n0) == 0 && ContCount(g.failure, n0) == 0
    ensures Binds(code, g.success, g.failure, n0, n1) && Count(code, n0) == 1
  {
    forall l: Label ensures ContCount(g'.success, l) + ContCount(g'.failure, l)
                            == (if l == n0 then 1 else 0) + ContCount(g.success, l) + ContCount(g.failure, l)
    {
    }
  }

  lemma ShortCircuitNeeds(g: Goal, r: Cond, g': Goal, n0: Label)
    requires exists l :: g' == AndGoal(g, l, r, n0) || g' == OrGoal(g, l, r, n0)
    ensures Needs(g') <= Needs(g) + {n0}
  {
    assert Needs(RightGoal(g, r)) == Needs(g);
    assert ContNeeds(Rest(n0, RightGoal(g, r))) == Needs(g) && ContNeeds(NoCont) == {};
  }

  lemma WithCond(g: Goal, cond: Cond, code: seq<Ins>, n0: Label, n1: Label)
    requires Correct(g.(cond := cond), code, n0, n1)
    requires forall w: World, st: State :: Eval(w, g.cond, st) == Eval(w, cond, st)
    ensures Correct(g, code, n0, n1)
  {
    var g' := g.(cond := cond);
    forall w: World, s: Config
      ensures Lands(g.trivial, Run(w, code, s)) == Lands(g.trivial, Target(w, g, s.st))
    {
      assert Lands(g'.trivial, Run(w, code, s)) == Lands(g'.trivial, Target(w, g', s.st));
    }
    assert Needs(g') == Needs(g);
  }

  lemma ContsRefer(g: Goal, code: seq<Ins>, n0: Label, n1: Label)
    requires ContsCode(g.success, g.failure, ContNeeds(g.success) + ContNeeds(g.failure), code, n0, n1)
    ensures ContsCode(g.success, g.failure, Needs(g), code, n0, n1)
  {
    RefersMore(code, ContNeeds(g.success) + ContNeeds(g.failure), Needs(g));
  }

  // ----- the generator -----

  lemma Appended(a: seq<Ins>, i: Ins, k: seq<Ins>)
    ensures a + [i] + k == a + ([i] + k)
  {
  }


  /** The function being compiled: its code so far, and the next label and local. */
  class Fncode {
    var code: seq<Ins>
    var labels: Label
    var locals: Local

    constructor ()
      ensures code == [] && labels == 0
    {
      code, labels, locals := [], 0, 0;
    }

    method NewLabel() returns (l: Label)
      modifies this
      ensures l == old(labels) && labels == l + 1 && code == old(code) && locals == old(locals)
    {
      l, labels := labels, labels + 1;
    }

    method NewLocal() returns (t: Local)
      modifies this
      ensures t == old(locals) && locals == t + 1 && code == old(code) && labels == old(labels)
    {
      t, locals := locals, locals + 1;
    }

    method Emit(i: Ins)
      modifies this
      ensures code == old(code) + [i] && labels == old(labels) && locals == old(locals)
    {
      code := code + [i];
    }
  }

  /** gen_condition: appends code that evaluates the condition and goes on as the
      continuations say, with the continuations' own code. */
  method GenCondition(f: Fncode, g: Goal) returns (ghost c: seq<Ins>)
    requires GoalOk(g, f.labels)
    modifies f
    ensures f.code == old(f.code) + c && f.labels >= old(f.labels) && f.locals >= old(f.locals)
    ensures Correct(g, c, old(f.labels), f.labels)
    decreases GoalSize(g), 2
  {
    match g.cond
    case Atom(test, id) =>
      if g.boolean.Some? && test.Bit? {
        c := GenBit(f, g, test.bit, id, g.inverse);
      } else {
        c := GenAtom(f, g, test, id);
      }
    case NotBit(k, id) =>
      if g.boolean.Some? {
        c := GenBit(f, g, k, id, !g.inverse);
      } else {
        OppositeBit(k, id);
        c := GenSwapped(f, g, Atom(Bit(k), id));
      }
    case Guarded(guard, test, id) => c := GenGuarded(f, g, guard, test, id);
    case And(l, r) => c := GenAnd(f, g, l, r);
    case Or(l, r) => c := GenOr(f, g, l, r);
    case Not(a) => c := GenSwapped(f, g, a);
    case IsFalse(a) => c := GenSwapped(f, g, a);
    case IsNotFalse(a) =>
      c := GenCondition(f, g.(cond := a));
      WithCond(g, a, c, old(f.labels), f.labels);
    case After(e, last) => c := GenAfter(f, g, e, last);
  }

  // The conclusions swapped.
  method GenSwapped(f: Fncode, g: Goal, cond: Cond) returns (ghost c: seq<Ins>)
    requires GoalOk(g, f.labels) && Opposite(g.cond, cond) && CondSize(cond) < CondSize(g.cond)
    modifies f
    ensures f.code == old(f.code) + c && f.labels >= old(f.labels) && f.locals >= old(f.locals)
    ensures Correct(g, c, old(f.labels), f.labels)
    decreases GoalSize(g), 1
  {
    SwappedOk(g, cond, f.labels);
    c := GenCondition(f, SwappedGoal(g, cond));
    SwappedCorrect(g, cond, c, old(f.labels), f.labels);
  }

  // A type check that fails at once, and the test; never in trivial mode.
  method GenGuarded(f: Fncode, g: Goal, guard: Id, test: Test, id: Id) returns (ghost c: seq<Ins>)
    requires GoalOk(g, f.labels) && g.cond == Guarded(guard, test, id)
    modifies f
    ensures f.code == old(f.code) + c && f.labels >= old(f.labels) && f.locals >= old(f.locals)
    ensures Correct(g, c, old(f.labels), f.labels)
    decreases GoalSize(g), 1
  {
    var t := f.NewLocal();
    f.Emit(Compute(Expr(guard), t));
    f.Emit(Branch(Fails, g.flab, t));
    ghost var tail := GenAtom(f, g.(cond := Atom(test, id), trivial := None), test, id);
    GuardCorrect(g, guard, test, id, t, tail, old(f.labels), f.labels);
    c := [Compute(Expr(guard), t)] + ([Branch(Fails, g.flab, t)] + tail);
    Appended(old(f.code), Compute(Expr(guard), t), [Branch(Fails, g.flab, t)] + tail);
  }

  // The second operand is generated where the first has succeeded.
  method GenAnd(f: Fncode, g: Goal, l: Cond, r: Cond) returns (ghost c: seq<Ins>)
    requires GoalOk(g, f.labels) && g.cond == And(l, r)
    modifies f
    ensures f.code == old(f.code) + c && f.labels >= old(f.labels) && f.locals >= old(f.locals)
    ensures Correct(g, c, old(f.labels), f.labels)
    decreases GoalSize(g), 1
  {
    var lab := f.NewLabel();
    RestOk(g, r, lab);
    c := GenCondition(f, AndGoal(g, l, r, lab));
    AndCorrect(g, l, r, c, lab, f.labels);
  }

  // The second operand is generated where the first has failed.
  method GenOr(f: Fncode, g: Goal, l: Cond, r: Cond) returns (ghost c: seq<Ins>)
    requires GoalOk(g, f.labels) && g.cond == Or(l, r)
    modifies f
    ensures f.code == old(f.code) + c && f.labels >= old(f.labels) && f.locals >= old(f.locals)
    ensures Correct(g, c, old(f.labels), f.labels)
    decreases GoalSize(g), 1
  {
    var lab := f.NewLabel();
    RestOk(g, r, lab);
    c := GenCondition(f, OrGoal(g, l, r, lab));
    OrCorrect(g, l, r, c, lab, f.labels);
  }

  // Leading components are evaluated first.
  method GenAfter(f: Fncode, g: Goal, e: Id, last: Cond) returns (ghost c: seq<Ins>)
    requires GoalOk(g, f.labels) && g.cond == After(e, last)
    modifies f
    ensures f.code == old(f.code) + c && f.labels >= old(f.labels) && f.locals >= old(f.locals)
    ensures Correct(g, c, old(f.labels), f.labels)
    decreases GoalSize(g), 1
  {
    var t := f.NewLocal();
    f.Emit(Compute(Expr(e), t));
    ghost var tail := GenCondition(f, g.(cond := last));
    AfterCorrect(g, e, last, t, tail, old(f.labels), f.labels);
    c := [Compute(Expr(e), t)] + tail;
  }

  // An atom, evaluated into a local and tested.
  method GenAtom(f: Fncode, g: Goal, test: Test, id: Id) returns (ghost c: seq<Ins>)
    requires GoalOk(g, f.labels) && g.cond == Atom(test, id)
    modifies f
    ensures f.code == old(f.code) + c && f.labels >= old(f.labels) && f.locals >= old(f.locals)
    ensures Correct(g, c, old(f.labels), f.labels)
    decreases ContSize(g.success) + ContSize(g.failure), 4
  {
    ghost var n := f.labels;
    var t := f.NewLocal();
    f.Emit(Compute(Expr(id), t));
    ghost var tail := GenTest(f, g, test, t);
    AtomCorrect(g, test, id, t, tail, n, f.labels);
    c := [Compute(Expr(id), t)] + tail;
  }

  // Branches, or computes a boolean, from the atom in t.
  method GenTest(f: Fncode, g: Goal, test: Test, t: Local) returns (ghost c: seq<Ins>)
    requires GoalOk(g, f.labels) && t < f.locals
    modifies f
    ensures f.code == old(f.code) + c && f.labels >= old(f.labels) && f.locals >= old(f.locals)
    ensures TestCode(g, test, t, c, old(f.labels), f.labels)
    decreases ContSize(g.success) + ContSize(g.failure), 3
  {
    if g.boolean.Some? && (test.Value? || test.Swapped? || test.Compare?) {
      var r := f.NewLocal();
      var i := SetFlag(g.inverse != test.Swapped?, t, r);
      f.Emit(i);
      ghost var tail := GenBoolResult(f, g, r);
      FlagResult(g, test, t, r, tail, old(f.labels), f.labels);
      Appended(old(f.code), i, tail);
      c := [i] + tail;
    } else if g.trivial.Some? {
      c := GenTrivial(f, g, test, t);
    } else {
      c := GenBranch(f, g, test, t);
    }
  }

  // The basic code: a branch, and the continuations.
  method GenBranch(f: Fncode, g: Goal, test: Test, t: Local) returns (ghost c: seq<Ins>)
    requires GoalOk(g, f.labels)
    modifies f
    ensures f.code == old(f.code) + c && f.labels >= old(f.labels) && f.locals >= old(f.locals)
    ensures TestCode(g, test, t, c, old(f.labels), f.labels)
    decreases ContSize(g.success) + ContSize(g.failure), 2
  {
    ghost var n := f.labels;
    var i := if g.success != NoCont then Branch(FailOp(test), g.flab, t) else Branch(SucceedOp(test), g.slab, t);
    f.Emit(i);
    ghost var k;
    if g.success == NoCont && g.failure == NoCont {
      f.Emit(Branch(Always, g.flab, t));
      k := [Branch(Always, g.flab, t)];
    } else {
      k := GenConts(f, g.success, g.failure);
      ContsRefer(g, k, n, f.labels);
    }
    if g.success != NoCont {
      FailBranch(g, test, t, k, n, f.labels);
    } else {
      SucceedBranch(g, test, t, k, n, f.labels);
    }
    Appended(old(f.code), i, k);
    c := [i] + k;
  }

  // A single-branch conditional: the trivial closure of gen_if.
  method GenTrivial(f: Fncode, g: Goal, test: Test, t: Local) returns (ghost c: seq<Ins>)
    requires GoalOk(g, f.labels) && g.trivial.Some? && t < f.locals
    modifies f
    ensures f.code == old(f.code) + c && f.labels >= old(f.labels) && f.locals >= old(f.locals)
    ensures TestCode(g, test, t, c, old(f.labels), f.labels)
  {
    var v := g.trivial.value;
    var other := v.success.Expr?;
    var first, second := if other then v.failure else v.success, if other then v.success else v.failure;
    var op := if other == g.inverse then SucceedOp(test) else FailOp(test);
    var r := f.NewLocal();
    var a := f.NewLocal();
    f.Emit(Compute(first, a));
    f.Emit(Copy(a, r));
    var lab := f.NewLabel();
    f.Emit(Branch(op, lab, t));
    var b := f.NewLocal();
    f.Emit(Compute(second, b));
    f.Emit(Copy(b, r));
    f.Emit(LabelIns(lab));
    f.Emit(Assign(r));
    c := TrivialCode(g, test, t, a, r, b, lab);
    SevenAppended(old(f.code), Compute(first, a), Copy(a, r), Branch(op, lab, t), Compute(second, b), Copy(b, r), LabelIns(lab), Assign(r));
    TrivialRuns(g, test, t, a, r, b, lab, lab);
  }

  lemma SevenAppended(z: seq<Ins>, a: Ins, b: Ins, c: Ins, d: Ins, e: Ins, f: Ins, g: Ins)
    ensures z + [a] + [b] + [c] + [d] + [e] + [f] + [g] == z + ([a] + ([b] + ([c] + ([d] + ([e] + ([f] + ([g] + [])))))))
  {
  }

  // A single-bit test as a boolean.
  method GenBit(f: Fncode, g: Goal, k: nat, id: Id, flip: bool) returns (ghost c: seq<Ins>)
    requires GoalOk(g, f.labels) && g.boolean.Some?
    requires g.cond == Atom(Bit(k), id) || g.cond == NotBit(k, id)
    requires flip == (g.inverse != g.cond.NotBit?)
    modifies f
    ensures f.code == old(f.code) + c && f.labels >= old(f.labels) && f.locals >= old(f.locals)
    ensures Correct(g, c, old(f.labels), f.labels)
    decreases ContSize(g.success) + ContSize(g.failure), 4
  {
    var t := f.NewLocal();
    f.Emit(Compute(Expr(id), t));
    var r := f.NewLocal();
    f.Emit(ShiftRight(k, t, r));
    f.Emit(AndOne(r));
    if flip {
      f.Emit(XorOne(r));
    }
    ghost var tail := GenBoolResult(f, g, r);
    BitResult(g, k, id, flip, t, r, tail, old(f.labels), f.labels);
    c := BitCode(k, id, flip, t, r, tail);
    BitAppended(old(f.code), k, id, flip, t, r, tail);
  }

  lemma BitAppended(z: seq<Ins>, k: nat, id: Id, flip: bool, t: Local, r: Local, tail: seq<Ins>)
    ensures z + [Compute(Expr(id), t)] + [ShiftRight(k, t, r)] + [AndOne(r)] + (if flip then [XorOne(r)] else []) + tail
            == z + BitCode(k, id, flip, t, r, tail)
  {
  }

  // bool_result: the result is in r; other branches may still need the continuations.
  method GenBoolResult(f: Fncode, g: Goal, r: Local) returns (ghost c: seq<Ins>)
    requires GoalOk(g, f.labels) && g.boolean.Some?
    modifies f
    ensures f.code == old(f.code) + c && f.labels >= old(f.labels) && f.locals >= old(f.locals)
    ensures BoolCode(g, r, c, old(f.labels), f.labels)
    decreases ContSize(g.success) + ContSize(g.failure), 2
  {
    ghost var n := f.labels;
    f.Emit(Assign(r));
    f.Emit(Branch(Always, g.boolean.value, r));
    ghost var k := GenConts(f, g.success, g.failure);
    ContsRefer(g, k, n, f.labels);
    BoolResult(g, r, k, n, f.labels);
    c := [Assign(r)] + ([Branch(Always, g.boolean.value, r)] + k);
  }

  // success() and failure(), where given.
  method GenConts(f: Fncode, success: Cont, failure: Cont) returns (ghost c: seq<Ins>)
    requires ContOk(success, f.labels) && ContOk(failure, f.labels) && Paired(success, failure)
    modifies f
    ensures f.code == old(f.code) + c && f.labels >= old(f.labels) && f.locals >= old(f.locals)
    ensures ContsCode(success, failure, ContNeeds(success) + ContNeeds(failure), c, old(f.labels), f.labels)
    decreases ContSize(success) + ContSize(failure), 1
  {
    hide ContsCode, BlockCode, ContNeeds;
    ghost var n := f.labels;
    if success.NoCont? {
      OneOrNone(failure, n);
      if failure.NoCont? {
        c := [];
      } else {
        c := GenCont(f, failure);
      }
    } else if failure.NoCont? {
      OneOrNone(success, n);
      c := GenCont(f, success);
    } else {
      var t := GenBlock(f, success);
      var u := GenBlock(f, failure);
      TwoBlocks(success, failure, t, u, n, f.labels);
      c := BlockCode(success, t) + BlockCode(failure, u);
    }
  }

  // One continuation.
  method GenCont(f: Fncode, k: Cont) returns (ghost c: seq<Ins>)
    requires ContOk(k, f.labels) && k != NoCont
    modifies f
    ensures f.code == old(f.code) + c && f.labels >= old(f.labels) && f.locals >= old(f.locals)
    ensures ContsCode(k, NoCont, ContNeeds(k), c, old(f.labels), f.labels)
    ensures ContsCode(NoCont, k, ContNeeds(k), c, old(f.labels), f.labels)
    decreases ContSize(k), 0
  {
    ghost var n := f.labels;
    if k.Block? {
      var t := GenBlock(f, k);
      OneBlock(k, t, n, f.labels);
      c := BlockCode(k, t);
    } else {
      f.Emit(LabelIns(k.entry));
      ghost var tail := GenCondition(f, k.goal);
      RestEnters(k, tail, n, f.labels);
      c := [LabelIns(k.entry)] + tail;
    }
    EitherSide(k, ContNeeds(k), c, n, f.labels);
  }

  // A label, the body, and the branch that leaves it.
  method GenBlock(f: Fncode, k: Cont) returns (t: Local)
    requires k.Block?
    modifies f
    ensures f.code == old(f.code) + BlockCode(k, t) && f.labels == old(f.labels) && f.locals >= old(f.locals)
  {
    f.Emit(LabelIns(k.entry));
    t := f.NewLocal();
    if k.body.Some? {
      f.Emit(Compute(k.body.value, t));
      if k.assign {
        f.Emit(Assign(t));
      }
    }
    f.Emit(Branch(Always, k.next, t));
  }

  // ----- if -----

  /** What an if does: the condition by short-circuit rules, then one body. With no
      bodies the result is the condition's truth value; with two, the body's value. */
  function IfMeaning(w: World, cond: Cond, success: Option<Clist>, failure: Option<Clist>, st: State): State {
    var x := Eval(w, cond, st);
    if success.None? && failure.None? then x.1.(result := if x.0 then 1 else 0)
    else RunBlock(w, if x.0 then success else failure, success.Some? && failure.Some?, x.1)
  }

  // Every branch goes to a label that is bound exactly once, and all labels are new.
  ghost predicate LabelsResolve(code: seq<Ins>, n0: Label, n1: Label) {
    && (forall i :: 0 <= i < |code| && code[i].Branch? ==> Count(code, code[i].target) == 1)
    && (forall l: Label :: Count(code, l) <= 1)
    && (forall l: Label :: Count(code, l) > 0 ==> n0 <= l < n1)
  }

  ghost predicate IfCode(cond: Cond, success: Option<Clist>, failure: Option<Clist>, code: seq<Ins>) {
    forall w: World, s: Config :: Run(w, code, s) == Done(IfMeaning(w, cond, success, failure, s.st))
  }

  lemma {:induction false} RunThenLabel(w: World, code: seq<Ins>, lab: Label, s: Config)
    ensures var o := Run(w, code, s);
            Run(w, code + [LabelIns(lab)], s) == if o.Exit? && o.l == lab then Done(o.st) else o
    decreases |code|
  {
    if code == [] {
      assert code + [LabelIns(lab)] == [LabelIns(lab)] + [];
      RunCons(w, LabelIns(lab), [], s);
    } else {
      assert (code + [LabelIns(lab)])[1..] == code[1..] + [LabelIns(lab)];
      if Jumps(code[0], s) {
        GotoThenLabel(w, code[1..], code[0].target, lab, s);
      } else {
        RunThenLabel(w, code[1..], lab, Step(w, code[0], s));
      }
    }
  }

  lemma {:induction false} GotoThenLabel(w: World, code: seq<Ins>, l: Label, lab: Label, s: Config)
    ensures var o := Goto(w, code, l, s);
            Goto(w, code + [LabelIns(lab)], l, s) == if o.Exit? && o.l == lab then Done(o.st) else o
    decreases |code|
  {
    if code == [] {
      assert code + [LabelIns(lab)] == [LabelIns(lab)] + [];
      GotoCons(w, LabelIns(lab), [], l, s);
    } else {
      assert (code + [LabelIns(lab)])[1..] == code[1..] + [LabelIns(lab)];
      if code[0] == LabelIns(l) {
        RunThenLabel(w, code[1..], lab, s);
      } else {
        GotoThenLabel(w, code[1..], l, lab, s);
      }
    }
  }

  // The goal of gen_if, with its labels at n, n + 1 and n + 2.
  function IfGoal(cond: Cond, success: Option<Clist>, failure: Option<Clist>, n: Label): Goal {
    var boolean := success.None? && failure.None?;
    var s := if boolean then Some(Constant(1)) else success;
    var f := if boolean then Some(Constant(0)) else failure;
    var both := s.Some? && f.Some?;
    Goal(cond, n, Block(n, s, both, n + 2), n + 1, Block(n + 1, f, both, n + 2),
         if boolean then Some(n + 2) else None,
         if both && (!s.value.Expr? || !f.value.Expr?) then Some(Trivial(s.value, f.value, n + 2)) else None,
         false)
  }

  lemma IfGoalOk(cond: Cond, success: Option<Clist>, failure: Option<Clist>, n: Label)
    ensures GoalOk(IfGoal(cond, success, failure, n), n + 3)
  {
  }

  lemma IfCorrect(cond: Cond, success: Option<Clist>, failure: Option<Clist>, c: seq<Ins>, n: Label, n1: Label)
    requires Correct(IfGoal(cond, success, failure, n), c, n + 3, n1)
    ensures IfCode(cond, success, failure, c + [LabelIns(n + 2)])
    ensures LabelsResolve(c + [LabelIns(n + 2)], n, n1)
  {
    var g := IfGoal(cond, success, failure, n);
    var code := c + [LabelIns(n + 2)];
    forall w: World, s: Config ensures Run(w, code, s) == Done(IfMeaning(w, cond, success, failure, s.st)) {
      RunThenLabel(w, c, n + 2, s);
      assert Lands(g.trivial, Run(w, c, s)) == Lands(g.trivial, Target(w, g, s.st));
    }
    forall l: Label ensures Count(code, l) == Count(c, l) + if l == n + 2 then 1 else 0 {
      CountConcat(c, [LabelIns(n + 2)], l);
    }
    assert Needs(g) == {n, n + 1, n + 2};
    forall i | 0 <= i < |code| && code[i].Branch? ensures Count(code, code[i].target) == 1 {
      assert code[i] == c[i];
    }
  }

  /** gen_if: the appended code does what the if means, and its labels resolve. */
  method GenIf(f: Fncode, cond: Cond, success: Option<Clist>, failure: Option<Clist>) returns (ghost c: seq<Ins>)
    modifies f
    ensures f.code == old(f.code) + c && f.labels >= old(f.labels)
    ensures IfCode(cond, success, failure, c)
    ensures LabelsResolve(c, old(f.labels), f.labels)
  {
    var slab := f.NewLabel();
    var flab := f.NewLabel();
    var endlab := f.NewLabel();
    IfGoalOk(cond, success, failure, slab);
    ghost var body := GenCondition(f, IfGoal(cond, success, failure, slab));
    f.Emit(LabelIns(endlab));
    IfCorrect(cond, success, failure, body, slab, f.labels);
    c := body + [LabelIns(endlab)];
  }

  // ----- while -----

  /** The state in which a while loop ends after exactly n iterations, if it does. */
  function WhileMeaning(w: World, cond: Cond, body: Clist, st: State, n: nat): Option<State>
    decreases n
  {
    var x := Eval(w, cond, st);
    if !x.0 then (if n == 0 then Some(x.1) else None)
    else if n == 0 then None
    else WhileMeaning(w, cond, body, RunBlock(w, Some(body), false, x.1), n - 1)
  }

  // The code, entered at loop, comes back there n times and then ends in t.
  ghost predicate LoopEnds(w: World, code: seq<Ins>, loop: Label, s: Config, n: nat, t: State)
    decreases n
  {
    if n == 0 then Goto(w, code, loop, s) == Done(t)
    else exists s': Config :: Goto(w, code, loop, s) == Exit(loop, s'.st) && LoopEnds(w, code, loop, s', n - 1, t)
  }

  // One round: out of the loop, or back to its start after the body.
  ghost predicate LoopRound(code: seq<Ins>, loop: Label, cond: Cond, body: Clist) {
    forall w: World, s: Config :: RoundFrom(code, loop, cond, body, w, s)
  }

  ghost predicate RoundFrom(code: seq<Ins>, loop: Label, cond: Cond, body: Clist, w: World, s: Config) {
    var x := Eval(w, cond, s.st);
    Goto(w, code, loop, s) == if x.0 then Exit(loop, RunBlock(w, Some(body), false, x.1)) else Done(x.1)
  }

  /** The generated loop ends after n iterations in state t exactly when the while loop does. */
  lemma {:induction false} LoopMeaning(w: World, code: seq<Ins>, loop: Label, cond: Cond, body: Clist, s: Config, n: nat, t: State)
    requires LoopRound(code, loop, cond, body)
    ensures LoopEnds(w, code, loop, s, n, t) <==> WhileMeaning(w, cond, body, s.st, n) == Some(t)
    decreases n
  {
    assert RoundFrom(code, loop, cond, body, w, s);
    var x := Eval(w, cond, s.st);
    if n > 0 && x.0 {
      var next := RunBlock(w, Some(body), false, x.1);
      assert s.(st := next).st == next;
      forall s': Config | s'.st == next
        ensures LoopEnds(w, code, loop, s', n - 1, t) <==> WhileMeaning(w, cond, body, next, n - 1) == Some(t)
      {
        LoopMeaning(w, code, loop, cond, body, s', n - 1, t);
      }
      assert Goto(w, code, loop, s) == Exit(loop, s.(st := next).st);
    }
  }

  // The goal of gen_while, with its labels from n on: loop, main, exit, end.
  function WhileGoal(cond: Cond, body: Clist, n: Label): Goal {
    Goal(cond, n + 1, Block(n + 1, Some(body), false, n), n + 2, Block(n + 2, None, false, n + 3), None, None, false)
  }

  lemma WhileCorrect(cond: Cond, body: Clist, c: seq<Ins>, n: Label, n1: Label)
    requires Correct(WhileGoal(cond, body, n), c, n + 4, n1)
    ensures var code := [LabelIns(n)] + (c + [LabelIns(n + 3)]);
            LoopRound(code, n, cond, body) && LabelsResolve(code, n, n1)
  {
    var g := WhileGoal(cond, body, n);
    var rest := c + [LabelIns(n + 3)];
    var code := [LabelIns(n)] + rest;
    forall w: World, s: Config ensures RoundFrom(code, n, cond, body, w, s) {
      GotoCons(w, LabelIns(n), rest, n, s);
      RunThenLabel(w, c, n + 3, s);
      assert Lands(g.trivial, Run(w, c, s)) == Lands(g.trivial, Target(w, g, s.st));
    }
    forall l: Label ensures Count(code, l) == Count(c, l) + if l == n || l == n + 3 then 1 else 0 {
      CountCons(LabelIns(n), rest, l);
      CountConcat(c, [LabelIns(n + 3)], l);
    }
    assert Needs(g) == {n + 1, n + 2, n, n + 3};
    forall i | 0 <= i < |code| && code[i].Branch? ensures Count(code, code[i].target) == 1 {
      assert code[i] == c[i - 1];
    }
  }

  /** gen_while: each round of the appended code is one of the loop. */
  method GenWhile(f: Fncode, cond: Cond, body: Clist) returns (ghost c: seq<Ins>, loop: Label)
    modifies f
    ensures f.code == old(f.code) + c && loop == old(f.labels)
    ensures LoopRound(c, loop, cond, body)
    ensures LabelsResolve(c, old(f.labels), f.labels)
  {
    loop := f.NewLabel();
    var mainlab := f.NewLabel();
    var exitlab := f.NewLabel();
    var endlab := f.NewLabel();
    f.Emit(LabelIns(loop));
    ghost var g := GenCondition(f, WhileGoal(cond, body, loop));
    f.Emit(LabelIns(endlab));
    WhileCorrect(cond, body, g, loop, f.labels);
    c := [LabelIns(loop)] + (g + [LabelIns(endlab)]);
  }
}
