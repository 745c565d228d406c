/** The meaning the header of inference.mud gives to constraints (lines 131 to 170),
    and exactly when apply_iconstraint agrees with it. The header's last rule keeps the
    types of a variable that a satisfied constraint does not mention. */
module TypeEquations {
  import opened Prelude
  import opened TypeInference

  /** What the equations of rule b let v contain, for one constraint. */
  ghost predicate Equation(c: Constraint, ts: Typesets, v: Var, t: BaseType)
    requires v < |ts|
  {
    && Satisfied(c, ts)
    && (|| (c.dest == Some(v) && t in Eval(c.consequence, ts))
        || Mentioned(c, ts, v, t)
        || (!Concerns(c, v) && t in ts[v]))
  }

  // A condition on v leaves t.
  ghost predicate Mentioned(c: Constraint, ts: Typesets, v: Var, t: BaseType) {
    exists cond :: cond in c.conditions && v in cond.vars && t in Eval(cond, ts)
  }

  ghost predicate Equations(ic: Iconstraint, ts: Typesets, v: Var, t: BaseType)
    requires v < |ts|
  {
    exists c :: c in ic.constraints && Equation(c, ts, v, t)
  }

  /** type_after: rule a for variables no constraint mentions, rules b and c for the others. */
  ghost function TypeAfter(ic: Iconstraint, ts: Typesets, v: Var): Itype
    requires v < |ts|
  {
    if v in ic.vars then set t: BaseType | Equations(ic, ts, v, t) else ts[v]
  }

  /** What apply_iconstraint computes is never more than the header's types. */
  lemma CodeIsFiner(ic: Iconstraint, ts: Typesets, v: Var)
    requires v < |ts|
    ensures After(ic, ts, v) <= TypeAfter(ic, ts, v)
  {
    if v in ic.vars {
      forall t | Implied(ic, ts, v, t) ensures Equations(ic, ts, v, t) {
        var c :| c in ic.constraints && Contributes(c, ts, v, t);
        assert Equation(c, ts, v, t);
      }
    }
  }

  ghost predicate Agree(ic: Iconstraint, ts: Typesets) {
    forall v :: 0 <= v < |ts| ==> After(ic, ts, v) == TypeAfter(ic, ts, v)
  }

  // ----- instructions, before they are constraints -----

  function ArgTypes(arg: Arg, ts: Typesets): Itype {
    match arg
    case Variable(v) => if v < |ts| then ts[v] else Any()
    case Constant(types) => types
  }

  // The arguments may have the types the signature asks for.
  ghost predicate Applicable(sig: Sig, args: seq<Arg>, ts: Typesets)
    requires sig.Fits(|args|)
  {
    forall k :: 0 <= k < |args| ==> sig.Param(k) * ArgTypes(args[k], ts) != {}
  }

  function ResultTypes(sig: Sig, args: seq<Arg>, ts: Typesets): Itype
    requires sig.Fits(|args|)
  {
    match sig.ret
    case Types(types) => types
    case SameAs(k) => ArgTypes(args[k], ts) * if args[k].Variable? then sig.Param(LastUse(args, k)) else Any()
  }

  ghost predicate Suits(i: Instruction, ts: Typesets) {
    i.Valid(|ts|)
  }

  // An applicable signature takes v with type t as an argument.
  ghost predicate AsArgument(i: Instruction, ts: Typesets, v: Var, t: BaseType)
    requires Suits(i, ts) && v < |ts|
  {
    t in ts[v] && exists sig, k :: sig in i.sigs && Applicable(sig, i.args, ts) && TakesAt(sig, i.args, k, v, t)
  }

  predicate TakesAt(sig: Sig, args: seq<Arg>, k: int, v: Var, t: BaseType)
    requires sig.Fits(|args|)
  {
    0 <= k < |args| && args[k] == Variable(v) && t in sig.Param(k)
  }

  // An applicable signature may give a result of type t.
  ghost predicate AsResult(i: Instruction, ts: Typesets, t: BaseType)
    requires Suits(i, ts)
  {
    exists sig :: sig in i.sigs && Applicable(sig, i.args, ts) && t in ResultTypes(sig, i.args, ts)
  }

  // Closures may assign a variable other than the destination.
  ghost predicate Escapes(i: Instruction) {
    exists v :: v in i.clobbers && Some(v) != i.dest
  }

  predicate Speaks(i: Instruction, v: Var) {
    Some(v) == i.dest || Variable(v) in i.args
  }

  // The signatures leave v the type t.
  ghost predicate Leaves(i: Instruction, ts: Typesets, v: Var, t: BaseType)
    requires Suits(i, ts) && v < |ts|
  {
    if Some(v) == i.dest then AsResult(i, ts, t) else AsArgument(i, ts, v, t)
  }

  // No variable of the instruction that the call leaves alone loses a type.
  ghost predicate NarrowsNothing(i: Instruction, ts: Typesets)
    requires Suits(i, ts)
  {
    forall v: Var, t :: v < |ts| && t in ts[v] && Speaks(i, v) && (Some(v) == i.dest || v !in i.clobbers) ==> Leaves(i, ts, v, t)
  }

  // A destination that is also an argument keeps what is accepted.
  ghost predicate ResultCovers(i: Instruction, ts: Typesets)
    requires Suits(i, ts)
  {
    i.dest.Some? ==> forall t :: AsArgument(i, ts, i.dest.value, t) ==> AsResult(i, ts, t)
  }

  ghost predicate Generated(i: Instruction, ic: Iconstraint, n: nat) {
    i.Valid(n) && WellFormed(ic, n) && FromInstruction(ic.constraints, i.sigs, i.clobbers, i.args, i.dest)
  }

  // ----- what generated constraints contribute -----

  lemma InstanceSatisfied(c: Constraint, sig: Sig, i: Instruction, ts: Typesets)
    requires Suits(i, ts) && sig in i.sigs && IsInstance(c, sig, i.args, i.dest)
    ensures Satisfied(c, ts) <==> Applicable(sig, i.args, ts)
  {
    var n := |i.args|;
    forall k | 0 <= k < n ensures Eval(c.conditions[n-1-k], ts) == sig.Param(k) * ArgTypes(i.args[k], ts) {
      ConditionEval(sig.Param(k), i.args[k], ts);
    }
    if Applicable(sig, i.args, ts) {
      forall cond | cond in c.conditions ensures Eval(cond, ts) != {} {
        var j :| 0 <= j < n && c.conditions[j] == cond;
        var k := n-1-j;
        assert c.conditions[n-1-k] == cond && sig.Param(k) * ArgTypes(i.args[k], ts) != {};
      }
    }
    if Satisfied(c, ts) {
      forall k | 0 <= k < n ensures sig.Param(k) * ArgTypes(i.args[k], ts) != {} {
        assert c.conditions[n-1-k] in c.conditions;
      }
    }
  }

  lemma ConditionEval(types: Itype, arg: Arg, ts: Typesets)
    requires arg.Variable? ==> arg.v < |ts|
    ensures Eval(MakeCondition(types, arg), ts) == types * ArgTypes(arg, ts)
  {
  }

  lemma InstanceMentions(c: Constraint, sig: Sig, i: Instruction, ts: Typesets, v: Var, t: BaseType)
    requires Suits(i, ts) && sig in i.sigs && IsInstance(c, sig, i.args, i.dest) && v < |ts|
    ensures Mentioned(c, ts, v, t) <==> t in ts[v] && exists k :: TakesAt(sig, i.args, k, v, t)
  {
    if Mentioned(c, ts, v, t) { MentionTakes(c, sig, i, ts, v, t); }
    if t in ts[v] && exists k :: TakesAt(sig, i.args, k, v, t) {
      var k :| TakesAt(sig, i.args, k, v, t);
      var cond := c.conditions[|i.args|-1-k];
      assert cond == MakeCondition(sig.Param(k), i.args[k]);
      assert cond in c.conditions && v in cond.vars && t in Eval(cond, ts);
    }
  }

  lemma MentionTakes(c: Constraint, sig: Sig, i: Instruction, ts: Typesets, v: Var, t: BaseType)
    requires Suits(i, ts) && sig in i.sigs && IsInstance(c, sig, i.args, i.dest) && v < |ts|
    requires Mentioned(c, ts, v, t)
    ensures t in ts[v] && exists k :: TakesAt(sig, i.args, k, v, t)
  {
    var n := |i.args|;
    var cond :| cond in c.conditions && v in cond.vars && t in Eval(cond, ts);
    var j :| 0 <= j < n && c.conditions[j] == cond;
    var k := n - 1 - j;
    assert c.conditions[n-1-k] == MakeCondition(sig.Param(k), i.args[k]);
    assert TakesAt(sig, i.args, k, v, t);
  }

  lemma InstanceResult(c: Constraint, sig: Sig, i: Instruction, ts: Typesets)
    requires Suits(i, ts) && sig in i.sigs && IsInstance(c, sig, i.args, i.dest) && i.dest.Some?
    ensures Eval(c.consequence, ts) == ResultTypes(sig, i.args, ts)
  {
    match sig.ret
    case Types(types) =>
    case SameAs(k) =>
      ConditionEval(if i.args[k].Variable? then sig.Param(LastUse(i.args, k)) else Any(), i.args[k], ts);
      assert ResultTypes(sig, i.args, ts) == Eval(c.consequence, ts);
  }

  // What one instance of a signature says about a variable, as the code and the header read it.
  lemma InstanceSays(c: Constraint, sig: Sig, i: Instruction, ts: Typesets, v: Var, t: BaseType)
    requires Suits(i, ts) && sig in i.sigs && IsInstance(c, sig, i.args, i.dest) && v < |ts|
    ensures Contributes(c, ts, v, t) <==>
            Applicable(sig, i.args, ts) &&
            if Some(v) == i.dest then t in ResultTypes(sig, i.args, ts)
            else t in ts[v] && exists k :: TakesAt(sig, i.args, k, v, t)
    ensures Equation(c, ts, v, t) <==>
            Applicable(sig, i.args, ts) &&
            if Some(v) == i.dest then t in ResultTypes(sig, i.args, ts) || (t in ts[v] && exists k :: TakesAt(sig, i.args, k, v, t))
            else if Variable(v) in i.args then t in ts[v] && exists k :: TakesAt(sig, i.args, k, v, t)
            else t in ts[v]
  {
    InstanceSatisfied(c, sig, i, ts);
    InstanceMentions(c, sig, i, ts, v, t);
    InstanceConcerns(c, sig, i, v);
    if i.dest.Some? { InstanceResult(c, sig, i, ts); }
  }

  lemma ClobberSays(u: Var, ts: Typesets, v: Var, t: BaseType)
    requires v < |ts|
    ensures Contributes(ClobberConstraint(u), ts, v, t) <==> u == v
    ensures Equation(ClobberConstraint(u), ts, v, t) <==> u == v || t in ts[v]
  {
    AnyHasAll(t);
  }

  lemma ImpliedExactly(i: Instruction, ic: Iconstraint, ts: Typesets, v: Var, t: BaseType)
    requires Suits(i, ts) && Generated(i, ic, |ts|) && v < |ts|
    ensures Implied(ic, ts, v, t) <==> (v in i.clobbers && Some(v) != i.dest) || Leaves(i, ts, v, t)
  {
    if Implied(ic, ts, v, t) { ImpliedLeaves(i, ic, ts, v, t); }
    if v in i.clobbers && Some(v) != i.dest {
      ClobberSays(v, ts, v, t);
      assert ClobberConstraint(v) in ic.constraints;
    }
    if Leaves(i, ts, v, t) {
      var sig :| sig in i.sigs && Applicable(sig, i.args, ts)
                 && if Some(v) == i.dest then t in ResultTypes(sig, i.args, ts) else exists k :: TakesAt(sig, i.args, k, v, t);
      var c :| c in ic.constraints && IsInstance(c, sig, i.args, i.dest);
      InstanceSays(c, sig, i, ts, v, t);
    }
  }

  lemma ImpliedLeaves(i: Instruction, ic: Iconstraint, ts: Typesets, v: Var, t: BaseType)
    requires Suits(i, ts) && Generated(i, ic, |ts|) && v < |ts| && Implied(ic, ts, v, t)
    ensures (v in i.clobbers && Some(v) != i.dest) || Leaves(i, ts, v, t)
  {
    var c :| c in ic.constraints && Contributes(c, ts, v, t);
    if FromSig(c, i.sigs, i.args, i.dest) {
      var sig :| sig in i.sigs && IsInstance(c, sig, i.args, i.dest);
      InstanceSays(c, sig, i, ts, v, t);
    } else {
      var u :| u in i.clobbers && Some(u) != i.dest && c == ClobberConstraint(u);
      ClobberSays(u, ts, v, t);
    }
  }

  // The header also keeps what an escaping call or an argument position allows.
  ghost predicate Kept(i: Instruction, ts: Typesets, v: Var, t: BaseType)
    requires Suits(i, ts) && v < |ts|
  {
    (Escapes(i) && t in ts[v]) || (Some(v) == i.dest && AsArgument(i, ts, v, t))
  }

  lemma EquationsExactly(i: Instruction, ic: Iconstraint, ts: Typesets, v: Var, t: BaseType)
    requires Suits(i, ts) && Generated(i, ic, |ts|) && v < |ts|
    requires Speaks(i, v) && (Some(v) == i.dest || v !in i.clobbers)
    ensures Equations(ic, ts, v, t) <==> Leaves(i, ts, v, t) || Kept(i, ts, v, t)
  {
    if Equations(ic, ts, v, t) { EquationLeaves(i, ic, ts, v, t); }
    if Leaves(i, ts, v, t) || Kept(i, ts, v, t) { KeptInEquations(i, ic, ts, v, t); }
  }

  lemma EquationLeaves(i: Instruction, ic: Iconstraint, ts: Typesets, v: Var, t: BaseType)
    requires Suits(i, ts) && Generated(i, ic, |ts|) && v < |ts|
    requires Speaks(i, v) && (Some(v) == i.dest || v !in i.clobbers)
    requires Equations(ic, ts, v, t)
    ensures Leaves(i, ts, v, t) || Kept(i, ts, v, t)
  {
    var c :| c in ic.constraints && Equation(c, ts, v, t);
    if FromSig(c, i.sigs, i.args, i.dest) {
      var sig :| sig in i.sigs && IsInstance(c, sig, i.args, i.dest);
      InstanceSays(c, sig, i, ts, v, t);
      hide Equation, IsInstance, FromInstruction;
      if Some(v) == i.dest && t in ResultTypes(sig, i.args, ts) {
        assert AsResult(i, ts, t);
      } else {
        var k :| TakesAt(sig, i.args, k, v, t);
        assert AsArgument(i, ts, v, t);
      }
    } else {
      var u :| u in i.clobbers && Some(u) != i.dest && c == ClobberConstraint(u);
      ClobberSays(u, ts, v, t);
    }
  }

  lemma KeptInEquations(i: Instruction, ic: Iconstraint, ts: Typesets, v: Var, t: BaseType)
    requires Suits(i, ts) && Generated(i, ic, |ts|) && v < |ts|
    requires Speaks(i, v) && (Leaves(i, ts, v, t) || Kept(i, ts, v, t))
    ensures Equations(ic, ts, v, t)
  {
    if Leaves(i, ts, v, t) {
      ImpliedExactly(i, ic, ts, v, t);
      var c :| c in ic.constraints && Contributes(c, ts, v, t);
      assert Equation(c, ts, v, t);
    } else if Escapes(i) && t in ts[v] {
      var u :| u in i.clobbers && Some(u) != i.dest;
      ClobberSays(u, ts, v, t);
      assert ClobberConstraint(u) in ic.constraints;
    } else {
      var sig, k :| sig in i.sigs && Applicable(sig, i.args, ts) && TakesAt(sig, i.args, k, v, t);
      var c :| c in ic.constraints && IsInstance(c, sig, i.args, i.dest);
      InstanceSays(c, sig, i, ts, v, t);
    }
  }

  lemma VarsExactly(i: Instruction, ic: Iconstraint, n: nat, v: Var)
    requires Generated(i, ic, n)
    ensures v in ic.vars <==> Speaks(i, v) || (v in i.clobbers && Some(v) != i.dest)
  {
    if v in ic.vars && !Speaks(i, v) && v !in i.clobbers {
      NotConcerned(ic, i, v);
    }
    if Speaks(i, v) {
      var sig := i.sigs[0];
      assert sig in i.sigs;
      var c :| c in ic.constraints && IsInstance(c, sig, i.args, i.dest);
      InstanceConcerns(c, sig, i, v);
    }
    if v in i.clobbers && Some(v) != i.dest {
      assert ClobberConstraint(v) in ic.constraints && Concerns(ClobberConstraint(v), v);
    }
  }

  // Both readings agree on v when the header keeps nothing more.
  lemma AgreeAt(i: Instruction, ic: Iconstraint, ts: Typesets, v: Var)
    requires Suits(i, ts) && Generated(i, ic, |ts|) && v < |ts|
    ensures After(ic, ts, v) == TypeAfter(ic, ts, v) <==>
            (Speaks(i, v) && (Some(v) == i.dest || v !in i.clobbers) ==>
               forall t :: Kept(i, ts, v, t) ==> Leaves(i, ts, v, t))
  {
    VarsExactly(i, ic, |ts|, v);
    CodeIsFiner(ic, ts, v);
    forall t ensures t in After(ic, ts, v) <==> if v in ic.vars then Implied(ic, ts, v, t) else t in ts[v] {}
    forall t ensures t in TypeAfter(ic, ts, v) <==> if v in ic.vars then Equations(ic, ts, v, t) else t in ts[v] {}
    if Speaks(i, v) && (Some(v) == i.dest || v !in i.clobbers) {
      forall t ensures t in After(ic, ts, v) <==> Leaves(i, ts, v, t) { ImpliedExactly(i, ic, ts, v, t); }
      forall t ensures t in TypeAfter(ic, ts, v) <==> Leaves(i, ts, v, t) || Kept(i, ts, v, t) { EquationsExactly(i, ic, ts, v, t); }
      SameElements(After(ic, ts, v), TypeAfter(ic, ts, v));
    } else if v in ic.vars {
      forall t | t in TypeAfter(ic, ts, v) ensures t in After(ic, ts, v) { ImpliedExactly(i, ic, ts, v, t); }
    }
  }

  lemma SameElements(a: Itype, b: Itype)
    ensures a == b <==> forall t :: t in a <==> t in b
  {
  }

  /** Exactly when the code computes the header's types for the constraints of an
      instruction: a call that escapes may not narrow the type of any variable it leaves
      alone, and a destination among the arguments must take every type it is accepted with. */
  lemma ReadingsAgree(i: Instruction, ic: Iconstraint, ts: Typesets)
    requires Suits(i, ts) && Generated(i, ic, |ts|)
    ensures Agree(ic, ts) <==> (Escapes(i) ==> NarrowsNothing(i, ts)) && ResultCovers(i, ts)
  {
    forall v | 0 <= v < |ts|
      ensures After(ic, ts, v) == TypeAfter(ic, ts, v) <==>
              (Speaks(i, v) && (Some(v) == i.dest || v !in i.clobbers) ==>
                 forall t :: Kept(i, ts, v, t) ==> Leaves(i, ts, v, t))
    {
      AgreeAt(i, ic, ts, v);
    }
    hide After, TypeAfter, AsArgument, AsResult, Escapes;
    if (Escapes(i) ==> NarrowsNothing(i, ts)) && ResultCovers(i, ts) {
      assert Agree(ic, ts);
    }
    if Agree(ic, ts) {
      if Escapes(i) {
        forall v: Var, t | v < |ts| && t in ts[v] && Speaks(i, v) && (Some(v) == i.dest || v !in i.clobbers) ensures Leaves(i, ts, v, t) {
          assert After(ic, ts, v) == TypeAfter(ic, ts, v);
          assert Kept(i, ts, v, t);
        }
      }
      if i.dest.Some? {
        forall t | AsArgument(i, ts, i.dest.value, t) ensures AsResult(i, ts, t) {
          assert After(ic, ts, i.dest.value) == TypeAfter(ic, ts, i.dest.value);
          assert Kept(i, ts, i.dest.value, t);
        }
      }
    }
  }

  /** So they agree on every instruction that does not escape and does not overwrite one
      of its arguments, whatever the typesets. */
  lemma SimpleInstructionsAgree(i: Instruction, ic: Iconstraint, ts: Typesets)
    requires Suits(i, ts) && Generated(i, ic, |ts|)
    requires !Escapes(i) && (i.dest.Some? ==> Variable(i.dest.value) !in i.args)
    ensures Agree(ic, ts)
  {
    ReadingsAgree(i, ic, ts);
  }

  /** A call through a variable that closures do not assign, while they may assign another:
      the code drops all types but function, the header keeps them. */
  lemma EscapingCallNarrows(i: Instruction, ic: Iconstraint, ts: Typesets)
    requires i == Instruction([Sig([{FunctionType}], false, Types(Any()))], [Variable(0)], None, [1])
    requires ts == [{FunctionType, StringType}, Any()] && Generated(i, ic, 2)
    ensures StringType !in After(ic, ts, 0) && StringType in TypeAfter(ic, ts, 0)
    ensures !Agree(ic, ts)
  {
    VarsExactly(i, ic, 2, 0);
    var u: Var := 1;
    assert i.args[0] == Variable(0) && i.clobbers[0] == u && Some(u) != i.dest;
    assert Speaks(i, 0) && StringType in ts[0] && Kept(i, ts, 0, StringType);
    ImpliedExactly(i, ic, ts, 0, StringType);
    EquationsExactly(i, ic, ts, 0, StringType);
    assert StringType in TypeAfter(ic, ts, 0);
  }
}
