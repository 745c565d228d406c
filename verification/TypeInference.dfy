/** The type-constraint solver of inference.mud: what applying an instruction's
    constraints computes, and the least solution of the flow equations. */
module TypeInference {
  import opened Prelude

  type Var = nat

  datatype BaseType =
    | FunctionType | NonZero | StringType | VectorType | NullType | SymbolType
    | TableType | PairType | Bigint | Float | Other | Zero

  // A set of base types (itype_xxx).
  type Itype = set<BaseType>

  function Any(): Itype {
    {FunctionType, NonZero, StringType, VectorType, NullType, SymbolType, TableType, PairType, Bigint, Float, Other, Zero}
  }

  lemma AnyHasAll(t: BaseType)
    ensures t in Any()
  {
    match t
    case FunctionType => case NonZero => case StringType => case VectorType => case NullType => case SymbolType =>
    case TableType => case PairType => case Bigint => case Float => case Other => case Zero =>
  }

  // The possible types of each variable.
  type Typesets = seq<Itype>

  // types /\ v1 /\ v2 ...
  datatype Condition = Condition(types: Itype, vars: seq<Var>)

  // condition & condition ... => dest contains consequence
  datatype Constraint = Constraint(conditions: seq<Condition>, dest: Option<Var>, consequence: Condition)

  // The constraints of one instruction, with the variables they concern and the copies known to hold after it.
  datatype Iconstraint = Iconstraint(vars: set<Var>, constraints: seq<Constraint>, copies: seq<(Var, Var)>)

  // ----- order -----

  ghost predicate Leq(a: Typesets, b: Typesets) {
    |a| == |b| && forall v :: 0 <= v < |a| ==> a[v] <= b[v]
  }

  function Join(a: Typesets, b: Typesets): (r: Typesets)
    requires |a| == |b|
    ensures |r| == |a|
  {
    seq(|a|, v requires 0 <= v < |a| => a[v] + b[v])
  }

  // ----- evaluating conditions -----

  ghost predicate KnownVars(c: Condition, n: nat) {
    forall v :: v in c.vars ==> v < n
  }

  // The intersection a condition stands for.
  function Eval(c: Condition, ts: Typesets): Itype {
    set t | t in c.types && forall v :: v in c.vars && v < |ts| ==> t in ts[v]
  }

  /** Evaluates a condition, stopping as soon as nothing is left. */
  method EvaluateCondition(c: Condition, ts: Typesets) returns (x: Itype)
    requires KnownVars(c, |ts|)
    ensures x == Eval(c, ts)
  {
    x := c.types;
    for i := 0 to |c.vars|
      invariant x == Eval(Condition(c.types, c.vars[..i]), ts)
    {
      assert c.vars[i] in c.vars;
      assert c.vars[..i+1] == c.vars[..i] + [c.vars[i]];
      x := x * ts[c.vars[i]];
      if x == {} {
        assert forall v :: v in c.vars[..i+1] ==> v in c.vars;
        assert Eval(c, ts) <= Eval(Condition(c.types, c.vars[..i+1]), ts);
        return;
      }
    }
    assert c.vars[..|c.vars|] == c.vars;
  }

  // ----- applying constraints -----

  ghost predicate Satisfied(c: Constraint, ts: Typesets) {
    forall cond :: cond in c.conditions ==> Eval(cond, ts) != {}
  }

  ghost predicate Concerns(c: Constraint, v: Var) {
    c.dest == Some(v) || exists cond :: cond in c.conditions && v in cond.vars
  }

  /** What a constraint says may be the type of v afterwards: nothing unless all
      its conditions hold; for the destination, its consequence; for any other
      variable, what the conditions on it leave. */
  ghost predicate Contributes(c: Constraint, ts: Typesets, v: Var, t: BaseType) {
    && Satisfied(c, ts)
    && if c.dest == Some(v) then t in Eval(c.consequence, ts)
       else exists cond :: cond in c.conditions && v in cond.vars && t in Eval(cond, ts)
  }

  ghost predicate WellFormedConstraint(c: Constraint, n: nat) {
    && (forall cond :: cond in c.conditions ==> KnownVars(cond, n))
    && (c.dest.Some? ==> c.dest.value < n && KnownVars(c.consequence, n))
  }

  ghost predicate WellFormed(ic: Iconstraint, n: nat) {
    && (forall c :: c in ic.constraints ==> WellFormedConstraint(c, n))
    && (forall v :: v in ic.vars <==> exists c :: c in ic.constraints && Concerns(c, v))
    && (forall p :: p in ic.copies ==> p.0 < n && p.1 < n)
  }

  // Types after an instruction, before copies are taken into account: the union over its constraints.
  ghost function After(ic: Iconstraint, ts: Typesets, v: Var): Itype
    requires v < |ts|
  {
    if v in ic.vars then set t: BaseType | Implied(ic, ts, v, t) else ts[v]
  }

  ghost predicate Implied(ic: Iconstraint, ts: Typesets, v: Var, t: BaseType) {
    exists c :: c in ic.constraints && Contributes(c, ts, v, t)
  }

  // Both sides of each copy in turn get the intersection of their types.
  function IntersectCopies(copies: seq<(Var, Var)>, ts: Typesets): (r: Typesets)
    requires forall p :: p in copies ==> p.0 < |ts| && p.1 < |ts|
    ensures |r| == |ts|
  {
    if copies == [] then ts
    else
      var r := IntersectCopies(copies[..|copies|-1], ts);
      var p := copies[|copies|-1];
      var x := r[p.1] * r[p.0];
      r[p.1 := x][p.0 := x]
  }

  /** Afterwards neither side of a copy has a type the other did not have; copies that hold
      lose nothing (IntersectSound). */
  lemma {:induction false} CopiesShareTypes(copies: seq<(Var, Var)>, ts: Typesets)
    requires forall p :: p in copies ==> p.0 < |ts| && p.1 < |ts|
    ensures forall p :: p in copies ==> var r := IntersectCopies(copies, ts);
              r[p.0] <= ts[p.0] * ts[p.1] && r[p.1] <= ts[p.0] * ts[p.1]
    ensures Leq(IntersectCopies(copies, ts), ts)
    ensures forall v :: 0 <= v < |ts| && (forall p :: p in copies ==> v != p.0 && v != p.1) ==> IntersectCopies(copies, ts)[v] == ts[v]
  {
    if copies != [] {
      var front, last := copies[..|copies|-1], copies[|copies|-1];
      CopiesShareTypes(front, ts);
      assert last in copies && forall p :: p in copies ==> p in front || p == last by { assert copies == front + [last]; }
    }
  }

  ghost function Applied(ic: Iconstraint, ts: Typesets): (r: Typesets)
    requires WellFormed(ic, |ts|)
    ensures |r| == |ts|
  {
    IntersectCopies(ic.copies, seq(|ts|, v requires 0 <= v < |ts| => After(ic, ts, v)))
  }

  // Evaluates the conditions of a constraint in order; None as soon as one fails.
  method EvaluateConditions(c: Constraint, ts: Typesets) returns (results: Option<seq<Itype>>)
    requires WellFormedConstraint(c, |ts|)
    ensures results.Some? <==> Satisfied(c, ts)
    ensures results.Some? ==> |results.value| == |c.conditions|
                              && forall i :: 0 <= i < |c.conditions| ==> results.value[i] == Eval(c.conditions[i], ts)
  {
    var xs := [];
    for i := 0 to |c.conditions|
      invariant |xs| == i
      invariant forall j :: 0 <= j < i ==> xs[j] == Eval(c.conditions[j], ts) && xs[j] != {}
    {
      assert c.conditions[i] in c.conditions;
      var x := EvaluateCondition(c.conditions[i], ts);
      if x == {} { return None; }
      xs := xs + [x];
    }
    results := Some(xs);
  }

  // Adds x to the types of every variable in vars but dest.
  method AddTypes(news: Typesets, vars: seq<Var>, dest: Option<Var>, x: Itype) returns (r: Typesets)
    requires forall v :: v in vars ==> v < |news|
    ensures |r| == |news|
    ensures forall v :: 0 <= v < |news| ==> r[v] == if v in vars && dest != Some(v) then news[v] + x else news[v]
  {
    r := news;
    for i := 0 to |vars|
      invariant |r| == |news|
      invariant forall v :: 0 <= v < |news| ==> r[v] == if v in vars[..i] && dest != Some(v) then news[v] + x else news[v]
    {
      assert vars[i] in vars;
      if dest != Some(vars[i]) {
        r := r[vars[i] := r[vars[i]] + x];
      }
    }
    assert vars[..|vars|] == vars;
  }

  ghost predicate Added(c: Constraint, ts: Typesets, news: Typesets, r: Typesets) {
    && |r| == |news| == |ts|
    && forall v, t :: 0 <= v < |news| ==> (t in r[v] <==> t in news[v] || Contributes(c, ts, v, t))
  }

  // One constraint's contribution to the new typesets.
  method ApplyConstraint(c: Constraint, ts: Typesets, news: Typesets) returns (r: Typesets)
    requires WellFormedConstraint(c, |ts|) && |news| == |ts|
    ensures Added(c, ts, news, r)
  {
    r := news;
    var results := EvaluateConditions(c, ts);
    if results.None? { return; }
    if c.dest.Some? {
      var x := EvaluateCondition(c.consequence, ts);
      r := r[c.dest.value := r[c.dest.value] + x];
    }
    ghost var base := r;
    for i := 0 to |c.conditions|
      invariant |r| == |news|
      invariant forall v, t :: 0 <= v < |r| ==>
                  (t in r[v] <==> t in base[v] || (c.dest != Some(v) && exists j :: 0 <= j < i && v in c.conditions[j].vars && t in Eval(c.conditions[j], ts)))
    {
      assert c.conditions[i] in c.conditions;
      r := AddTypes(r, c.conditions[i].vars, c.dest, results.value[i]);
    }
    forall v, t | 0 <= v < |news|
      ensures t in r[v] <==> t in news[v] || Contributes(c, ts, v, t)
    {
      if cond :| cond in c.conditions && v in cond.vars && t in Eval(cond, ts) {
        var j :| 0 <= j < |c.conditions| && c.conditions[j] == cond;
      }
    }
  }

  method ApplyIconstraint(ic: Iconstraint, ts: Typesets) returns (news: Typesets)
    requires WellFormed(ic, |ts|)
    ensures news == Applied(ic, ts)
  {
    news := seq(|ts|, v requires 0 <= v < |ts| => if v in ic.vars then {} else ts[v]);
    for i := 0 to |ic.constraints|
      invariant |news| == |ts|
      invariant forall v, t :: 0 <= v < |ts| ==>
                  (t in news[v] <==> if v in ic.vars then exists j :: 0 <= j < i && Contributes(ic.constraints[j], ts, v, t) else t in ts[v])
    {
      assert ic.constraints[i] in ic.constraints;
      ghost var before := news;
      news := ApplyConstraint(ic.constraints[i], ts, news);
      forall v, t | 0 <= v < |ts| && v !in ic.vars
        ensures t in news[v] <==> t in before[v]
      {
        assert !Concerns(ic.constraints[i], v);
      }
    }
    assert news == seq(|ts|, v requires 0 <= v < |ts| => After(ic, ts, v)) by {
      forall v | 0 <= v < |ts| ensures news[v] == After(ic, ts, v) {
        forall t ensures t in news[v] <==> t in After(ic, ts, v) {
          if c :| c in ic.constraints && Contributes(c, ts, v, t) {
            var j :| 0 <= j < |ic.constraints| && ic.constraints[j] == c;
          }
        }
      }
    }
    ghost var mid := news;
    for i := 0 to |ic.copies|
      invariant news == IntersectCopies(ic.copies[..i], mid)
    {
      assert ic.copies[..i+1][..i] == ic.copies[..i] && ic.copies[i] in ic.copies;
      var (dst, src) := ic.copies[i];
      var x := news[src] * news[dst];
      news := news[src := x][dst := x];
    }
    assert ic.copies[..|ic.copies|] == ic.copies;
  }

  // ----- monotonicity -----

  lemma ContributesMono(c: Constraint, a: Typesets, b: Typesets, v: Var, t: BaseType)
    requires Leq(a, b) && WellFormedConstraint(c, |a|)
    ensures Contributes(c, a, v, t) ==> Contributes(c, b, v, t)
  {
    if Contributes(c, a, v, t) {
      forall cond | cond in c.conditions ensures Eval(cond, b) != {} {
        var x :| x in Eval(cond, a);
        assert x in Eval(cond, b);
      }
    }
  }

  lemma {:induction false} IntersectMono(copies: seq<(Var, Var)>, a: Typesets, b: Typesets)
    requires Leq(a, b) && forall p :: p in copies ==> p.0 < |a| && p.1 < |a|
    ensures Leq(IntersectCopies(copies, a), IntersectCopies(copies, b))
  {
    if copies != [] {
      IntersectMono(copies[..|copies|-1], a, b);
    }
  }

  /** Larger types before an instruction never give smaller types after it. */
  lemma AppliedMono(ic: Iconstraint, a: Typesets, b: Typesets)
    requires Leq(a, b) && WellFormed(ic, |a|)
    ensures Leq(Applied(ic, a), Applied(ic, b))
  {
    var a' := seq(|a|, v requires 0 <= v < |a| => After(ic, a, v));
    var b' := seq(|b|, v requires 0 <= v < |b| => After(ic, b, v));
    forall v | 0 <= v < |a| ensures a'[v] <= b'[v] {
      forall t | t in a'[v] ensures t in b'[v] {
        if v in ic.vars {
          var c :| c in ic.constraints && Contributes(c, a, v, t);
          ContributesMono(c, a, b, v, t);
        }
      }
    }
    IntersectMono(ic.copies, a', b');
  }

  // ----- soundness of one instruction -----

  // The base types of the values of the variables that have one.
  type Values = map<Var, BaseType>

  ghost predicate InTypes(st: Values, ts: Typesets) {
    forall v :: v in st && v < |ts| ==> st[v] in ts[v]
  }

  // All variables of the condition have type t, which is one of its types.
  ghost predicate HoldsAt(c: Condition, st: Values, t: BaseType) {
    t in c.types && forall v :: v in c.vars ==> v in st && st[v] == t
  }

  ghost predicate Holds(c: Condition, st: Values) {
    exists t :: HoldsAt(c, st, t)
  }

  // The value of v after an instruction is one that constraint c speaks of.
  ghost predicate Explains(c: Constraint, st: Values, st': Values, v: Var)
    requires v in st'
  {
    && (forall cond :: cond in c.conditions ==> Holds(cond, st))
    && if c.dest == Some(v) then HoldsAt(c.consequence, st, st'[v])
       else Concerns(c, v) && v in st && st'[v] == st[v]
  }

  /** An instruction may take the values from st to st': what its constraints do
      not concern is unchanged, every value they concern is explained by a
      constraint whose conditions hold, and its copies hold afterwards. */
  ghost predicate Admits(ic: Iconstraint, st: Values, st': Values) {
    && (forall v :: v in st' && v !in ic.vars ==> v in st && st'[v] == st[v])
    && (forall v :: v in st' && v in ic.vars ==> exists c :: c in ic.constraints && Explains(c, st, st', v))
    && (forall p :: p in ic.copies ==> CopyHolds(p, st'))
  }

  // Both sides of a copy have the same type, or no value yet.
  ghost predicate CopyHolds(p: (Var, Var), st: Values) {
    (p.0 in st <==> p.1 in st) && (p.0 in st ==> st[p.0] == st[p.1])
  }

  lemma HoldsInEval(c: Condition, st: Values, ts: Typesets, t: BaseType)
    requires InTypes(st, ts) && HoldsAt(c, st, t)
    ensures t in Eval(c, ts)
  {
  }

  lemma ExplainedContributes(c: Constraint, st: Values, st': Values, ts: Typesets, v: Var)
    requires InTypes(st, ts) && WellFormedConstraint(c, |ts|) && v in st' && Explains(c, st, st', v)
    ensures Contributes(c, ts, v, st'[v])
  {
    forall cond | cond in c.conditions ensures Eval(cond, ts) != {} {
      var t :| HoldsAt(cond, st, t);
      HoldsInEval(cond, st, ts, t);
    }
    if c.dest == Some(v) {
      HoldsInEval(c.consequence, st, ts, st'[v]);
    } else {
      var cond :| cond in c.conditions && v in cond.vars;
      var t :| HoldsAt(cond, st, t);
      HoldsInEval(cond, st, ts, t);
    }
  }

  lemma {:induction false} IntersectSound(copies: seq<(Var, Var)>, ts: Typesets, st: Values)
    requires forall p :: p in copies ==> p.0 < |ts| && p.1 < |ts|
    requires InTypes(st, ts) && forall p :: p in copies ==> CopyHolds(p, st)
    ensures InTypes(st, IntersectCopies(copies, ts))
  {
    if copies != [] {
      IntersectSound(copies[..|copies|-1], ts, st);
      assert copies[|copies|-1] in copies;
    }
  }

  /** Applying constraints keeps the actual types among the inferred ones. */
  lemma AppliedSound(ic: Iconstraint, st: Values, st': Values, ts: Typesets)
    requires InTypes(st, ts) && WellFormed(ic, |ts|) && Admits(ic, st, st')
    ensures InTypes(st', Applied(ic, ts))
  {
    var mid := seq(|ts|, v requires 0 <= v < |ts| => After(ic, ts, v));
    forall v | v in st' && v < |ts| ensures st'[v] in mid[v] {
      if v in ic.vars {
        var c :| c in ic.constraints && Explains(c, st, st', v);
        ExplainedContributes(c, st, st', ts, v);
        assert Implied(ic, ts, v, st'[v]);
      }
    }
    IntersectSound(ic.copies, mid, st');
  }

  // ----- instantiating constraints -----

  // An argument is a variable, or a constant of known type.
  datatype Arg = Variable(v: Var) | Constant(types: Itype)

  // A result has one of some types, or the type of an argument.
  datatype Return = Types(types: Itype) | SameAs(arg: nat)

  // A type signature; with star its last parameter stands for any number of arguments.
  datatype Sig = Sig(params: seq<Itype>, star: bool, ret: Return) {
    predicate Fits(nargs: nat) {
      && (if star then 0 < |params| <= nargs + 1 else |params| == nargs)
      && (ret.SameAs? ==> ret.arg < nargs)
    }

    function Param(k: nat): Itype
      requires k < |params| || (star && params != [])
    {
      if k < |params| then params[k] else params[|params|-1]
    }
  }

  function MakeCondition(types: Itype, arg: Arg): Condition {
    match arg
    case Variable(v) => Condition(types, [v])
    case Constant(t) => Condition(types * t, [])
  }

  // The constraint a signature gives for these arguments; conditions are in reverse order.
  ghost predicate IsInstance(c: Constraint, sig: Sig, args: seq<Arg>, dest: Option<Var>)
    requires sig.Fits(|args|)
  {
    && |c.conditions| == |args|
    && (forall k :: 0 <= k < |args| ==> c.conditions[|args|-1-k] == MakeCondition(sig.Param(k), args[k]))
    && c.dest == dest
    && (dest.Some? ==>
          match sig.ret
          case Types(types) => c.consequence == Condition(types, [])
          case SameAs(k) => c.consequence == RefCondition(sig, args, k))
  }

  // The last argument that is the same variable as argument k.
  function LastUse(args: seq<Arg>, k: nat): (j: nat)
    requires k < |args|
    ensures k <= j < |args| && args[j] == args[k]
    ensures forall i :: j < i < |args| ==> args[i] != args[k]
  {
    if args[|args|-1] == args[k] then |args| - 1 else LastUse(args[..|args|-1], k)
  }

  // What the result has the type of: the condition on the variable, or the constant.
  function RefCondition(sig: Sig, args: seq<Arg>, k: nat): Condition
    requires sig.Fits(|args|) && k < |args|
  {
    if args[k].Variable? then MakeCondition(sig.Param(LastUse(args, k)), args[k]) else MakeCondition(Any(), args[k])
  }

  method InstantiateConstraint(sig: Sig, args: seq<Arg>, dest: Option<Var>) returns (c: Constraint)
    requires sig.Fits(|args|)
    ensures IsInstance(c, sig, args, dest)
  {
    var conditions := [];
    var i := 0;
    for k := 0 to |args|
      invariant i == if sig.star && k >= |sig.params| then |sig.params| - 1 else k
      invariant |conditions| == k
      invariant forall j :: 0 <= j < k ==> conditions[k-1-j] == MakeCondition(sig.Param(j), args[j])
    {
      var itype := sig.params[i];
      if !(sig.star && i == |sig.params| - 1) { i := i + 1; }
      conditions := [MakeCondition(itype, args[k])] + conditions;
    }
    var consequence := Condition({}, []);
    if dest.Some? {
      match sig.ret
      case Types(types) => consequence := Condition(types, []);
      case SameAs(k) => consequence := FindCondition(conditions, args[k], sig, args, k);
    }
    c := Constraint(conditions, dest, consequence);
  }

  // If ref is already in some condition, use the same condition.
  method FindCondition(conditions: seq<Condition>, ref: Arg, ghost sig: Sig, ghost args: seq<Arg>, ghost k: nat) returns (c: Condition)
    requires sig.Fits(|args|) && k < |args| == |conditions| && args[k] == ref
    requires forall j :: 0 <= j < |args| ==> conditions[|args|-1-j] == MakeCondition(sig.Param(j), args[j])
    ensures c == RefCondition(sig, args, k)
  {
    if ref.Variable? {
      ghost var last := LastUse(args, k);
      for i := 0 to |conditions|
        invariant i <= |args| - 1 - last
      {
        assert conditions[i] == MakeCondition(sig.Param(|args| - 1 - i), args[|args| - 1 - i]);
        if ref.v in conditions[i].vars {
          assert args[|args| - 1 - i] == ref;
          return conditions[i];
        }
      }
    }
    c := MakeCondition(Any(), ref);
  }

  /** An overloaded operation or call: it works on some signature, and apart from
      its result only changes variables that may be assigned behind its back. */
  datatype Instruction = Instruction(sigs: seq<Sig>, args: seq<Arg>, dest: Option<Var>, clobbers: seq<Var>) {
    ghost predicate Valid(n: nat) {
      && sigs != [] && (forall sig :: sig in sigs ==> sig.Fits(|args|))
      && (forall k :: 0 <= k < |args| && args[k].Variable? ==> args[k].v < n)
      && (dest.Some? ==> dest.value < n)
      && (forall v :: v in clobbers ==> v < n)
    }
  }

  function ClobberConstraint(v: Var): Constraint {
    Constraint([], Some(v), Condition(Any(), []))
  }

  // Where the constraints of an instruction come from.
  ghost predicate FromInstruction(cl: seq<Constraint>, sigs: seq<Sig>, clobbers: seq<Var>, args: seq<Arg>, dest: Option<Var>)
    requires forall sig :: sig in sigs ==> sig.Fits(|args|)
  {
    && (forall c :: c in cl ==> FromSig(c, sigs, args, dest) || FromClobber(c, clobbers, dest))
    && (forall sig :: sig in sigs ==> exists c :: c in cl && IsInstance(c, sig, args, dest))
    && (forall v :: v in clobbers && Some(v) != dest ==> ClobberConstraint(v) in cl)
  }

  ghost predicate FromSig(c: Constraint, sigs: seq<Sig>, args: seq<Arg>, dest: Option<Var>)
    requires forall sig :: sig in sigs ==> sig.Fits(|args|)
  {
    exists sig :: sig in sigs && IsInstance(c, sig, args, dest)
  }

  ghost predicate FromClobber(c: Constraint, clobbers: seq<Var>, dest: Option<Var>) {
    exists v :: v in clobbers && Some(v) != dest && c == ClobberConstraint(v)
  }

  method GenerateConstraints(i: Instruction, n: nat) returns (cl: seq<Constraint>)
    requires i.Valid(n)
    ensures FromInstruction(cl, i.sigs, i.clobbers, i.args, i.dest)
  {
    cl := [];
    for k := 0 to |i.sigs|
      invariant forall sig :: sig in i.sigs[..k] ==> sig.Fits(|i.args|)
      invariant FromInstruction(cl, i.sigs[..k], [], i.args, i.dest)
    {
      assert i.sigs[k] in i.sigs;
      var c := InstantiateConstraint(i.sigs[k], i.args, i.dest);
      FromSigStep(cl, i.sigs[..k], i.args, i.dest, i.sigs[k], c);
      assert i.sigs[..k+1] == i.sigs[..k] + [i.sigs[k]];
      cl := cl + [c];
    }
    assert i.sigs[..|i.sigs|] == i.sigs;
    for k := 0 to |i.clobbers|
      invariant FromInstruction(cl, i.sigs, i.clobbers[..k], i.args, i.dest)
    {
      FromClobberStep(cl, i.sigs, i.clobbers[..k], i.args, i.dest, i.clobbers[k]);
      assert i.clobbers[..k+1] == i.clobbers[..k] + [i.clobbers[k]];
      if Some(i.clobbers[k]) != i.dest {
        cl := [ClobberConstraint(i.clobbers[k])] + cl;
      }
    }
    assert i.clobbers[..|i.clobbers|] == i.clobbers;
  }

  lemma FromSigStep(cl: seq<Constraint>, sigs: seq<Sig>, args: seq<Arg>, dest: Option<Var>, sig: Sig, c: Constraint)
    requires forall s :: s in sigs + [sig] ==> s.Fits(|args|)
    requires forall s :: s in sigs ==> s.Fits(|args|)
    requires FromInstruction(cl, sigs, [], args, dest) && sig.Fits(|args|) && IsInstance(c, sig, args, dest)
    ensures FromInstruction(cl + [c], sigs + [sig], [], args, dest)
  {
    forall d | d in cl + [c] ensures FromSig(d, sigs + [sig], args, dest) {
      if d in cl {
        var s :| s in sigs && IsInstance(d, s, args, dest);
        assert s in sigs + [sig];
      } else {
        assert sig in sigs + [sig];
      }
    }
    forall s | s in sigs + [sig] ensures exists d :: d in cl + [c] && IsInstance(d, s, args, dest) {
      if s in sigs {
        var d :| d in cl && IsInstance(d, s, args, dest);
        assert d in cl + [c];
      } else {
        assert c in cl + [c];
      }
    }
  }

  lemma FromClobberStep(cl: seq<Constraint>, sigs: seq<Sig>, clobbers: seq<Var>, args: seq<Arg>, dest: Option<Var>, v: Var)
    requires forall s :: s in sigs ==> s.Fits(|args|)
    requires FromInstruction(cl, sigs, clobbers, args, dest)
    ensures FromInstruction(if Some(v) != dest then [ClobberConstraint(v)] + cl else cl, sigs, clobbers + [v], args, dest)
  {
    var cl' := if Some(v) != dest then [ClobberConstraint(v)] + cl else cl;
    forall d | d in cl' ensures FromSig(d, sigs, args, dest) || FromClobber(d, clobbers + [v], dest) {
      if d in cl {
        if FromClobber(d, clobbers, dest) {
          var u :| u in clobbers && Some(u) != dest && d == ClobberConstraint(u);
          assert u in clobbers + [v];
        }
      } else {
        assert v in clobbers + [v];
      }
    }
    forall s | s in sigs ensures exists d :: d in cl' && IsInstance(d, s, args, dest) {
      var d :| d in cl && IsInstance(d, s, args, dest);
      assert d in cl';
    }
  }

  // The variables a list of constraints speaks of, with the copies that involve them.
  method BuildIconstraint(cl: seq<Constraint>, copies: seq<(Var, Var)>, n: nat) returns (ic: Iconstraint)
    requires forall c :: c in cl ==> WellFormedConstraint(c, n)
    requires forall p :: p in copies ==> p.0 < n && p.1 < n
    ensures WellFormed(ic, n) && ic.constraints == cl
    ensures forall p :: p in ic.copies <==> p in copies && (p.0 in ic.vars || p.1 in ic.vars)
  {
    var vars: set<Var> := {};
    for i := 0 to |cl|
      invariant forall v :: v in vars <==> exists j :: 0 <= j < i && Concerns(cl[j], v)
    {
      var conds := cl[i].conditions;
      ghost var before := vars;
      for k := 0 to |conds|
        invariant forall v :: v in vars <==> v in before || exists j :: 0 <= j < k && v in conds[j].vars
      {
        vars := vars + set v | v in conds[k].vars;
      }
      if cl[i].dest.Some? {
        vars := vars + {cl[i].dest.value};
      }
      assert forall v :: (exists j :: 0 <= j < |conds| && v in conds[j].vars) ==> Concerns(cl[i], v);
      assert forall v :: Concerns(cl[i], v) ==> v in vars;
    }
    var kept := [];
    for i := 0 to |copies|
      invariant forall p :: p in kept <==> p in copies[..i] && (p.0 in vars || p.1 in vars)
    {
      if copies[i].0 in vars || copies[i].1 in vars {
        kept := kept + [copies[i]];
      }
    }
    assert copies[..|copies|] == copies;
    ic := Iconstraint(vars, cl, kept);
    forall v ensures v in ic.vars <==> exists c :: c in cl && Concerns(c, v) {
      if c :| c in cl && Concerns(c, v) {
        var j :| 0 <= j < |cl| && cl[j] == c;
      }
    }
  }

  // ----- what instructions do -----

  ghost predicate ArgIs(arg: Arg, st: Values, t: BaseType) {
    match arg
    case Variable(v) => v in st && st[v] == t
    case Constant(types) => t in types
  }

  ghost predicate ResultIs(sig: Sig, types: seq<BaseType>, t: BaseType)
    requires sig.ret.SameAs? ==> sig.ret.arg < |types|
  {
    match sig.ret
    case Types(ts) => t in ts
    case SameAs(k) => t == types[k]
  }

  // The arguments have these types, and the signature accepts them and gives the result.
  ghost predicate Matches(sig: Sig, types: seq<BaseType>, i: Instruction, st: Values, st': Values)
    requires sig.Fits(|i.args|)
  {
    && |types| == |i.args|
    && (forall k :: 0 <= k < |types| ==> ArgIs(i.args[k], st, types[k]) && types[k] in sig.Param(k))
    && (i.dest.Some? ==> i.dest.value in st' && ResultIs(sig, types, st'[i.dest.value]))
  }

  /** The instruction takes the values from st to st' by working on one of its
      signatures; besides its destination only clobbered variables may change. */
  ghost predicate Performs(i: Instruction, n: nat, st: Values, st': Values)
    requires i.Valid(n)
  {
    && (exists sig, types :: sig in i.sigs && Matches(sig, types, i, st, st'))
    && (forall v :: v in st' && Some(v) != i.dest && v !in i.clobbers ==> v in st && st'[v] == st[v])
  }

  lemma InstanceHolds(c: Constraint, sig: Sig, types: seq<BaseType>, i: Instruction, st: Values, st': Values)
    requires sig.Fits(|i.args|) && Matches(sig, types, i, st, st') && IsInstance(c, sig, i.args, i.dest)
    ensures forall cond :: cond in c.conditions ==> Holds(cond, st)
    ensures i.dest.Some? ==> HoldsAt(c.consequence, st, st'[i.dest.value])
  {
    var n := |i.args|;
    forall cond | cond in c.conditions ensures Holds(cond, st) {
      var j :| 0 <= j < n && c.conditions[j] == cond;
      var k := n - 1 - j;
      assert c.conditions[n-1-k] == MakeCondition(sig.Param(k), i.args[k]);
      assert HoldsAt(cond, st, types[k]);
    }
    if i.dest.Some? && sig.ret.SameAs? {
      var k := sig.ret.arg;
      AnyHasAll(types[k]);
      if c.consequence != MakeCondition(Any(), i.args[k]) {
        var t :| HoldsAt(c.consequence, st, t);
      }
    }
  }

  lemma InstanceConcerns(c: Constraint, sig: Sig, i: Instruction, v: Var)
    requires sig.Fits(|i.args|) && IsInstance(c, sig, i.args, i.dest)
    ensures Concerns(c, v) <==> i.dest == Some(v) || Variable(v) in i.args
  {
    var n := |i.args|;
    if Variable(v) in i.args {
      var k :| 0 <= k < n && i.args[k] == Variable(v);
      assert c.conditions[n-1-k] == MakeCondition(sig.Param(k), i.args[k]);
      assert v in c.conditions[n-1-k].vars;
    }
    if cond :| cond in c.conditions && v in cond.vars {
      var j :| 0 <= j < n && c.conditions[j] == cond;
      var k := n - 1 - j;
      assert c.conditions[n-1-k] == MakeCondition(sig.Param(k), i.args[k]);
      assert i.args[k] == Variable(v);
    }
  }

  /** Whatever an instruction does is admitted by the constraints generated for
      it: they all come from one argument list, so each speaks of every argument. */
  lemma PerformedIsAdmitted(i: Instruction, n: nat, ic: Iconstraint, st: Values, st': Values)
    requires i.Valid(n) && Performs(i, n, st, st')
    requires WellFormed(ic, n) && FromInstruction(ic.constraints, i.sigs, i.clobbers, i.args, i.dest)
    requires forall p :: p in ic.copies ==> CopyHolds(p, st')
    ensures Admits(ic, st, st')
  {
    var sig, types :| sig in i.sigs && Matches(sig, types, i, st, st');
    var c :| c in ic.constraints && IsInstance(c, sig, i.args, i.dest);
    InstanceHolds(c, sig, types, i, st, st');
    forall v | v in st' && v in ic.vars
      ensures exists d :: d in ic.constraints && Explains(d, st, st', v)
    {
      InstanceConcerns(c, sig, i, v);
      if Some(v) != i.dest && v in i.clobbers {
        var d := ClobberConstraint(v);
        AnyHasAll(st'[v]);
        assert d in ic.constraints && Explains(d, st, st', v);
      } else {
        if !Concerns(c, v) { NotConcerned(ic, i, v); }
        assert Explains(c, st, st', v);
      }
    }
    forall v | v in st' && v !in ic.vars ensures v in st && st'[v] == st[v] {
      if v in i.clobbers && Some(v) != i.dest {
        assert Concerns(ClobberConstraint(v), v);
      }
      assert Some(v) == i.dest ==> Concerns(c, v);
    }
  }

  // Constraints of an instruction speak of its arguments, its destination and what it clobbers.
  lemma NotConcerned(ic: Iconstraint, i: Instruction, v: Var)
    requires forall sig :: sig in i.sigs ==> sig.Fits(|i.args|)
    requires FromInstruction(ic.constraints, i.sigs, i.clobbers, i.args, i.dest)
    requires Some(v) != i.dest && v !in i.clobbers && Variable(v) !in i.args
    ensures forall c :: c in ic.constraints ==> !Concerns(c, v)
  {
    forall c | c in ic.constraints ensures !Concerns(c, v) {
      if FromSig(c, i.sigs, i.args, i.dest) {
        var sig :| sig in i.sigs && IsInstance(c, sig, i.args, i.dest);
        InstanceConcerns(c, sig, i, v);
      }
    }
  }

  // A branch constraint has no destination; it is admitted when its conditions hold.
  lemma BranchAdmits(ic: Iconstraint, st: Values, c: Constraint)
    requires ic.constraints == [c] && c.dest.None?
    requires forall v :: v in ic.vars <==> Concerns(c, v)
    requires forall cond :: cond in c.conditions ==> Holds(cond, st)
    requires forall p :: p in ic.copies ==> CopyHolds(p, st)
    ensures Admits(ic, st, st)
  {
    forall v | v in st && v in ic.vars ensures exists d :: d in ic.constraints && Explains(d, st, st, v) {
      assert c in ic.constraints && Explains(c, st, st, v);
    }
  }

  // ----- exactly what applying constraints allows -----

  // The most precise typesets for some values.
  function Exact(st: Values, n: nat): (ts: Typesets)
    ensures |ts| == n && InTypes(st, ts)
  {
    seq(n, v requires 0 <= v < n => if v in st then {st[v]} else {})
  }

  lemma ExactHolds(cond: Condition, st: Values, n: nat, t: BaseType)
    requires KnownVars(cond, n) && t in Eval(cond, Exact(st, n))
    ensures HoldsAt(cond, st, t)
  {
  }

  lemma ContributionExplains(c: Constraint, st: Values, st': Values, n: nat, v: Var)
    requires WellFormedConstraint(c, n) && v in st' && v < n && Contributes(c, Exact(st, n), v, st'[v])
    ensures Explains(c, st, st', v)
  {
    forall cond | cond in c.conditions ensures Holds(cond, st) {
      var t :| t in Eval(cond, Exact(st, n));
      ExactHolds(cond, st, n, t);
    }
    if c.dest == Some(v) {
      ExactHolds(c.consequence, st, n, st'[v]);
    } else {
      var cond :| cond in c.conditions && v in cond.vars && st'[v] in Eval(cond, Exact(st, n));
      ExactHolds(cond, st, n, st'[v]);
    }
  }

  ghost predicate KeepsTypes(ic: Iconstraint, st: Values, st': Values, n: nat)
    requires WellFormed(ic, n)
  {
    forall ts: Typesets :: |ts| == n && InTypes(st, ts) ==> InTypes(st', Applied(ic, ts))
  }

  /** Exactly when the constraints of an instruction, with or without destinations, keep
      the actual types for all typesets: when they admit what the instruction does. */
  lemma AdmittedExactly(ic: Iconstraint, st: Values, st': Values, n: nat)
    requires WellFormed(ic, n) && forall v :: v in st' ==> v < n
    requires forall p :: p in ic.copies ==> CopyHolds(p, st')
    ensures KeepsTypes(ic, st, st', n) <==> Admits(ic, st, st')
  {
    if Admits(ic, st, st') {
      forall ts: Typesets | |ts| == n && InTypes(st, ts) ensures InTypes(st', Applied(ic, ts)) {
        AppliedSound(ic, st, st', ts);
      }
    }
    if KeepsTypes(ic, st, st', n) {
      KeptTypesAfter(ic, st, st', n);
      AllExplained(ic, st, st', n);
    }
  }

  lemma KeptTypesAfter(ic: Iconstraint, st: Values, st': Values, n: nat)
    requires WellFormed(ic, n) && KeepsTypes(ic, st, st', n) && forall v :: v in st' ==> v < n
    ensures forall v :: v in st' ==> st'[v] in After(ic, Exact(st, n), v)
  {
    hide After, IntersectCopies;
    var ts := Exact(st, n);
    var mid := seq(n, v requires 0 <= v < n => After(ic, ts, v));
    assert InTypes(st', Applied(ic, ts));
    CopiesShareTypes(ic.copies, mid);
    forall v | v in st' ensures st'[v] in After(ic, ts, v) {
      assert st'[v] in Applied(ic, ts)[v] && Applied(ic, ts)[v] <= mid[v];
    }
  }

  lemma AllExplained(ic: Iconstraint, st: Values, st': Values, n: nat)
    requires WellFormed(ic, n) && forall v :: v in st' ==> v < n && st'[v] in After(ic, Exact(st, n), v)
    requires forall p :: p in ic.copies ==> CopyHolds(p, st')
    ensures Admits(ic, st, st')
  {
    forall v | v in st' && v in ic.vars ensures exists c :: c in ic.constraints && Explains(c, st, st', v) {
      var c :| c in ic.constraints && Contributes(c, Exact(st, n), v, st'[v]);
      ContributionExplains(c, st, st', n, v);
    }
  }
}
