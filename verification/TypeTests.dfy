/** Branches on types and values (generate_branch_constraints in inference.mud): the
    constraint of the edge a branch takes holds for the values it has tested. */
module TypeTests {
  import opened Prelude
  import opened TypeInference

  // type_xxx
  datatype RuntimeType =
    | IcodeT | ClosureT | VariableT | InternalT | PrimitiveT | VarargsT | SecureT | IntegerT | StringT | VectorT | PairT
    | SymbolT | TableT | PrivateT | ObjectT | CharacterT | GoneT | OportT | McodeT | FloatT | BigintT | NullT
    | ConnectionT | CookieT | FileT | WeakRefT | RegexpT

  // A value of some type; for integers, which is the number itself.
  datatype Value = Value(kind: RuntimeType, which: int)

  // type_xxx or stype_xxx
  datatype TypeCode = Exactly(t: RuntimeType) | NoType | AnyType | FunctionLike | ListLike | FloatLike | BigintLike | False

  predicate IsFunction(t: RuntimeType) {
    t == ClosureT || t == PrimitiveT || t == VarargsT || t == SecureT
  }

  predicate HasType(v: Value, code: TypeCode) {
    match code
    case Exactly(t) => v.kind == t
    case NoType => false
    case AnyType => true
    case FunctionLike => IsFunction(v.kind)
    case ListLike => v.kind == NullT || v.kind == PairT
    case FloatLike => v.kind == IntegerT || v.kind == BigintT || v.kind == FloatT
    case BigintLike => v.kind == IntegerT || v.kind == BigintT
    case False => v.kind == IntegerT && v.which == 0
  }

  // mc:value_itype
  function BaseOf(v: Value): BaseType {
    match v.kind
    case ClosureT => FunctionType
    case PrimitiveT => FunctionType
    case VarargsT => FunctionType
    case SecureT => FunctionType
    case IntegerT => if v.which == 0 then Zero else NonZero
    case StringT => StringType
    case VectorT => VectorType
    case NullT => NullType
    case SymbolT => SymbolType
    case TableT => TableType
    case PairT => PairType
    case BigintT => Bigint
    case FloatT => Float
    case _ => Other
  }

  function IntegerTypes(): Itype {
    {Zero, NonZero}
  }

  // mc:itypemap
  function TypesOfCode(code: TypeCode): Itype {
    match code
    case NoType => {}
    case AnyType => Any()
    case FunctionLike => {FunctionType}
    case ListLike => {NullType, PairType}
    case FloatLike => IntegerTypes() + {Bigint, Float}
    case BigintLike => IntegerTypes() + {Bigint}
    case False => {Zero}
    case Exactly(t) =>
      if t == IntegerT then IntegerTypes() else {BaseOf(Value(t, 0))}
  }

  // mc:itypemap_inverse; types that are not told apart give no information.
  function InverseOfCode(code: TypeCode): Itype {
    match code
    case NoType => Any()
    case AnyType => {}
    case Exactly(t) =>
      var base := BaseOf(Value(t, 0));
      if base == FunctionType || base == Other then Any() else Any() - TypesOfCode(code)
    case _ => Any() - TypesOfCode(code)
  }

  /** A value has the type of a code only if its base type is in the code's set, and has
      not only if it is in the inverse set. */
  lemma CodesDescribeTypes(v: Value, code: TypeCode)
    ensures BaseOf(v) in if HasType(v, code) then TypesOfCode(code) else InverseOfCode(code)
  {
    AnyHasAll(BaseOf(v));
  }

  // A value of each base type, with a number of its own.
  function Sample(t: BaseType, k: nat): (v: Value)
    ensures BaseOf(v) == t && (t != Zero ==> v.which == k + 1)
  {
    match t
    case FunctionType => Value(ClosureT, k + 1)
    case NonZero => Value(IntegerT, k + 1)
    case StringType => Value(StringT, k + 1)
    case VectorType => Value(VectorT, k + 1)
    case NullType => Value(NullT, k + 1)
    case SymbolType => Value(SymbolT, k + 1)
    case TableType => Value(TableT, k + 1)
    case PairType => Value(PairT, k + 1)
    case Bigint => Value(BigintT, k + 1)
    case Float => Value(FloatT, k + 1)
    case Other => Value(FileT, k + 1)
    case Zero => Value(IntegerT, 0)
  }

  // A value of base type t that has the code, or has not.
  ghost predicate SomeHas(t: BaseType, code: TypeCode, yes: bool) {
    exists v :: BaseOf(v) == t && HasType(v, code) == yes
  }

  /** A code's set has exactly the base types of which some value has the code, and its
      inverse those of which some value has not. */
  lemma CodesExactly(code: TypeCode, t: BaseType)
    ensures t in TypesOfCode(code) <==> SomeHas(t, code, true)
    ensures t in InverseOfCode(code) <==> SomeHas(t, code, false)
  {
    hide HasType, TypesOfCode, InverseOfCode, BaseOf;
    if t in TypesOfCode(code) { var v := WithCode(code, t); }
    if t in InverseOfCode(code) { var v := WithoutCode(code, t); }
    if v :| BaseOf(v) == t && HasType(v, code) == true { CodesDescribeTypes(v, code); }
    if v :| BaseOf(v) == t && HasType(v, code) == false { CodesDescribeTypes(v, code); }
  }

  lemma WithCode(code: TypeCode, t: BaseType) returns (v: Value)
    requires t in TypesOfCode(code)
    ensures BaseOf(v) == t && HasType(v, code)
  {
    v := if code.Exactly? then Value(code.t, if t == NonZero then 1 else 0) else Sample(t, 0);
  }

  lemma WithoutCode(code: TypeCode, t: BaseType) returns (v: Value)
    requires t in InverseOfCode(code)
    ensures BaseOf(v) == t && !HasType(v, code)
  {
    v := if t == FunctionType && code == Exactly(ClosureT) then Value(PrimitiveT, 0)
         else if t == Other && code == Exactly(FileT) then Value(ObjectT, 0)
         else Sample(t, 0);
  }

  function ImmutableTypes(): Itype {
    IntegerTypes() + {NullType, Float, Bigint, StringType}
  }

  function ReadonlyTypes(): Itype {
    IntegerTypes() + {NullType, Float, Bigint, FunctionType}
  }

  // ----- tests -----

  /** The interesting branches; a negated one is taken when its test fails. */
  datatype Test =
    | TypeTest(code: TypeCode, negated: bool)
    | PrimitiveTest(negated: bool)
    | FalseTest(negated: bool)
    | EqualTest(negated: bool)                          // identical or equal
    | ImmutableTest(negated: bool)
    | ReadonlyTest(negated: bool)
    | FindTest(haystack: seq<Value>, negated: bool)

  // Null and false are single values.
  predicate SameValue(a: Value, b: Value) {
    a == b || (BaseOf(a) == BaseOf(b) && (BaseOf(a) == NullType || BaseOf(a) == Zero))
  }

  // What the outcome says about the values. Values found equal are of one base type.
  ghost predicate Outcome(test: Test, vals: seq<Value>, yes: bool)
    requires |vals| == Arity(test)
  {
    var v := vals[0];
    match test
    case TypeTest(code, _) => yes == HasType(v, code)
    case PrimitiveTest(_) => yes == (v.kind == PrimitiveT || v.kind == VarargsT || v.kind == SecureT)
    case FalseTest(_) => yes == (BaseOf(v) == Zero)
    case EqualTest(_) => (SameValue(v, vals[1]) ==> yes) && (yes ==> BaseOf(v) == BaseOf(vals[1]))
    case ImmutableTest(_) => BaseOf(v) in ImmutableTypes() ==> yes
    case ReadonlyTest(_) => BaseOf(v) in ReadonlyTypes() ==> yes
    case FindTest(haystack, _) =>
      && ((exists h :: h in haystack && SameValue(v, h)) ==> yes)
      && (yes ==> exists h :: h in haystack && BaseOf(v) == BaseOf(h))
  }

  function Arity(test: Test): nat {
    if test.EqualTest? then 2 else 1
  }

  // Constant folding leaves no null == null.
  ghost predicate TestOk(test: Test, args: seq<Arg>, n: nat) {
    && |args| == Arity(test)
    && (forall k :: 0 <= k < |args| && args[k].Variable? ==> args[k].v < n)
    && (test.EqualTest? ==> !IsNull(args[0]) || !IsNull(args[1]))
  }

  predicate IsNull(arg: Arg) {
    arg == Constant({NullType})
  }

  // make_condition2: both operands have one type.
  function MakeCondition2(types: Itype, a: Arg, b: Arg): Condition {
    var ca := if a.Constant? then types * a.types else types;
    var cb := if b.Constant? then ca * b.types else ca;
    var va := if a.Variable? then [a.v] else [];
    Condition(cb, if b.Variable? then [b.v] + va else va)
  }

  // The base types of some constants.
  function BaseTypes(haystack: seq<Value>): Itype {
    if haystack == [] then {} else BaseTypes(haystack[..|haystack|-1]) + {BaseOf(haystack[|haystack|-1])}
  }

  lemma {:induction false} BaseTypesAll(haystack: seq<Value>)
    ensures forall t :: t in BaseTypes(haystack) <==> exists h :: h in haystack && BaseOf(h) == t
  {
    if haystack != [] {
      var front, last := haystack[..|haystack|-1], haystack[|haystack|-1];
      BaseTypesAll(front);
      assert haystack == front + [last];
      forall t ensures t in BaseTypes(haystack) <==> exists h :: h in haystack && BaseOf(h) == t {
        if h :| h in haystack && BaseOf(h) == t { assert h in front || h == last; }
        if h :| h in front && BaseOf(h) == t { assert h in haystack; }
        assert last in haystack;
      }
    }
  }

  // The conditions when the test succeeds and when it fails; none where nothing is known.
  function YesNo(test: Test, args: seq<Arg>): (Option<Condition>, Option<Condition>)
    requires |args| == Arity(test)
  {
    if test.EqualTest? && !IsNull(args[0]) && !IsNull(args[1]) then (Some(MakeCondition2(Any(), args[0], args[1])), None)
    else
      var x := if test.EqualTest? && IsNull(args[0]) then args[1] else args[0];
      var (yes, no) := YesNoTypes(test);
      (Some(MakeCondition(yes, x)), Some(MakeCondition(no, x)))
  }

  function YesNoTypes(test: Test): (Itype, Itype) {
    match test
    case TypeTest(code, _) => (TypesOfCode(code), InverseOfCode(code))
    case PrimitiveTest(_) => ({FunctionType}, Any())
    case FalseTest(_) => ({Zero}, Any() - {Zero})
    case EqualTest(_) => ({NullType}, Any() - {NullType})
    case ImmutableTest(_) => (Any(), Any() - ImmutableTypes())
    case ReadonlyTest(_) => (Any(), Any() - ReadonlyTypes())
    case FindTest(haystack, _) => (BaseTypes(haystack), Any() - BaseTypes(haystack) * {NullType, Zero})
  }

  // Some value of base type t may have the outcome; for equality, against null.
  ghost predicate MayHave(test: Test, t: BaseType, yes: bool) {
    if test.EqualTest? then exists v, w :: BaseOf(v) == t && BaseOf(w) == NullType && Outcome(test, [v, w], yes)
    else exists v :: BaseOf(v) == t && Outcome(test, [v], yes)
  }

  lemma {:induction false} Unlike(haystack: seq<Value>) returns (k: nat)
    ensures forall h :: h in haystack ==> h.which != k + 1
    ensures forall h :: h in haystack ==> h.which <= k
  {
    k := 0;
    if haystack != [] {
      var front, last := haystack[..|haystack|-1], haystack[|haystack|-1];
      k := Unlike(front);
      if last.which > k { k := last.which; }
      assert haystack == front + [last];
    }
  }

  /** The types of a test's edges are exactly those of values that may take them. */
  lemma TestTypesExactly(test: Test, t: BaseType, yes: bool)
    ensures t in (if yes then YesNoTypes(test).0 else YesNoTypes(test).1) <==> MayHave(test, t, yes)
  {
    hide HasType, TypesOfCode, InverseOfCode, BaseOf, Sample;
    AnyHasAll(t);
    var sample := Sample(t, 0);
    match test
    case TypeTest(code, _) =>
      CodesExactly(code, t);
      if v :| BaseOf(v) == t && HasType(v, code) == yes { assert Outcome(test, [v], yes); }
      if v :| BaseOf(v) == t && Outcome(test, [v], yes) { assert SomeHas(t, code, yes); }
    case PrimitiveTest(_) => PrimitiveTypesExactly(test, t, yes);
    case EqualTest(_) => EqualTypesExactly(test, t, yes);
    case FindTest(haystack, _) => FindTypesExactly(haystack, test, t, yes);
    case FalseTest(_) => if yes == (t == Zero) { assert Outcome(test, [sample], yes); }
    case ImmutableTest(_) => if yes || t !in ImmutableTypes() { assert Outcome(test, [sample], yes); }
    case ReadonlyTest(_) => if yes || t !in ReadonlyTypes() { assert Outcome(test, [sample], yes); }
  }

  lemma EqualTypesExactly(test: Test, t: BaseType, yes: bool)
    requires test.EqualTest?
    ensures t in (if yes then YesNoTypes(test).0 else YesNoTypes(test).1) <==> MayHave(test, t, yes)
  {
    hide BaseOf, Sample;
    AnyHasAll(t);
    var sample, nothing := Sample(t, 0), Sample(NullType, 0);
    if yes == (t == NullType) { assert Outcome(test, [sample, nothing], yes); }
  }

  lemma PrimitiveTypesExactly(test: Test, t: BaseType, yes: bool)
    requires test.PrimitiveTest?
    ensures t in (if yes then YesNoTypes(test).0 else YesNoTypes(test).1) <==> MayHave(test, t, yes)
  {
    AnyHasAll(t);
    var primitive, sample := Value(PrimitiveT, 0), Sample(t, 0);
    assert Outcome(test, [primitive], true) && Outcome(test, [sample], false);
  }

  lemma FindTypesExactly(haystack: seq<Value>, test: Test, t: BaseType, yes: bool)
    requires test.FindTest? && test.haystack == haystack
    ensures t in (if yes then YesNoTypes(test).0 else YesNoTypes(test).1) <==> MayHave(test, t, yes)
  {
    AnyHasAll(t);
    BaseTypesAll(haystack);
    if yes {
      if h :| h in haystack && BaseOf(h) == t { assert Outcome(test, [h], yes); }
    } else {
      var k := Unlike(haystack);
      var v := Sample(t, k);
      if t in YesNoTypes(test).1 {
        forall h | h in haystack ensures !SameValue(v, h) {}
        assert Outcome(test, [v], yes);
      }
      if v' :| BaseOf(v') == t && Outcome(test, [v'], yes) {
        forall h | h in haystack && BaseOf(h) == t ensures t != NullType && t != Zero { assert !SameValue(v', h); }
      }
    }
  }

  /** So the condition of an edge leaves a variable exactly the types it has of values that
      may take the edge. */
  lemma EdgeTypesExactly(test: Test, x: Var, ts: Typesets, t: BaseType, yes: bool)
    requires !test.EqualTest? && x < |ts|
    ensures var c := if yes then YesNo(test, [Variable(x)]).0 else YesNo(test, [Variable(x)]).1;
            c.Some? && (t in Eval(c.value, ts) <==> t in ts[x] && MayHave(test, t, yes))
  {
    TestTypesExactly(test, t, yes);
  }

  // Comparing with null, on either side.
  lemma NullTypesExactly(test: Test, x: Var, ts: Typesets, t: BaseType, yes: bool, args: seq<Arg>)
    requires test.EqualTest? && x < |ts| && (args == [Variable(x), Constant({NullType})] || args == [Constant({NullType}), Variable(x)])
    ensures var c := if yes then YesNo(test, args).0 else YesNo(test, args).1;
            c.Some? && (t in Eval(c.value, ts) <==> t in ts[x] && MayHave(test, t, yes))
  {
    TestTypesExactly(test, t, yes);
  }

  // ----- values and variables -----

  // The value of each variable that has one.
  type State = Var -> Option<Value>

  // Variables number below n.
  ghost function TypesOf(e: State, n: nat): Values {
    map v: Var | v < n && e(v).Some? :: BaseOf(e(v).value)
  }

  ghost predicate ArgIsValue(arg: Arg, e: State, v: Value) {
    match arg
    case Variable(x) => e(x) == Some(v)
    case Constant(types) => BaseOf(v) in types
  }

  ghost predicate ArgsAre(args: seq<Arg>, e: State, vals: seq<Value>) {
    |vals| == |args| && forall k :: 0 <= k < |args| ==> ArgIsValue(args[k], e, vals[k])
  }

  lemma ConditionHolds(types: Itype, arg: Arg, e: State, v: Value, n: nat)
    requires ArgIsValue(arg, e, v) && BaseOf(v) in types && (arg.Variable? ==> arg.v < n)
    ensures Holds(MakeCondition(types, arg), TypesOf(e, n))
  {
    assert HoldsAt(MakeCondition(types, arg), TypesOf(e, n), BaseOf(v));
  }

  lemma Condition2Holds(a: Arg, b: Arg, e: State, v: Value, w: Value, n: nat)
    requires ArgIsValue(a, e, v) && ArgIsValue(b, e, w) && BaseOf(v) == BaseOf(w)
    requires (a.Variable? ==> a.v < n) && (b.Variable? ==> b.v < n)
    ensures Holds(MakeCondition2(Any(), a, b), TypesOf(e, n))
  {
    AnyHasAll(BaseOf(v));
    assert HoldsAt(MakeCondition2(Any(), a, b), TypesOf(e, n), BaseOf(v));
  }

  lemma OutcomeTypes(test: Test, v: Value, vals: seq<Value>, yes: bool)
    requires |vals| == Arity(test) && Outcome(test, vals, yes) && !test.EqualTest? && v == vals[0]
    ensures BaseOf(v) in if yes then YesNoTypes(test).0 else YesNoTypes(test).1
  {
    AnyHasAll(BaseOf(v));
    match test
    case TypeTest(code, _) => CodesDescribeTypes(v, code);
    case FindTest(haystack, _) =>
      BaseTypesAll(haystack);
      if !yes {
        forall h | h in haystack && BaseOf(h) == BaseOf(v) ensures BaseOf(v) !in {NullType, Zero} {
          assert !SameValue(v, h);
        }
      }
    case _ =>
  }

  lemma NullIsOne(a: Value, b: Value)
    requires BaseOf(a) == NullType
    ensures SameValue(a, b) <==> BaseOf(b) == NullType
  {
  }

  /** The condition for the outcome holds for the values tested. */
  lemma OutcomeHolds(test: Test, args: seq<Arg>, vals: seq<Value>, yes: bool, e: State, n: nat)
    requires TestOk(test, args, n) && ArgsAre(args, e, vals) && Outcome(test, vals, yes)
    ensures var c := if yes then YesNo(test, args).0 else YesNo(test, args).1;
            c.Some? ==> Holds(c.value, TypesOf(e, n))
  {
    var types := if yes then YesNoTypes(test).0 else YesNoTypes(test).1;
    if test.EqualTest? {
      AnyHasAll(BaseOf(vals[0]));
      AnyHasAll(BaseOf(vals[1]));
      if IsNull(args[0]) {
        NullIsOne(vals[0], vals[1]);
        ConditionHolds(types, args[1], e, vals[1], n);
      } else if IsNull(args[1]) {
        NullIsOne(vals[1], vals[0]);
        ConditionHolds(types, args[0], e, vals[0], n);
      } else if yes {
        Condition2Holds(args[0], args[1], e, vals[0], vals[1], n);
      }
    } else {
      OutcomeTypes(test, vals[0], vals, yes);
      ConditionHolds(types, args[0], e, vals[0], n);
    }
  }

  // ----- generating the constraints -----

  function BranchConstraint(c: Option<Condition>): Constraint {
    Constraint(if c.Some? then [c.value] else [], None, Condition({}, []))
  }

  // The constraints of the edge taken and of the other edge.
  ghost predicate BranchGenerated(test: Test, args: seq<Arg>, copies: seq<(Var, Var)>, n: nat, edges: (Iconstraint, Iconstraint))
    requires |args| == Arity(test)
  {
    var (yes, no) := YesNo(test, args);
    && WellFormed(edges.0, n) && WellFormed(edges.1, n)
    && edges.0.constraints == [BranchConstraint(if test.negated then no else yes)]
    && edges.1.constraints == [BranchConstraint(if test.negated then yes else no)]
    && (forall p :: p in edges.0.copies <==> p in copies && (p.0 in edges.0.vars || p.1 in edges.0.vars))
    && (forall p :: p in edges.1.copies <==> p in copies && (p.0 in edges.1.vars || p.1 in edges.1.vars))
  }

  method GenerateBranchConstraints(test: Test, args: seq<Arg>, copies: seq<(Var, Var)>, n: nat)
    returns (edges: (Iconstraint, Iconstraint))
    requires TestOk(test, args, n) && forall p :: p in copies ==> p.0 < n && p.1 < n
    ensures BranchGenerated(test, args, copies, n, edges)
  {
    var (yes, no) := YesNo(test, args);
    YesNoKnown(test, args, n);
    var ctrue := BuildIconstraint([BranchConstraint(yes)], copies, n);
    var cfalse := BuildIconstraint([BranchConstraint(no)], copies, n);
    edges := if test.negated then (cfalse, ctrue) else (ctrue, cfalse);
  }

  lemma YesNoKnown(test: Test, args: seq<Arg>, n: nat)
    requires TestOk(test, args, n)
    ensures WellFormedConstraint(BranchConstraint(YesNo(test, args).0), n)
    ensures WellFormedConstraint(BranchConstraint(YesNo(test, args).1), n)
  {
  }

  /** Taking a branch, or not, is admitted by the constraint of the edge that is followed. */
  lemma BranchIsAdmitted(test: Test, args: seq<Arg>, copies: seq<(Var, Var)>, n: nat, edges: (Iconstraint, Iconstraint),
                         e: State, vals: seq<Value>, yes: bool)
    requires TestOk(test, args, n) && BranchGenerated(test, args, copies, n, edges)
    requires ArgsAre(args, e, vals) && Outcome(test, vals, yes)
    requires forall p :: p in copies ==> CopyHolds(p, TypesOf(e, n))
    ensures Admits(if yes != test.negated then edges.0 else edges.1, TypesOf(e, n), TypesOf(e, n))
  {
    OutcomeHolds(test, args, vals, yes, e, n);
    var c := BranchConstraint(if yes then YesNo(test, args).0 else YesNo(test, args).1);
    var ic := if yes != test.negated then edges.0 else edges.1;
    assert ic.constraints == [c] && forall v :: v in ic.vars <==> Concerns(c, v) by {
      assert c in ic.constraints;
    }
    BranchAdmits(ic, TypesOf(e, n), c);
  }
}
