/** The code mgen_multiply emits maps the word of n to the word of n*c. */
module MultiplyCode {
  import opened Arithmetic
  import opened MachineCode
  import opened Multiplication
  import opened Prelude

  // ----- registers as linear functions of one source register -----

  function Lin(a: int, x: int, b: int): int {
    Word(a * x + b)
  }

  /** After the code, reg holds a*x + b where x is what src held before. */
  ghost predicate Holds(code: seq<Ins>, src: Reg, reg: Reg, a: int, b: int) {
    forall s: State :: 0 <= s.regs(src) < WORD ==> Exec(code, s).regs(reg) == Lin(a, s.regs(src), b)
  }

  // The code changes no registers but dr and r11.
  ghost predicate Leaves(code: seq<Ins>, dr: Reg) {
    forall s: State, r: Reg :: r != dr && r != SCRATCH2 ==> Exec(code, s).regs(r) == s.regs(r)
  }

  // The instruction sets d to x*k + y*m + c, for x in r1 and y in r2, and nothing else.
  ghost predicate Linear(i: Ins, d: Reg, r1: Reg, k: int, r2: Reg, m: int, c: int) {
    forall s: State, r: Reg :: Step(i, s).regs(r) == if r == d then Word(s.regs(r1) * k + s.regs(r2) * m + c) else s.regs(r)
  }

  lemma LinearCombination(x: int, a1: int, b1: int, k: int, a2: int, b2: int, m: int, c: int)
    ensures Word(Lin(a1, x, b1) * k + Lin(a2, x, b2) * m + c) == Lin(a1 * k + a2 * m, x, b1 * k + b2 * m + c)
  {
    WordLinear(a1 * x + b1, k, a2 * x + b2, m, c);
    Expand(a1, x, b1, k);
    Expand(a2, x, b2, m);
    Distribute(a1 * k, a2 * m, x);
  }

  lemma Expand(a: int, x: int, b: int, k: int)
    ensures (a * x + b) * k == a * k * x + b * k
  {
    Distribute(a * x, b, k);
    Associate(a, x, k);
  }

  // One more linear instruction.
  lemma LinearStep(code: seq<Ins>, i: Ins, src: Reg, d: Reg, r1: Reg, a1: int, b1: int, k: int,
                   r2: Reg, a2: int, b2: int, m: int, c: int)
    requires Linear(i, d, r1, k, r2, m, c)
    requires Holds(code, src, r1, a1, b1) && Holds(code, src, r2, a2, b2)
    ensures Holds(code + [i], src, d, a1 * k + a2 * m, b1 * k + b2 * m + c)
  {
    forall s: State | 0 <= s.regs(src) < WORD
      ensures Exec(code + [i], s).regs(d) == Lin(a1 * k + a2 * m, s.regs(src), b1 * k + b2 * m + c)
    {
      ExecAppend(code, i, s);
      var e := Exec(code, s);
      assert Step(i, e).regs(d) == Word(e.regs(r1) * k + e.regs(r2) * m + c);
      LinearCombination(s.regs(src), a1, b1, k, a2, b2, m, c);
    }
  }

  // Other registers keep what they hold.
  lemma FrameStep(code: seq<Ins>, i: Ins, src: Reg, d: Reg, r1: Reg, k: int, r2: Reg, m: int, c: int, reg: Reg, a: int, b: int)
    requires Linear(i, d, r1, k, r2, m, c) && reg != d && Holds(code, src, reg, a, b)
    ensures Holds(code + [i], src, reg, a, b)
  {
    forall s: State | 0 <= s.regs(src) < WORD ensures Exec(code + [i], s).regs(reg) == Lin(a, s.regs(src), b) {
      ExecAppend(code, i, s);
      var e := Exec(code, s);
      assert Step(i, e).regs(reg) == e.regs(reg);
    }
  }

  lemma LeavesStep(code: seq<Ins>, i: Ins, d: Reg, r1: Reg, k: int, r2: Reg, m: int, c: int, dr: Reg)
    requires Linear(i, d, r1, k, r2, m, c) && (d == dr || d == SCRATCH2) && Leaves(code, dr)
    ensures Leaves(code + [i], dr)
  {
    forall s: State, r: Reg | r != dr && r != SCRATCH2 ensures Exec(code + [i], s).regs(r) == s.regs(r) {
      ExecAppend(code, i, s);
    }
  }

  // Destination d := r1*k + r2*m + c.
  datatype Form = Form(d: Reg, r1: Reg, k: int, r2: Reg, m: int, c: int)

  // What an instruction computes, if that is a linear function of registers.
  function FormOf(i: Ins): Option<Form> {
    match i
    case Mov(a, d) => Some(Form(d, a, 1, a, 0, 0))
    case LeaIdx(a, disp, d) => Some(Form(d, a, 1, a, 0, disp))
    case LeaQidx(a, scale, disp, d) => Some(Form(d, a, scale, a, 0, disp))
    case LeaRidx(a, scale, b, disp, d) => Some(Form(d, a, scale, b, 1, disp))
    case Add(a, d) => Some(Form(d, d, 1, a, 1, 0))
    case AddImm(k, d) => Some(Form(d, d, 1, d, 0, k))
    case Sub(a, d) => Some(Form(d, d, 1, a, -1, 0))
    case SubImm(k, d) => Some(Form(d, d, 1, d, 0, -k))
    case Neg(d) => Some(Form(d, d, -1, d, 0, 0))
    case Imul(a, k, d) => Some(Form(d, a, k, a, 0, 0))
    case Shl(n, d) => Some(Form(d, d, Pow2(n), d, 0, 0))
    case _ => None
  }

  lemma FormIsLinear(i: Ins)
    requires FormOf(i).Some?
    ensures var f := FormOf(i).value; Linear(i, f.d, f.r1, f.k, f.r2, f.m, f.c)
  {
  }

  // Registers known to hold linear functions of what src held.
  type Contents = map<Reg, (int, int)>

  ghost predicate AllHold(code: seq<Ins>, src: Reg, known: Contents) {
    forall r :: r in known ==> Holds(code, src, r, known[r].0, known[r].1)
  }

  // The contents after an instruction of a linear form.
  function Updated(known: Contents, f: Form): Contents
    requires f.r1 in known && f.r2 in known
  {
    known[f.d := (known[f.r1].0 * f.k + known[f.r2].0 * f.m, known[f.r1].1 * f.k + known[f.r2].1 * f.m + f.c)]
  }

  lemma RegisterHolds(code: seq<Ins>, i: Ins, src: Reg, known: Contents, f: Form, r: Reg)
    requires AllHold(code, src, known) && f.r1 in known && f.r2 in known && (r in known || r == f.d)
    requires Linear(i, f.d, f.r1, f.k, f.r2, f.m, f.c)
    ensures Holds(code + [i], src, r, Updated(known, f)[r].0, Updated(known, f)[r].1)
  {
    if r == f.d {
      var x, y := known[f.r1], known[f.r2];
      LinearStep(code, i, src, f.d, f.r1, x.0, x.1, f.k, f.r2, y.0, y.1, f.m, f.c);
    } else {
      FrameStep(code, i, src, f.d, f.r1, f.k, f.r2, f.m, f.c, r, known[r].0, known[r].1);
    }
  }

  lemma UpdatedHold(code: seq<Ins>, i: Ins, src: Reg, known: Contents, f: Form)
    requires AllHold(code, src, known) && f.r1 in known && f.r2 in known
    requires Linear(i, f.d, f.r1, f.k, f.r2, f.m, f.c)
    ensures AllHold(code + [i], src, Updated(known, f))
  {
    var known' := Updated(known, f);
    forall r | r in known' ensures Holds(code + [i], src, r, known'[r].0, known'[r].1) {
      RegisterHolds(code, i, src, known, f, r);
    }
  }

  lemma ConstantHolds(code: seq<Ins>, k: int, d: Reg, src: Reg, known: Contents, dr: Reg)
    requires AllHold(code, src, known) && Leaves(code, dr) && (d == dr || d == SCRATCH2)
    ensures AllHold(code + [MovImm(k, d)], src, known[d := (0, k)]) && Leaves(code + [MovImm(k, d)], dr)
  {
    forall s: State ensures Exec(code + [MovImm(k, d)], s) == Step(MovImm(k, d), Exec(code, s)) {
      ExecAppend(code, MovImm(k, d), s);
    }
  }

  /** The code list being extended by one multiplication, from position start on. */
  class Generator {
    var ins: seq<Ins>
    ghost const start: nat
    ghost const src: Reg
    ghost const dr: Reg
    ghost var known: Contents

    ghost predicate Valid()
      reads this
    {
      start <= |ins| && Leaves(ins[start..], dr) && AllHold(ins[start..], src, known)
    }

    constructor (code: seq<Ins>, ghost src: Reg, ghost dr: Reg)
      ensures Valid() && ins == code && start == |code|
      ensures this.src == src && this.dr == dr && known == map[src := (1, 0)]
    {
      ins := code;
      this.start, this.src, this.dr, known := |code|, src, dr, map[src := (1, 0)];
      new;
      assert ins[start..] == [];
    }

    // Appends an instruction that leaves the linear function v in its destination.
    method Emit(i: Ins, ghost v: (int, int))
      requires Valid() && FormOf(i).Some? && (FormOf(i).value.d == dr || FormOf(i).value.d == SCRATCH2)
      requires FormOf(i).value.r1 in known && FormOf(i).value.r2 in known
      requires var f := FormOf(i).value;
               && v.0 == known[f.r1].0 * f.k + known[f.r2].0 * f.m
               && v.1 == known[f.r1].1 * f.k + known[f.r2].1 * f.m + f.c
      modifies this
      ensures Valid() && ins == old(ins) + [i] && known == old(known)[FormOf(i).value.d := v]
    {
      ghost var code := ins[start..];
      FormIsLinear(i);
      ghost var f := FormOf(i).value;
      UpdatedHold(code, i, src, known, f);
      LeavesStep(code, i, f.d, f.r1, f.k, f.r2, f.m, f.c, dr);
      ins := ins + [i];
      known := Updated(known, f);
      assert ins[start..] == code + [i];
    }

    method EmitConstant(k: int, d: Reg)
      requires Valid() && (d == dr || d == SCRATCH2)
      modifies this
      ensures Valid() && ins == old(ins) + [MovImm(k, d)] && known == old(known)[d := (0, k)]
    {
      ghost var code := ins[start..];
      ConstantHolds(code, k, d, src, known, dr);
      ins := ins + [MovImm(k, d)];
      known := known[d := (0, k)];
      assert ins[start..] == code + [MovImm(k, d)];
    }
  }

  // ----- one factor -----

  // r11 := r * absadd + addmod
  method EmitAddend(g: Generator, r: Reg, absadd: int, addmod: int)
    requires g.Valid() && r in g.known && absadd in {1, 2, 3, 4, 5, 8, 9}
    modifies g
    ensures g.Valid() && old(g.ins) <= g.ins
    ensures g.known == old(g.known)[SCRATCH2 := (old(g.known[r].0) * absadd, old(g.known[r].1) * absadd + addmod)]
  {
    ghost var v := (g.known[r].0 * absadd, g.known[r].1 * absadd + addmod);
    if absadd == 1 {
      if addmod == 0 {
        g.Emit(Mov(r, SCRATCH2), v);
      } else {
        g.Emit(LeaIdx(r, addmod, SCRATCH2), v);
      }
    } else if absadd == 2 || absadd == 4 || absadd == 8 {
      g.Emit(LeaQidx(r, absadd, addmod, SCRATCH2), v);
    } else {
      g.Emit(LeaRidx(r, absadd - 1, r, addmod, SCRATCH2), v);
    }
  }

  /** What is still to be added to dr for a factor: reg holds the factor's
      operand times |add|, plus addmod. */
  datatype Addend = Addend(reg: Reg, add: int, addmod: int)

  // The operand times add is the linear function (p, q).
  ghost predicate AddendHeld(a: Addend, known: Contents, p: int, q: int) {
    && a.reg in known
    && known[a.reg] == if a.add > 0 then (p, q + a.addmod) else (-p, a.addmod - q)
  }

  // Computes the addend into r11 unless it is r itself and stays available.
  method PrepareAddend(g: Generator, f: int, add: int, last: bool, neg: bool, r: Reg, dr: Reg, excess: int) returns (a: Addend)
    requires g.Valid() && r in g.known && r != SCRATCH2 && dr != SCRATCH2 && dr == g.dr && add in ADDENDS
    modifies g
    ensures g.Valid() && old(g.ins) <= g.ins
    ensures r in g.known && g.known[r] == old(g.known[r]) && a.add == add && a.reg != dr
    ensures AddendHeld(a, g.known, g.known[r].0 * add, g.known[r].1 * add)
  {
    if r == dr || (add != 1 && add != -1) {
      var addmod := 0;
      if last {
        addmod := -excess * (f + add);
        addmod := addmod + (if neg then -1 else 1);
      }
      var absadd := add;
      if add < 0 {
        addmod, absadd := -addmod, -add;
      }
      EmitAddend(g, r, absadd, addmod);
      a := Addend(SCRATCH2, add, addmod);
    } else {
      a := Addend(r, add, 0);
    }
  }

  lemma Subtract(excess: int, a: int, p: int)
    ensures (excess - a) * p == excess * p - a * p
  {
    Distribute(excess - a, a, p);
  }

  // dr := r shifted left, with the excess taken out first if it would need a 64-bit constant afterwards.
  method EmitShift(g: Generator, n: nat, add: int, c: int, r: Reg, dr: Reg, excess: int) returns (excess': int)
    requires g.Valid() && r in g.known && dr == g.dr && g.known[r].1 == excess - g.known[r].0
    requires !Int32(c) ==> excess == 1 && add == 0
    modifies g
    ensures g.Valid() && old(g.ins) <= g.ins && dr in g.known
    ensures forall x :: x in old(g.known) && x != dr ==> x in g.known && g.known[x] == old(g.known[x])
    ensures g.known[dr].0 == old(g.known[r].0) * Pow2(n)
    ensures g.known[dr].1 == excess' - g.known[dr].0 - excess * add
  {
    ghost var a := g.known[r].0;
    if !Int32(c) && Int32(c / Pow2(n)) {
      assert excess > 0 && excess < 0x7fff_ffff;
      if r != dr {
        g.Emit(LeaIdx(r, -excess, dr), (a, -a));
      } else {
        g.Emit(SubImm(excess, dr), (a, -a));
      }
      excess' := 0;
      Subtract(0, a, Pow2(n));
      g.Emit(Shl(n, dr), (a * Pow2(n), -(a * Pow2(n))));
    } else {
      if r != dr {
        g.Emit(Mov(r, dr), (a, excess - a));
      }
      excess' := excess * Pow2(n) + excess * add;
      EmitShl(g, n, dr, a, excess);
    }
  }

  method EmitShl(g: Generator, n: nat, dr: Reg, ghost a: int, ghost excess: int)
    requires g.Valid() && dr == g.dr && dr in g.known && g.known[dr] == (a, excess - a)
    modifies g
    ensures g.Valid() && old(g.ins) <= g.ins
    ensures g.known == old(g.known)[dr := (a * Pow2(n), excess * Pow2(n) - a * Pow2(n))]
  {
    Subtract(excess, a, Pow2(n));
    g.Emit(Shl(n, dr), (a * Pow2(n), excess * Pow2(n) - a * Pow2(n)));
  }

  // The end of a factor: dr := dr plus or minus its addend.
  method AddAddend(g: Generator, a: Addend, last: bool, neg: bool, dr: Reg, excess: int, ghost p: int, ghost q: int) returns (excess': int)
    requires g.Valid() && dr == g.dr && dr in g.known && AddendHeld(a, g.known, p, q) && a.add != 0
    modifies g
    ensures g.Valid() && old(g.ins) <= g.ins && dr in g.known
    ensures g.known[dr].0 == old(g.known[dr].0) + p
    ensures g.known[dr].1 - excess' == old(g.known[dr].1) - excess + q
  {
    ghost var (s, t) := g.known[dr];
    if a.add > 0 {
      excess' := excess + a.addmod;
      var mod := (if neg then -1 else 1) - excess';
      if last && mod != 0 {
        g.Emit(LeaRidx(dr, 1, a.reg, mod, dr), (s + p, t + q + a.addmod + mod));
        excess' := excess' + mod;
      } else {
        g.Emit(Add(a.reg, dr), (s + p, t + q + a.addmod));
      }
    } else {
      g.Emit(Sub(a.reg, dr), (s + p, t + q - a.addmod));
      excess' := excess - a.addmod;
    }
  }

  // The factor 8 + add; times is what it makes of the excess.
  method EmitTimes8(g: Generator, a: Addend, last: bool, neg: bool, r: Reg, dr: Reg, times: int, ghost p: int, ghost q: int) returns (excess': int)
    requires g.Valid() && dr == g.dr && r in g.known && a.reg != dr && a.add != 0
    requires AddendHeld(a, g.known, p, q)
    modifies g
    ensures g.Valid() && old(g.ins) <= g.ins && dr in g.known
    ensures g.known[dr].0 == 8 * old(g.known[r].0) + p
    ensures g.known[dr].1 - excess' == 8 * old(g.known[r].1) + q - times
  {
    ghost var (x, y) := g.known[r];
    excess' := times;
    var mod := 0;
    if last && a.addmod == 0 {
      mod := (if neg then -1 else 1) - excess';
      excess' := excess' + mod;
    }
    if a.add > 0 {
      g.Emit(LeaRidx(r, 8, a.reg, mod, dr), (8 * x + p, 8 * y + q + a.addmod + mod));
      excess' := excess' + a.addmod;
    } else {
      g.Emit(LeaQidx(r, 8, mod, dr), (8 * x, 8 * y + mod));
      g.Emit(Sub(a.reg, dr), (8 * x + p, 8 * y + mod + q - a.addmod));
      excess' := excess' - a.addmod;
    }
  }

  lemma ShiftedAndAdded(x: int, excess: int, f: int, add: int, excess': int, k: (int, int))
    requires k.0 == x * f + x * add && k.1 == excess' - x * f - excess * add + (excess - x) * add
    ensures k.0 == x * (f + add) && k.1 == excess' - k.0
  {
    Distribute(f, add, x);
    Subtract(excess, x, add);
  }

  lemma EightTimesAndAdded(x: int, excess: int, add: int, excess': int, k: (int, int))
    requires k.0 == 8 * x + x * add && k.1 - excess' == 8 * (excess - x) + (excess - x) * add - excess * (8 + add)
    ensures k.0 == x * (8 + add) && k.1 == excess' - k.0
  {
    Distribute(8, add, x);
    Distribute(8, add, excess);
    Subtract(excess, x, add);
  }

  // Multiplies by a power of two plus an addend.
  method MultiplyAndAdd(g: Generator, factor: Factor, last: bool, neg: bool, c: int, r: Reg, dr: Reg, excess: int)
    returns (excess': int)
    requires g.Valid() && factor.MulAdd? && factor.Valid() && dr == g.dr && r != SCRATCH2 && dr != SCRATCH2
    requires r in g.known && g.known[r].1 == excess - g.known[r].0 && Int32(c)
    modifies g
    ensures g.Valid() && old(g.ins) <= g.ins && dr in g.known
    ensures g.known[dr].0 == old(g.known[r].0) * factor.Value() && g.known[dr].1 == excess' - g.known[dr].0
  {
    var f, add := factor.f, factor.add;
    ghost var (x, y) := g.known[r];
    ghost var p, q := x * add, y * add;
    var addend := PrepareAddend(g, f, add, last, neg, r, dr, excess);
    if f > 8 {
      excess' := EmitShift(g, factor.log, add, c, r, dr, excess);
      excess' := AddAddend(g, addend, last, neg, dr, excess', p, q);
      ShiftedAndAdded(x, excess, f, add, excess', g.known[dr]);
    } else {
      excess' := EmitTimes8(g, addend, last, neg, r, dr, excess * (f + add), p, q);
      EightTimesAndAdded(x, excess, add, excess', g.known[dr]);
    }
  }

  // Multiplies by a factor that one lea or add can do.
  method MultiplySmall(g: Generator, f: int, last: bool, neg: bool, r: Reg, dr: Reg, excess: int) returns (excess': int)
    requires g.Valid() && f in {2, 3, 4, 5, 8, 9} && dr == g.dr
    requires r in g.known && g.known[r].1 == excess - g.known[r].0
    modifies g
    ensures g.Valid() && old(g.ins) <= g.ins && dr in g.known
    ensures g.known[dr].0 == old(g.known[r].0) * f && g.known[dr].1 == excess' - g.known[dr].0
  {
    excess' := excess * f;
    var mod := 0;
    if last {
      mod := (if neg then -1 else 1) - excess';
      excess' := excess' + mod;
    }
    ghost var v := (g.known[r].0 * f, excess' - g.known[r].0 * f);
    if f == 2 && r == dr && mod == 0 {
      g.Emit(Add(r, dr), v);
    } else if f == 2 || f == 3 || f == 5 || f == 9 {
      g.Emit(LeaRidx(r, f - 1, r, mod, dr), v);
    } else {
      g.Emit(LeaQidx(r, f, mod, dr), v);
    }
  }

  /** Multiplies by one factor. Before, r holds a*x + (excess - a); afterwards dr
      holds the same for a times the factor and the new excess. */
  method MultiplyByFactor(g: Generator, factor: Factor, last: bool, neg: bool, c: int, r: Reg, dr: Reg, excess: int)
    returns (excess': int)
    requires g.Valid() && factor.Valid() && dr == g.dr && r != SCRATCH2 && dr != SCRATCH2
    requires r in g.known && g.known[r].1 == excess - g.known[r].0
    requires !Int32(c) ==> excess == 1 && !factor.MulAdd?
    modifies g
    ensures g.Valid() && old(g.ins) <= g.ins && dr in g.known
    ensures g.known[dr].0 == old(g.known[r].0) * factor.Value() && g.known[dr].1 == excess' - g.known[dr].0
  {
    match factor
    case Shift(n) => excess' := EmitShift(g, n, 0, c, r, dr, excess);
    case Mul(f) => excess' := MultiplySmall(g, f, last, neg, r, dr, excess);
    case MulAdd(_, _, _) => excess' := MultiplyAndAdd(g, factor, last, neg, c, r, dr, excess);
  }

  // ----- the whole multiplication -----

  /** The emitted code takes the word of every mudlle integer n in src to the
      word of n*c in dr, modulo 2^64, and changes no other register but r11. */
  ghost predicate Multiplies(code: seq<Ins>, src: Reg, dr: Reg, c: int) {
    Leaves(code, dr) && forall s: State, n: int :: TakesToProduct(code, src, dr, c, s, n)
  }

  ghost predicate TakesToProduct(code: seq<Ins>, src: Reg, dr: Reg, c: int, s: State, n: int) {
    s.regs(src) == Tagged(n) ==> Exec(code, s).regs(dr) == Tagged(n * c)
  }

  lemma TaggedTimes(n: int, c: int, b: int)
    ensures Word(c * Tagged(n) + b) == Word(2 * (n * c) + c + b)
  {
    var x := 2 * n + 1;
    WordLinear(x, c, 0, 0, b);
    Distribute(2 * n, 1, c);
    Associate(2, n, c);
    assert x * c + b == 2 * (n * c) + c + b;
    assert c * Word(x) == Word(x) * c && Word(0) * 0 == 0;
  }

  lemma LinearMultiplies(code: seq<Ins>, src: Reg, dr: Reg, c: int)
    requires Leaves(code, dr) && Holds(code, src, dr, c, 1 - c)
    ensures Multiplies(code, src, dr, c)
  {
    forall s: State, n: int ensures TakesToProduct(code, src, dr, c, s, n) {
      TaggedTimes(n, c, 1 - c);
    }
  }

  // Setting the lowest bit of an even word adds the one that is missing.
  lemma OrMultiplies(code: seq<Ins>, src: Reg, dr: Reg, c: int)
    requires Leaves(code, dr) && Holds(code, src, dr, c, -c)
    ensures Multiplies(code + [OrByte1(dr)], src, dr, c)
  {
    var code' := code + [OrByte1(dr)];
    forall s: State ensures Exec(code', s) == Step(OrByte1(dr), Exec(code, s)) {
      ExecAppend(code, OrByte1(dr), s);
    }
    forall s: State, n: int ensures TakesToProduct(code', src, dr, c, s, n) {
      TaggedTimes(n, c, -c);
      EvenWord(n * c);
    }
  }

  lemma EvenWord(m: int)
    ensures Word(2 * m) % 2 == 0 && Word(Word(2 * m) + 1) == Word(2 * m + 1)
  {
    var q := 2 * m / WORD;
    assert 2 * m == q * WORD + Word(2 * m);
    assert Word(2 * m) == 2 * (m - q * (WORD / 2));
    WordLinear(2 * m, 1, 0, 0, 1);
  }

  lemma KnownMultiplies(code: seq<Ins>, src: Reg, dr: Reg, known: Contents, c: int)
    requires Leaves(code, dr) && AllHold(code, src, known) && dr in known && known[dr].0 == c && known[dr].1 == 1 - c
    ensures Multiplies(code, src, dr, c)
  {
    var a, b := known[dr].0, known[dr].1;
    assert Holds(code, src, dr, a, b);
    LinearMultiplies(code, src, dr, c);
  }

  // dr := 2 - src or, in place, -dr + 2 (the negate case of mgen_inline1).
  method MgenNegate(code: seq<Ins>, src: Reg, d: Reg) returns (code': seq<Ins>)
    requires d != SCRATCH2
    ensures code <= code' && Multiplies(code'[|code|..], src, d, -1)
  {
    var g := new Generator(code, src, d);
    if src != d {
      g.EmitConstant(2, d);
      g.Emit(Sub(src, d), (-1, 2));
    } else {
      g.Emit(Neg(d), (-1, 0));
      g.Emit(AddImm(2, d), (-1, 2));
    }
    KnownMultiplies(g.ins[g.start..], src, d, g.known, -1);
    code' := g.ins;
  }

  // Multiplication by -1, 0 and 1.
  method MgenTrivial(code: seq<Ins>, src: Reg, c: int, d: Reg) returns (code': seq<Ins>)
    requires d != SCRATCH2 && -1 <= c <= 1
    ensures code <= code' && Multiplies(code'[|code|..], src, d, c)
  {
    if c == -1 {
      code' := MgenNegate(code, src, d);
      return;
    }
    var g := new Generator(code, src, d);
    if c == 0 {
      g.EmitConstant(1, d);
    } else if src != d {
      g.Emit(Mov(src, d), (1, 0));
    }
    KnownMultiplies(g.ins[g.start..], src, d, g.known, c);
    code' := g.ins;
  }

  // Multiplication by c with imul, when factors would cost more.
  method MgenImul(code: seq<Ins>, src: Reg, c: int, dr: Reg) returns (code': seq<Ins>)
    requires src != SCRATCH2 && dr != SCRATCH2
    ensures code <= code' && Multiplies(code'[|code|..], src, dr, c)
  {
    var g := new Generator(code, src, dr);
    g.Emit(Imul(src, c, dr), (c, 0));
    if Int32(c - 1) {
      g.Emit(SubImm(c - 1, dr), (c, 1 - c));
    } else {
      g.EmitConstant(c - 1, SCRATCH2);
      g.Emit(Sub(SCRATCH2, dr), (c, 1 - c));
    }
    KnownMultiplies(g.ins[g.start..], src, dr, g.known, c);
    code' := g.ins;
  }

  /** Adds what is missing once all factors are multiplied in: dr holds
      c*x + excess + 1 - c. */
  method AdjustExcess(g: Generator, dr: Reg, ghost c: int, excess: int)
    requires g.Valid() && dr == g.dr && dr != SCRATCH2 && dr in g.known && g.known[dr] == (c, excess + 1 - c)
    modifies g
    ensures old(g.ins) <= g.ins && Multiplies(g.ins[g.start..], g.src, dr, c)
  {
    if excess == -1 {
      OrMultiplies(g.ins[g.start..], g.src, dr, c);
      assert (g.ins + [OrByte1(dr)])[g.start..] == g.ins[g.start..] + [OrByte1(dr)];
      g.ins := g.ins + [OrByte1(dr)];
      return;
    }
    if excess != 0 {
      if Int32(if excess < 0 then -excess else excess) {
        g.Emit(if excess < 0 then AddImm(-excess, dr) else SubImm(excess, dr), (c, 1 - c));
      } else {
        g.EmitConstant(if excess < 0 then -excess else excess, SCRATCH2);
        g.Emit(if excess < 0 then Add(SCRATCH2, dr) else Sub(SCRATCH2, dr), (c, 1 - c));
      }
    }
    KnownMultiplies(g.ins[g.start..], g.src, dr, g.known, c);
  }

  /** Multiplies by the factors in turn: r holds P*x + (excess - P) for the
      product P of those already consumed. */
  method MgenFactors(code: seq<Ins>, src: Reg, c: int, neg: bool, dr: Reg, factors: seq<Factor>) returns (code': seq<Ins>)
    requires src != SCRATCH2 && dr != SCRATCH2 && factors != [] && ValidFactors(factors)
    requires !Int32(c) ==> |factors| == 1 && !factors[0].MulAdd?
    ensures code <= code'
    ensures Multiplies(code'[|code|..], src, dr, if neg then -Product(factors) else Product(factors))
  {
    var g := new Generator(code, src, dr);
    var r := src;
    var excess := 1;
    var rest := factors;
    ghost var done, total := 1, Product(factors);
    while rest != []
      invariant fresh(g) && g.Valid() && g.src == src && g.dr == dr && g.start == |code| && code <= g.ins
      invariant r in g.known && (r == dr || r == src) && (rest != factors ==> r == dr) && |rest| <= |factors|
      invariant ValidFactors(rest) && (!Int32(c) ==> rest == factors || rest == [])
      invariant rest == factors ==> excess == 1
      invariant g.known[r].0 == done && g.known[r].1 == excess - done
      invariant done * Product(rest) == total
      decreases |rest|
    {
      var f := rest[0];
      ProductStep(done, rest);
      done := done * f.Value();
      excess := MultiplyByFactor(g, f, rest[1..] == [], neg, c, r, dr, excess);
      rest := rest[1..];
      r := dr;
    }
    assert r == dr;
    if neg {
      g.Emit(Neg(dr), (-total, total - excess));
      excess := -excess;
    }
    AdjustExcess(g, dr, if neg then -total else total, excess - 1);
    code' := g.ins;
  }

  // 2^62 and -2^62 multiply tagged words alike.
  lemma MinintMultiplies(code: seq<Ins>, src: Reg, dr: Reg)
    requires Multiplies(code, src, dr, -MININT)
    ensures Multiplies(code, src, dr, MININT)
  {
    forall s: State, n: int ensures TakesToProduct(code, src, dr, MININT, s, n) {
      assert TakesToProduct(code, src, dr, -MININT, s, n);
      WordMultiple(2 * (n * MININT) + 1, n);
    }
  }

  lemma Pow2Values()
    ensures Pow2(31) == 0x8000_0000 && Pow2(62) == -MININT
  {
    assert Pow2(8) == 256;
    assert Pow2(16) == 0x1_0000;
    assert Pow2(24) == 0x100_0000;
    assert Pow2(31) == 0x8000_0000;
    assert Pow2(39) == 0x80_0000_0000;
    assert Pow2(47) == 0x8000_0000_0000;
    assert Pow2(55) == 0x80_0000_0000_0000;
  }

  // Without its sign, the constant fits in 32 bits or is a power of two.
  lemma Magnitude(c0: int, c: int)
    requires Int32(c0) || IsPow2(c0) || IsPow2(-c0)
    requires 1 < c == (if c0 < 0 then -c0 else c0)
    ensures Int32(c) || IsPow2(c)
  {
    Pow2Values();
    if Int32(c0) {
      assert c == 0x8000_0000 ==> IsPow2(c);
    } else {
      var k: nat :| c0 == Pow2(k) || -c0 == Pow2(k);
      assert c == Pow2(k);
    }
  }

  // Negation of a 63-bit integer.
  function Negate63(c: int): int {
    if c == MININT then MININT else -c
  }

  /** Multiplies by a constant that is a 32-bit integer or a power of two or its
      negation, including the least integer. */
  method MgenMultiply(code: seq<Ins>, src: Reg, c0: int, dr: Reg) returns (code': seq<Ins>)
    requires src != SCRATCH2 && dr != SCRATCH2
    requires MININT <= c0 < -MININT && (Int32(c0) || IsPow2(c0) || IsPow2(-c0))
    ensures code <= code' && Multiplies(code'[|code|..], src, dr, c0)
  {
    if -1 <= c0 <= 1 {
      code' := MgenTrivial(code, src, c0, dr);
      return;
    }
    var neg := c0 < 0;
    var c := if neg then Negate63(c0) else c0;
    if c == MININT {
      Pow2Values();
      assert [Shift(62)][1..] == [];
      code' := MgenFactors(code, src, c, false, dr, [Shift(62)]);
      MinintMultiplies(code'[|code|..], src, dr);
      return;
    }
    Magnitude(c0, c);
    var factors := MultiplyFactorize(c, neg);
    if factors.None? {
      assert Int32(c);
      code' := MgenImul(code, src, if neg then -c else c, dr);
    } else {
      code' := MgenFactors(code, src, c, neg, dr, factors.value);
    }
  }
}
