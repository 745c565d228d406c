/** The x86-64 instructions that genx64.mud emits for integer arithmetic by
    constants, on 64-bit words. A mudlle integer n is the word 2n+1. */
module MachineCode {
  import opened Arithmetic

  const WORD: int := 0x1_0000_0000_0000_0000

  // A register; numbers from 16 on can stand for stack slots.
  type Reg = nat

  // rax and r11; no variable is ever kept in r11.
  const SCRATCH: Reg := 0
  const SCRATCH2: Reg := 11
  // rdi, which is never allocated either.
  const ARG0: Reg := 7

  function Word(x: int): (w: int)
    ensures 0 <= w < WORD
  {
    x % WORD
  }

  // The word of a mudlle integer (x64:mudlleint).
  function Tagged(n: int): int {
    Word(2 * n + 1)
  }

  function Signed(w: int): int {
    if w < WORD / 2 then w else w - WORD
  }

  function BitAnd(a: nat, b: nat): nat {
    if a == 0 || b == 0 then 0
    else 2 * BitAnd(a / 2, b / 2) + (if a % 2 == 1 && b % 2 == 1 then 1 else 0)
  }

  datatype Ins =
    | Mov(src: Reg, dst: Reg)
    | MovImm(imm: int, dst: Reg)
    | LeaIdx(src: Reg, disp: int, dst: Reg)                              // src + disp
    | LeaQidx(src: Reg, scale: int, disp: int, dst: Reg)                 // src * scale + disp
    | LeaRidx(src: Reg, scale: int, base: Reg, disp: int, dst: Reg)      // src * scale + base + disp
    | Add(src: Reg, dst: Reg)
    | AddImm(imm: int, dst: Reg)
    | Sub(src: Reg, dst: Reg)
    | SubImm(imm: int, dst: Reg)
    | Neg(dst: Reg)
    | Imul(src: Reg, imm: int, dst: Reg)
    | Shl(n: nat, dst: Reg)
    | Shr(n: nat, dst: Reg)
    | Sar(n: nat, dst: Reg)
    | OrByte1(dst: Reg)
    | And(src: Reg, dst: Reg)
    | AndImm(imm: int, dst: Reg)
    | Test(src: Reg)
    | Cmp(a: Reg, b: Reg)
    | CmovS(src: Reg, dst: Reg)
    | CmovNS(src: Reg, dst: Reg)
    | CmovE(src: Reg, dst: Reg)
    | Zero(dst: Reg)                                                     // xor dst, dst
    | SetE(dst: Reg)                                                     // sets the low byte
    | Lea32(src: Reg, scale: int, base: Reg, disp: int, dst: Reg)        // 32-bit lea

  // Register contents, and the sign and zero flags of the last test or compare.
  datatype State = State(regs: Reg -> int, sf: bool, zf: bool)

  function Set(s: State, r: Reg, value: int): State {
    s.(regs := (x: Reg) => if x == r then Word(value) else s.regs(x))
  }

  function Step(i: Ins, s: State): State {
    match i
    case Mov(a, d) => Set(s, d, s.regs(a))
    case MovImm(k, d) => Set(s, d, k)
    case LeaIdx(a, disp, d) => Set(s, d, s.regs(a) + disp)
    case LeaQidx(a, scale, disp, d) => Set(s, d, s.regs(a) * scale + disp)
    case LeaRidx(a, scale, b, disp, d) => Set(s, d, s.regs(a) * scale + s.regs(b) + disp)
    case Add(a, d) => Set(s, d, s.regs(d) + s.regs(a))
    case AddImm(k, d) => Set(s, d, s.regs(d) + k)
    case Sub(a, d) => Set(s, d, s.regs(d) - s.regs(a))
    case SubImm(k, d) => Set(s, d, s.regs(d) - k)
    case Neg(d) => Set(s, d, -s.regs(d))
    case Imul(a, k, d) => Set(s, d, s.regs(a) * k)
    case Shl(n, d) => Set(s, d, s.regs(d) * Pow2(n))
    case Shr(n, d) => Set(s, d, Word(s.regs(d)) / Pow2(n))
    case Sar(n, d) => Set(s, d, Signed(Word(s.regs(d))) / Pow2(n))
    case OrByte1(d) => Set(s, d, if s.regs(d) % 2 == 0 then s.regs(d) + 1 else s.regs(d))
    case And(a, d) => Set(s, d, BitAnd(Word(s.regs(d)), Word(s.regs(a))))
    case AndImm(k, d) => Set(s, d, BitAnd(Word(s.regs(d)), Word(k)))
    case Test(a) => s.(sf := Signed(Word(s.regs(a))) < 0, zf := Word(s.regs(a)) == 0)
    case Cmp(a, b) => s.(sf := Signed(Word(s.regs(b) - s.regs(a))) < 0, zf := Word(s.regs(a)) == Word(s.regs(b)))
    case CmovS(a, d) => Set(s, d, if s.sf then s.regs(a) else s.regs(d))
    case CmovNS(a, d) => Set(s, d, if s.sf then s.regs(d) else s.regs(a))
    case CmovE(a, d) => Set(s, d, if s.zf then s.regs(a) else s.regs(d))
    case Zero(d) => Set(s, d, 0).(sf := false, zf := true)
    case SetE(d) => Set(s, d, s.regs(d) - s.regs(d) % 256 + (if s.zf then 1 else 0))
    case Lea32(a, scale, b, disp, d) => Set(s, d, (s.regs(a) * scale + s.regs(b) + disp) % 0x1_0000_0000)
  }

  function Exec(code: seq<Ins>, s: State): State {
    if code == [] then s else Step(code[|code|-1], Exec(code[..|code|-1], s))
  }

  lemma ExecAppend(code: seq<Ins>, i: Ins, s: State)
    ensures Exec(code + [i], s) == Step(i, Exec(code, s))
  {
    assert (code + [i])[..|code|] == code;
  }

  lemma {:induction false} ExecConcat(a: seq<Ins>, b: seq<Ins>, s: State)
    ensures Exec(a + b, s) == Exec(b, Exec(a, s))
    decreases |b|
  {
    if b == [] {
      assert a + b == a;
    } else {
      var last := |b| - 1;
      ExecConcat(a, b[..last], s);
      assert a + b == (a + b[..last]) + [b[last]];
      ExecAppend(a + b[..last], b[last], s);
    }
  }

  // Short pieces of code.
  lemma Exec1(i: Ins, s: State)
    ensures Exec([i], s) == Step(i, s)
  {
    assert [i] == [] + [i];
    ExecAppend([], i, s);
  }

  lemma Exec2(i: Ins, j: Ins, s: State)
    ensures Exec([i, j], s) == Step(j, Step(i, s))
  {
    assert [i, j] == [i] + [j];
    ExecAppend([i], j, s);
    Exec1(i, s);
  }

  lemma Exec3(i: Ins, j: Ins, k: Ins, s: State)
    ensures Exec([i, j, k], s) == Step(k, Step(j, Step(i, s)))
  {
    assert [i, j, k] == [i, j] + [k];
    ExecAppend([i, j], k, s);
    Exec2(i, j, s);
  }

  // ----- modular arithmetic -----

  lemma WordMultiple(x: int, q: int)
    ensures Word(x + q * WORD) == Word(x)
  {
    var d := x / WORD;
    assert x == d * WORD + x % WORD;
    assert x + q * WORD == (d + q) * WORD + x % WORD;
    DivModOf(x + q * WORD, WORD, d + q, x % WORD);
  }

  // Words may be reduced anywhere inside a linear combination.
  lemma WordLinear(u: int, k: int, v: int, m: int, c: int)
    ensures Word(Word(u) * k + Word(v) * m + c) == Word(u * k + v * m + c)
  {
    var p, q := u / WORD, v / WORD;
    Distribute(p * WORD, Word(u), k);
    Distribute(q * WORD, Word(v), m);
    Associate(p, WORD, k);
    Associate(q, WORD, m);
    Distribute(p * k, q * m, WORD);
    WordMultiple(Word(u) * k + Word(v) * m + c, p * k + q * m);
  }
}
