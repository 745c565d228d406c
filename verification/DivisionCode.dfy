/** Division and remainder of a tagged integer by plus or minus a power of two
    (mgen_divide and mgen_remainder in genx64.mud), and the multiplication by
    -1 they share. */
module DivisionCode {
  import opened Arithmetic
  import opened MachineCode
  import opened Multiplication
  import opened MultiplyCode

  // ----- truncating division -----

  // Division that rounds towards zero.
  function Quot(n: int, c: int): (q: int)
    requires c != 0
  {
    if n >= 0 then n / c else -(-n / c)
  }

  function Rem(n: int, c: int): int
    requires c != 0
  {
    n - c * Quot(n, c)
  }

  predicate Int63(n: int) {
    MININT <= n < -MININT
  }

  // ----- masks -----

  lemma {:induction false} AndMask(x: nat, k: nat)
    ensures BitAnd(x, Pow2(k) - 1) == x % Pow2(k)
  {
    if k == 0 {
      assert Pow2(0) == 1;
    } else {
      var p := Pow2(k - 1);
      AndMask(x / 2, k - 1);
      assert Pow2(k) == 2 * p;
      assert (2 * p - 1) / 2 == p - 1;
      ModDouble(x, p);
      if x == 0 {
        assert 0 % (2 * p) == 0;
      } else if p == 1 {
        assert BitAnd(x / 2, 0) == 0;
      }
    }
  }

  lemma ModDouble(x: nat, p: int)
    requires p > 0
    ensures x % (2 * p) == 2 * (x / 2 % p) + x % 2
  {
    var q, r := x / 2 / p, x / 2 % p;
    assert x / 2 == q * p + r;
    assert x == 2 * (q * p + r) + x % 2;
    assert x == q * (2 * p) + (2 * r + x % 2);
    DivModOf(x, 2 * p, q, 2 * r + x % 2);
  }

  lemma {:induction false} AndAllOnes(m: nat, k: nat)
    requires m < Pow2(k)
    ensures BitAnd(Pow2(k) - 1, m) == m
  {
    if k > 0 && m > 0 {
      AndAllOnes(m / 2, k - 1);
    }
  }

  // ----- arithmetic of the sequences -----

  // Shifting the adjusted word right and setting its lowest bit gives the tagged quotient.
  lemma ShiftedQuotient(n: int, c: int)
    requires c > 1
    ensures var x := if n >= 0 then 2 * n + 1 else 2 * (n + c - 1);
            x / c == 2 * Quot(n, c) || x / c == 2 * Quot(n, c) + 1
  {
    CeilQuotient(n, c);
    var m := if n >= 0 then n else n + c - 1;
    HalfStep(m, c, if n >= 0 then 1 else 0);
  }

  lemma HalfStep(m: int, c: int, low: int)
    requires c > 1 && 0 <= low <= 1
    ensures (2 * m + low) / c == 2 * (m / c) || (2 * m + low) / c == 2 * (m / c) + 1
  {
    var q, r := m / c, m % c;
    assert m == q * c + r;
    Distribute(q, q, c);
    Distribute(2 * q, 1, c);
    var t := 2 * r + low;
    if t < c {
      DivModOf(2 * m + low, c, 2 * q, t);
    } else {
      DivModOf(2 * m + low, c, 2 * q + 1, t - c);
    }
  }

  // Rounding up: the quotient of a negative number is that of n + c - 1 rounded down.
  lemma CeilQuotient(n: int, c: int)
    requires c > 0
    ensures Quot(n, c) == (if n >= 0 then n else n + c - 1) / c
  {
    if n < 0 {
      var k, r := -n / c, -n % c;
      assert -n == k * c + r;
      assert n + c - 1 == -k * c + (c - 1 - r);
      DivModOf(n + c - 1, c, -k, c - 1 - r);
    }
  }

  // The masked sum of the remainder sequence.
  lemma MaskedRemainder(n: int, c: int)
    requires c > 1
    ensures var t := if n >= 0 then 0 else 2 * c - 3;
            (2 * n + 1 + t) % (2 * c) - t == 2 * Rem(n, c) + 1
  {
    if n >= 0 {
      var q, r := n / c, n % c;
      assert n == q * c + r;
      assert 2 * n + 1 == q * (2 * c) + (2 * r + 1);
      DivModOf(2 * n + 1, 2 * c, q, 2 * r + 1);
    } else {
      var k, r := -n / c, -n % c;
      assert -n == k * c + r;
      assert 2 * n + 1 + (2 * c - 3) == -k * (2 * c) + (2 * (c - 1 - r));
      DivModOf(2 * n + 1 + (2 * c - 3), 2 * c, -k, 2 * (c - 1 - r));
      assert Rem(n, c) == -r by {
        assert c * -k == -(k * c);
      }
    }
  }

  // The size of the remainder, and its sign.
  lemma RemOf(n: int, c: int)
    requires c != 0
    ensures Rem(n, c) == if n >= 0 then n % c else -(-n % c)
  {
    var m := if n >= 0 then n else -n;
    var q := m / c;
    assert m == c * q + m % c;
    Negated(c, q);
  }

  lemma Negated(a: int, b: int)
    ensures a * -b == -(a * b) == -a * b
  {
  }

  /** Quotient and remainder together give back n; the remainder is smaller than
      the divisor and has the sign of n. */
  lemma QuotRem(n: int, c: int)
    requires c != 0
    ensures n == Quot(n, c) * c + Rem(n, c)
    ensures if n >= 0 then 0 <= Rem(n, c) < (if c < 0 then -c else c) else (if c < 0 then c else -c) < Rem(n, c) <= 0
  {
    RemOf(n, c);
  }

  // Negating the divisor negates the quotient and keeps the remainder.
  lemma QuotRemNegated(n: int, c: int)
    requires c != 0
    ensures Quot(n, -c) == -Quot(n, c) && Rem(n, -c) == Rem(n, c)
  {
    var m := if n >= 0 then n else -n;
    NegativeDivisor(m, c, m / c, m % c);
    RemOf(n, c);
    RemOf(n, -c);
  }

  lemma NegativeDivisor(m: int, c: int, q: int, r: int)
    requires c != 0 && q == m / c && r == m % c
    ensures m / -c == -q && m % -c == r
  {
    assert m == q * c + r;
    if c > 0 {
      assert m == m / -c * -c + m % -c;
      DivModOf(m, c, -(m / -c), m % -c);
    } else {
      DivModOf(m, -c, -q, r);
    }
  }

  // ----- words -----

  lemma Pow63()
    ensures Pow2(63) == WORD / 2 && Pow2(64) == WORD
  {
    Pow2Values();
    assert Pow2(63) == 2 * Pow2(62);
  }

  lemma SignedWord(x: int)
    requires -(WORD / 2) <= x < WORD / 2
    ensures Signed(Word(x)) == x
  {
    if x < 0 { WordMultiple(x, 1); }
  }

  // The word of a 63-bit mudlle integer has its sign.
  lemma TaggedSign(n: int)
    requires Int63(n)
    ensures Signed(Tagged(n)) == 2 * n + 1 && (Tagged(n) / Pow2(63) == if n >= 0 then 0 else 1)
  {
    SignedWord(2 * n + 1);
    Pow63();
    DivModOf(Tagged(n), WORD / 2, if n >= 0 then 0 else 1, if n >= 0 then 2 * n + 1 else 2 * n + 1 + WORD / 2);
  }

  lemma OddWord(m: int)
    ensures Word(2 * m + 1) % 2 == 1
  {
    var q := (2 * m + 1) / WORD;
    assert Word(2 * m + 1) == 2 * (m - q * (WORD / 2)) + 1;
  }

  // A word is its number modulo any power of two.
  lemma WordMod(x: int, k: nat)
    requires k <= 64
    ensures Word(x) % Pow2(k) == x % Pow2(k)
  {
    Pow63();
    Pow2Sum(64 - k, k);
    ModMultiple(x, x / WORD, Pow2(64 - k), Pow2(k));
  }

  lemma ModMultiple(x: int, q: int, d: int, p: int)
    requires p > 0
    ensures (x - q * (d * p)) % p == x % p
  {
    var y := x - q * (d * p);
    Associate(q, d, p);
    Distribute(y / p, q * d, p);
    DivModOf(x, p, y / p + q * d, y % p);
  }

  lemma {:induction false} Pow2Sum(j: nat, k: nat)
    ensures Pow2(j + k) == Pow2(j) * Pow2(k)
  {
    if j > 0 {
      Pow2Sum(j - 1, k);
      Associate(2, Pow2(j - 1), Pow2(k));
    }
  }

  // ----- division -----

  // Registers other than the destination, the scratch registers and rdi keep their contents.
  ghost predicate KeepsOthers(s: State, t: State, dr: Reg) {
    forall r: Reg :: !Free(r, dr) ==> t.regs(r) == s.regs(r)
  }

  // A register the code may change.
  predicate Free(r: Reg, dr: Reg) {
    r == dr || r == SCRATCH || r == SCRATCH2 || r == ARG0
  }

  // From s, where sr holds n, the code puts the tagged q in dr.
  ghost predicate Yields(code: seq<Ins>, sr: Reg, dr: Reg, s: State, n: int, q: int) {
    Int63(n) && s.regs(sr) == Tagged(n) ==> Exec(code, s).regs(dr) == Tagged(q) && KeepsOthers(s, Exec(code, s), dr)
  }

  ghost predicate Divides(code: seq<Ins>, sr: Reg, dr: Reg, c: int)
    requires c != 0
  {
    forall s: State, n: int :: Yields(code, sr, dr, s, n, Quot(n, c))
  }

  ghost predicate Remains(code: seq<Ins>, sr: Reg, dr: Reg, c: int)
    requires c != 0
  {
    forall s: State, n: int :: Yields(code, sr, dr, s, n, Rem(n, c))
  }

  // The dividend, made ready for an arithmetic shift that should round towards zero.
  function Adjusted(n: int, c: int): int {
    if n >= 0 then 2 * n + 1 else 2 * (n + c - 1)
  }

  // From s to t only register d changes, to the word of x.
  ghost predicate Puts(s: State, t: State, d: Reg, x: int) {
    t.regs(d) == Word(x) && t.sf == s.sf && t.zf == s.zf && forall r: Reg :: r != d ==> t.regs(r) == s.regs(r)
  }

  lemma WordWord(x: int)
    ensures Word(Word(x)) == Word(x)
  {
  }

  lemma PutsMov(s: State, a: Reg, d: Reg, x: int)
    requires s.regs(a) == Word(x)
    ensures Puts(s, Step(Mov(a, d), s), d, x)
  {
    WordWord(x);
  }

  lemma PutsSum(s: State, a: Reg, d: Reg, x: int, y: int)
    requires s.regs(a) == Word(x) && s.regs(d) == Word(y)
    ensures Puts(s, Step(Add(a, d), s), d, x + y)
    ensures Puts(s, Step(Sub(a, d), s), d, y - x)
  {
    WordLinear(y, 1, x, 1, 0);
    WordLinear(y, 1, x, -1, 0);
  }

  lemma PutsLea(s: State, a: Reg, b: Reg, disp: int, d: Reg, x: int, y: int)
    requires s.regs(a) == Word(x) && s.regs(b) == Word(y)
    ensures Puts(s, Step(LeaIdx(a, disp, d), s), d, x + disp)
    ensures Puts(s, Step(LeaRidx(a, 1, b, disp, d), s), d, x + y + disp)
  {
    WordLinear(x, 1, 0, 0, disp);
    WordLinear(x, 1, y, 1, disp);
  }

  lemma PutsCmov(s: State, a: Reg, d: Reg, x: int, y: int)
    requires s.regs(a) == Word(x) && s.regs(d) == Word(y)
    ensures Puts(s, Step(CmovS(a, d), s), d, if s.sf then x else y)
    ensures Puts(s, Step(CmovNS(a, d), s), d, if s.sf then y else x)
    ensures Puts(s, Step(CmovE(a, d), s), d, if s.zf then x else y)
  {
    WordWord(x);
    WordWord(y);
  }

  // The sign bit of a tagged integer.
  lemma PutsSign(s: State, d: Reg, n: int)
    requires Int63(n) && s.regs(d) == Tagged(n)
    ensures Puts(s, Step(Shr(63, d), s), d, if n >= 0 then 0 else 1)
  {
    WordWord(2 * n + 1);
    TaggedSign(n);
  }

  lemma TestSets(s: State, a: Reg, n: int)
    requires Int63(n) && s.regs(a) == Tagged(n)
    ensures var t := Step(Test(a), s); t.regs == s.regs && (t.sf <==> n < 0)
  {
    WordWord(2 * n + 1);
    TaggedSign(n);
  }

  ghost predicate Places(sr: Reg, dr: Reg, wr: Reg) {
    sr != wr && (wr == dr || (sr == dr && (wr == SCRATCH || wr == SCRATCH2)))
  }

  // The state before and after adjusting.
  ghost predicate AdjustedState(s: State, t: State, dr: Reg, c: int, n: int) {
    t.regs(dr) == Word(Adjusted(n, c)) && KeepsOthers(s, t, dr)
  }

  lemma AdjustBy2(sr: Reg, dr: Reg, wr: Reg, s: State, n: int)
    requires Places(sr, dr, wr) && Int63(n) && s.regs(sr) == Tagged(n)
    ensures AdjustedState(s, Exec([Mov(sr, wr), Shr(63, dr), Add(if wr == dr then sr else wr, dr)], s), dr, 2, n)
  {
    var r := if wr == dr then sr else wr;
    var x, sign := 2 * n + 1, if n >= 0 then 0 else 1;
    Exec3(Mov(sr, wr), Shr(63, dr), Add(r, dr), s);
    var s1 := Step(Mov(sr, wr), s);
    PutsMov(s, sr, wr, x);
    assert s1.regs(dr) == Word(x) && s1.regs(r) == Word(x);
    AddsSign(s, s1, dr, wr, r, n, x, sign);
  }

  lemma AddsSign(s: State, s1: State, dr: Reg, wr: Reg, r: Reg, n: int, x: int, sign: int)
    requires Int63(n) && x == 2 * n + 1 && sign == (if n >= 0 then 0 else 1)
    requires Puts(s, s1, wr, x) && s1.regs(dr) == Word(x) && s1.regs(r) == Word(x) && r != dr && Free(wr, dr)
    ensures AdjustedState(s, Step(Add(r, dr), Step(Shr(63, dr), s1)), dr, 2, n)
  {
    PutsSign(s1, dr, n);
    var s2 := Step(Shr(63, dr), s1);
    PutsSum(s2, r, dr, x, sign);
    Kept3(s, s1, wr, x, s2, dr, sign, Step(Add(r, dr), s2), dr, x + sign, dr);
  }

  lemma Kept3(s: State, s1: State, d1: Reg, x1: int, s2: State, d2: Reg, x2: int, s3: State, d3: Reg, x3: int, dr: Reg)
    requires Puts(s, s1, d1, x1) && Puts(s1, s2, d2, x2) && Puts(s2, s3, d3, x3)
    requires Free(d1, dr) && Free(d2, dr) && Free(d3, dr)
    ensures KeepsOthers(s, s3, dr)
  {
  }

  lemma AddConstant(a: seq<Ins>, sr: Reg, wr: Reg, k: int, s: State, x: int)
    requires a == [LeaIdx(sr, k, wr)] || a == [MovImm(k, wr), Add(sr, wr)]
    requires sr != wr && s.regs(sr) == Word(x)
    ensures Puts(s, Exec(a, s), wr, x + k)
  {
    if a == [LeaIdx(sr, k, wr)] {
      Exec1(a[0], s);
      PutsLea(s, sr, sr, k, wr, x, x);
    } else {
      Exec2(a[0], a[1], s);
      assert Puts(s, Step(a[0], s), wr, k);
      PutsSum(Step(a[0], s), sr, wr, x, k);
    }
  }

  lemma AdjustByC(a: seq<Ins>, sr: Reg, dr: Reg, wr: Reg, c: int, s: State, n: int)
    requires Places(sr, dr, wr) && Int63(n) && s.regs(sr) == Tagged(n)
    requires a == [LeaIdx(sr, 2 * c - 3, wr)] || a == [MovImm(2 * c - 3, wr), Add(sr, wr)]
    ensures AdjustedState(s, Exec(a + [Test(sr), if wr == dr then CmovNS(sr, dr) else CmovS(wr, dr)], s), dr, c, n)
  {
    var t, cmov := Test(sr), if wr == dr then CmovNS(sr, dr) else CmovS(wr, dr);
    var s1 := Exec(a, s);
    AddConstant(a, sr, wr, 2 * c - 3, s, 2 * n + 1);
    ExecConcat(a, [t, cmov], s);
    Exec2(t, cmov, s1);
    TestSets(s1, sr, n);
    var s2 := Step(t, s1);
    if wr == dr {
      PutsCmov(s2, sr, dr, 2 * n + 1, 2 * n + 1 + (2 * c - 3));
    } else {
      PutsCmov(s2, wr, dr, 2 * n + 1 + (2 * c - 3), 2 * n + 1);
    }
  }

  // An arithmetic shift and setting the lowest bit turn the adjusted word into the tagged quotient.
  lemma ShiftsToQuotient(s: State, dr: Reg, bits: nat, n: int)
    requires Int63(n) && 1 <= bits <= 61 && s.regs(dr) == Word(Adjusted(n, Pow2(bits)))
    ensures Exec([Sar(bits, dr), OrByte1(dr)], s).regs(dr) == Tagged(Quot(n, Pow2(bits)))
    ensures forall r: Reg :: r != dr ==> Exec([Sar(bits, dr), OrByte1(dr)], s).regs(r) == s.regs(r)
  {
    var c := Pow2(bits);
    Exec2(Sar(bits, dr), OrByte1(dr), s);
    Pow2Below(bits);
    WordWord(Adjusted(n, c));
    SignedWord(Adjusted(n, c));
    ShiftedQuotient(n, c);
    var q := Quot(n, c);
    EvenWord(q);
    OddWord(q);
    WordWord(2 * q + 1);
    var t := Step(Sar(bits, dr), s);
    assert t.regs(dr) == Word(Adjusted(n, c) / c);
  }

  lemma Pow2Below(bits: nat)
    requires 1 <= bits <= 61
    ensures 2 <= Pow2(bits) && 2 * Pow2(bits) <= -MININT
  {
    Pow2Values();
    Pow2Sum(61 - bits, bits);
    assert Pow2(62) == 2 * Pow2(61);
    assert Pow2(bits) == 2 * Pow2(bits - 1);
    Distribute(Pow2(61 - bits) - 1, 1, Pow2(bits));
    NonNegative(Pow2(61 - bits) - 1, Pow2(bits));
  }

  // Makes the dividend in sr ready in dr, for a divisor c > 1.
  method AdjustDividend(sr: Reg, c: int, dr: Reg) returns (a: seq<Ins>)
    requires c > 1
    ensures forall s: State, n: int :: AdjustedIn(a, sr, dr, c, s, n)
  {
    var wr := if sr != dr then dr else if dr == SCRATCH then SCRATCH2 else SCRATCH;
    if c == 2 {
      a := [Mov(sr, wr), Shr(63, dr), Add(if wr == dr then sr else wr, dr)];
      forall s: State, n: int ensures AdjustedIn(a, sr, dr, c, s, n) {
        if Int63(n) && s.regs(sr) == Tagged(n) { AdjustBy2(sr, dr, wr, s, n); }
      }
    } else {
      var k := 2 * c - 3;
      var sum := if Int32(k) then [LeaIdx(sr, k, wr)] else [MovImm(k, wr), Add(sr, wr)];
      a := sum + [Test(sr), if wr == dr then CmovNS(sr, dr) else CmovS(wr, dr)];
      forall s: State, n: int ensures AdjustedIn(a, sr, dr, c, s, n) {
        if Int63(n) && s.regs(sr) == Tagged(n) { AdjustByC(sum, sr, dr, wr, c, s, n); }
      }
    }
  }

  ghost predicate AdjustedIn(a: seq<Ins>, sr: Reg, dr: Reg, c: int, s: State, n: int) {
    Int63(n) && s.regs(sr) == Tagged(n) ==> AdjustedState(s, Exec(a, s), dr, c, n)
  }

  lemma AdjustedDivides(a: seq<Ins>, sr: Reg, dr: Reg, bits: nat)
    requires 1 <= bits <= 61
    requires forall s: State, n: int :: AdjustedIn(a, sr, dr, Pow2(bits), s, n)
    ensures Divides(a + [Sar(bits, dr), OrByte1(dr)], sr, dr, Pow2(bits))
  {
    var b := [Sar(bits, dr), OrByte1(dr)];
    forall s: State, n: int ensures Yields(a + b, sr, dr, s, n, Quot(n, Pow2(bits))) {
      if Int63(n) && s.regs(sr) == Tagged(n) {
        ExecConcat(a, b, s);
        assert AdjustedIn(a, sr, dr, Pow2(bits), s, n);
        ShiftsToQuotient(Exec(a, s), dr, bits, n);
      }
    }
  }

  lemma ThenNegated(a: seq<Ins>, b: seq<Ins>, sr: Reg, dr: Reg, c: int)
    requires c != 0 && Divides(a, sr, dr, c) && Multiplies(b, dr, dr, -1)
    ensures Divides(a + b, sr, dr, -c)
  {
    var d := -c;
    forall s: State, n: int ensures Yields(a + b, sr, dr, s, n, Quot(n, d)) {
      ExecConcat(a, b, s);
      assert Yields(a, sr, dr, s, n, Quot(n, c));
      QuotRemNegated(n, c);
      assert TakesToProduct(b, dr, dr, -1, Exec(a, s), Quot(n, c));
    }
  }

  lemma ProductDivides(code: seq<Ins>, sr: Reg, dr: Reg, c: int)
    requires (c == 1 || c == -1) && Multiplies(code, sr, dr, c)
    ensures Divides(code, sr, dr, c)
  {
    forall s: State, n: int ensures Yields(code, sr, dr, s, n, Quot(n, c)) {
      QuotRemNegated(n, 1);
      assert n / 1 == n;
      assert TakesToProduct(code, sr, dr, c, s, n);
    }
  }

  // The bit that is set in a power of two.
  method FindFirstSet(c: int) returns (bits: nat)
    requires IsPow2(c) && 1 < c < -MININT
    ensures Pow2(bits) == c && 1 <= bits <= 61
  {
    bits := 0;
    ghost var k: nat :| Pow2(k) == c;
    var rest := c;
    while rest % 2 == 0
      invariant bits <= k && rest == Pow2(k - bits)
      decreases rest
    {
      assert Pow2(0) == 1;
      rest, bits := rest / 2, bits + 1;
    }
    Pow2Values();
    if bits > 61 {
      Pow2Sum(bits - 62, 62);
      AtLeast(Pow2(bits - 62), Pow2(62));
    }
  }

  // n / MININT is 1 for MININT and 0 for all others: the flag of a comparison, of a
  // register or a stack slot.
  method MgenEqualsMinint(sr: Reg, dr: Reg) returns (a: seq<Ins>)
    requires sr != SCRATCH2 && dr != SCRATCH2
    ensures Divides(a, sr, dr, MININT)
  {
    var mov, cmp := MovImm(2 * MININT + 1, SCRATCH2), Cmp(sr, SCRATCH2);
    var head := if sr == dr then [mov, cmp, MovImm(0, dr)] else [mov, Zero(dr), cmp];
    a := head + [SetE(dr), Lea32(dr, 1, dr, 1, dr)];
    forall s: State, n: int ensures Yields(a, sr, dr, s, n, Quot(n, MININT)) {
      if Int63(n) && s.regs(sr) == Tagged(n) {
        ExecConcat(head, [SetE(dr), Lea32(dr, 1, dr, 1, dr)], s);
        if sr == dr {
          ComparesInPlace(s, dr, n);
        } else {
          ComparesMinint(s, sr, dr, n);
        }
        SetsFlag(s, Exec(head, s), dr, n);
      }
    }
  }

  // The comparison has left its flag, and zero in dr.
  ghost predicate Compared(s: State, t: State, dr: Reg, n: int) {
    (t.zf <==> n == MININT) && t.regs(dr) == 0 && KeepsOthers(s, t, dr)
  }

  lemma SetsFlag(s: State, t: State, dr: Reg, n: int)
    requires Int63(n) && Compared(s, t, dr, n)
    ensures var u := Exec([SetE(dr), Lea32(dr, 1, dr, 1, dr)], t);
            u.regs(dr) == Tagged(Quot(n, MININT)) && KeepsOthers(s, u, dr)
  {
    Exec2(SetE(dr), Lea32(dr, 1, dr, 1, dr), t);
    MinintQuotient(n);
  }

  // n / MININT and n % MININT.
  lemma MinintQuotient(n: int)
    requires Int63(n)
    ensures Quot(n, MININT) == if n == MININT then 1 else 0
    ensures Rem(n, MININT) == if n == MININT then 0 else n
  {
    if n == MININT { QuotRemNegated(n, 1); }
    var m := if n >= 0 then n else -n;
    DivModOf(m, -MININT, if n == MININT then 1 else 0, if n == MININT then 0 else m);
    NegativeDivisor(m, -MININT, m / -MININT, m % -MININT);
  }

  lemma TaggedDiffer(n: int)
    requires Int63(n)
    ensures Tagged(n) == Tagged(MININT) <==> n == MININT
  {
    SignedWord(2 * n + 1);
    SignedWord(2 * MININT + 1);
  }

  lemma ComparesWithMinint(s: State, a: Reg, b: Reg, n: int)
    requires Int63(n) && s.regs(a) == Tagged(n) && s.regs(b) == Tagged(MININT)
    ensures var t := Step(Cmp(a, b), s); t.regs == s.regs && (t.zf <==> n == MININT)
  {
    WordWord(2 * n + 1);
    WordWord(2 * MININT + 1);
    TaggedDiffer(n);
  }

  lemma Zeroes(s: State, d: Reg)
    ensures Step(Zero(d), s).regs(d) == 0 && forall r: Reg :: r != d ==> Step(Zero(d), s).regs(r) == s.regs(r)
  {
    assert Word(0) == 0;
  }

  lemma ComparesMinint(s: State, sr: Reg, dr: Reg, n: int)
    requires sr != SCRATCH2 && dr != SCRATCH2 && sr != dr && Int63(n) && s.regs(sr) == Tagged(n)
    ensures Compared(s, Exec([MovImm(2 * MININT + 1, SCRATCH2), Zero(dr), Cmp(sr, SCRATCH2)], s), dr, n)
  {
    var i, j, k := MovImm(2 * MININT + 1, SCRATCH2), Zero(dr), Cmp(sr, SCRATCH2);
    Exec3(i, j, k, s);
    Zeroes(Step(i, s), dr);
    ComparesWithMinint(Step(j, Step(i, s)), sr, SCRATCH2, n);
  }

  lemma ComparesInPlace(s: State, dr: Reg, n: int)
    requires dr != SCRATCH2 && Int63(n) && s.regs(dr) == Tagged(n)
    ensures Compared(s, Exec([MovImm(2 * MININT + 1, SCRATCH2), Cmp(dr, SCRATCH2), MovImm(0, dr)], s), dr, n)
  {
    var i, j, k := MovImm(2 * MININT + 1, SCRATCH2), Cmp(dr, SCRATCH2), MovImm(0, dr);
    Exec3(i, j, k, s);
    ComparesWithMinint(Step(i, s), dr, SCRATCH2, n);
  }

  /** Divides by a constant that is plus or minus a power of two: the code puts
      the quotient of every 63-bit integer, rounded towards zero, in dr. */
  method MgenDivide(code: seq<Ins>, sr: Reg, c: int, dr: Reg) returns (code': seq<Ins>)
    requires c == MININT || IsPow2(c) || IsPow2(-c)
    requires MININT <= c < -MININT && dr != SCRATCH2
    requires sr == SCRATCH2 ==> dr == SCRATCH && c != MININT  // a loaded memory operand
    ensures c != 0 && code <= code' && Divides(code'[|code|..], sr, dr, c)
  {
    if c == MININT {
      var a := MgenEqualsMinint(sr, dr);
      code' := code + a;
      assert code'[|code|..] == a;
    } else if c == 1 || c == -1 {
      code' := MgenTrivial(code, sr, c, dr);
      ProductDivides(code'[|code|..], sr, dr, c);
    } else {
      var abs := if c < 0 then -c else c;
      var bits := FindFirstSet(abs);
      var adjust := AdjustDividend(sr, abs, dr);
      AdjustedDivides(adjust, sr, dr, bits);
      var divided := adjust + [Sar(bits, dr), OrByte1(dr)];
      code' := code + divided;
      if c < 0 {
        code' := MgenNegate(code', dr, dr);
        ThenNegated(divided, code'[|code + divided|..], sr, dr, abs);
        assert code'[|code|..] == divided + code'[|code + divided|..];
      } else {
        assert code'[|code|..] == divided;
      }
    }
  }

  // ----- remainder -----

  // What the sign of n adds before masking.
  function Bias(n: int, c: int): int {
    if n >= 0 then 0 else 2 * c - 3
  }

  // sr still holds n, rdi the bias.
  ghost predicate Biased(s: State, t: State, sr: Reg, d: Reg, c: int, n: int) {
    t.regs(sr) == Tagged(n) && t.regs(ARG0) == Word(Bias(n, c)) && KeepsOthers(s, t, d)
  }

  // The sign mask of a tagged integer, and its low bits.
  lemma MasksSign(s: State, d: Reg, n: int, m: int)
    requires Int63(n) && s.regs(d) == Tagged(n) && 0 <= m < WORD
    ensures var t := Step(Sar(63, d), s);
            && Puts(s, t, d, if n >= 0 then 0 else -1)
            && Puts(t, Step(AndImm(m, d), t), d, if n >= 0 then 0 else m)
  {
    WordWord(2 * n + 1);
    SignShifted(n);
    AndSign(n >= 0, m);
    AndPuts(Step(Sar(63, d), s), d, if n >= 0 then 0 else -1, m, if n >= 0 then 0 else m);
  }

  lemma AndPuts(s: State, d: Reg, x: int, m: int, y: int)
    requires s.regs(d) == Word(x) && BitAnd(Word(x), Word(m)) == y
    ensures Puts(s, Step(AndImm(m, d), s), d, y)
  {
    WordWord(x);
  }

  lemma SignShifted(n: int)
    requires Int63(n)
    ensures Signed(Tagged(n)) / Pow2(63) == if n >= 0 then 0 else -1
  {
    TaggedSign(n);
    Pow63();
    DivModOf(2 * n + 1, Pow2(63), if n >= 0 then 0 else -1, if n >= 0 then 2 * n + 1 else 2 * n + 1 + Pow2(63));
  }

  lemma AndSign(positive: bool, m: int)
    requires 0 <= m < WORD
    ensures BitAnd(Word(if positive then 0 else -1), Word(m)) == if positive then 0 else m
  {
    Pow63();
    AndAllOnes(m, 64);
    assert Word(m) == m;
    if !positive {
      assert Word(-1) == WORD - 1;
    } else {
      assert Word(0) == 0;
    }
  }

  // The three ways to make the bias.
  lemma BiasBy2(s: State, sr: Reg, d: Reg, n: int)
    requires sr != ARG0
    ensures BiasedIn([Mov(sr, ARG0), Shr(63, ARG0)], sr, d, 2, s, n)
  {
    Exec2(Mov(sr, ARG0), Shr(63, ARG0), s);
    if Int63(n) && s.regs(sr) == Tagged(n) {
      PutsMov(s, sr, ARG0, 2 * n + 1);
      PutsSign(Step(Mov(sr, ARG0), s), ARG0, n);
    }
  }

  lemma BiasByImmediate(s: State, sr: Reg, d: Reg, c: int, n: int)
    requires 1 < c < -MININT && sr != ARG0
    ensures BiasedIn([Mov(sr, ARG0), Sar(63, ARG0), AndImm(2 * c - 3, ARG0)], sr, d, c, s, n)
  {
    var m := 2 * c - 3;
    var mov, sar := Mov(sr, ARG0), Sar(63, ARG0);
    Exec3(mov, sar, AndImm(m, ARG0), s);
    if Int63(n) && s.regs(sr) == Tagged(n) {
      PutsMov(s, sr, ARG0, 2 * n + 1);
      MasksSign(Step(mov, s), ARG0, n, m);
    }
  }

  lemma BiasByRegister(s: State, sr: Reg, dr: Reg, d: Reg, c: int, n: int)
    requires 1 < c < -MININT && sr != ARG0 && dr != ARG0 && sr != dr && Free(dr, d)
    ensures BiasedIn([Mov(sr, ARG0), Sar(63, ARG0)] + [MovImm(2 * c - 3, dr), And(dr, ARG0)], sr, d, c, s, n)
  {
    var m := 2 * c - 3;
    var mov, sar, load, and := Mov(sr, ARG0), Sar(63, ARG0), MovImm(m, dr), And(dr, ARG0);
    ExecConcat([mov, sar], [load, and], s);
    Exec2(mov, sar, s);
    var s2 := Step(sar, Step(mov, s));
    Exec2(load, and, s2);
    if Int63(n) && s.regs(sr) == Tagged(n) {
      PutsMov(s, sr, ARG0, 2 * n + 1);
      MasksSign(Step(mov, s), ARG0, n, m);
      AndsLoaded(s2, dr, ARG0, m);
    }
  }

  // Masking with a constant loaded into a register is masking with the constant.
  lemma AndsLoaded(s: State, a: Reg, d: Reg, m: int)
    requires a != d
    ensures Exec([MovImm(m, a), And(a, d)], s).regs(d) == Step(AndImm(m, d), s).regs(d)
    ensures forall r: Reg :: r != a && r != d ==> Exec([MovImm(m, a), And(a, d)], s).regs(r) == s.regs(r)
  {
    Exec2(MovImm(m, a), And(a, d), s);
    WordWord(m);
  }

  // Puts the bias in rdi; dr is free for a mask that is not an immediate.
  method MakeBias(sr: Reg, c: int, dr: Reg, ghost d: Reg) returns (a: seq<Ins>)
    requires 1 < c < -MININT && sr != ARG0 && dr != ARG0 && sr != dr && Free(dr, d)
    ensures forall s: State, n: int :: BiasedIn(a, sr, d, c, s, n)
  {
    var m := 2 * c - 3;
    if c == 2 {
      a := [Mov(sr, ARG0), Shr(63, ARG0)];
      forall s: State, n: int ensures BiasedIn(a, sr, d, c, s, n) {
        BiasBy2(s, sr, d, n);
      }
    } else if c - 2 < 0x8000_0000 {
      a := [Mov(sr, ARG0), Sar(63, ARG0), AndImm(m, ARG0)];
      forall s: State, n: int ensures BiasedIn(a, sr, d, c, s, n) {
        BiasByImmediate(s, sr, d, c, n);
      }
    } else {
      a := [Mov(sr, ARG0), Sar(63, ARG0)] + [MovImm(m, dr), And(dr, ARG0)];
      forall s: State, n: int ensures BiasedIn(a, sr, d, c, s, n) {
        BiasByRegister(s, sr, dr, d, c, n);
      }
    }
  }

  ghost predicate BiasedIn(a: seq<Ins>, sr: Reg, d: Reg, c: int, s: State, n: int) {
    Int63(n) && s.regs(sr) == Tagged(n) ==> Biased(s, Exec(a, s), sr, d, c, n)
  }

  // dr holds x modulo 2c, rdi the bias.
  ghost predicate Masked(s: State, t: State, dr: Reg, d: Reg, c: int, n: int)
    requires c > 0
  {
    && t.regs(dr) == Word((2 * n + 1 + Bias(n, c)) % (2 * c)) && t.regs(ARG0) == Word(Bias(n, c)) && KeepsOthers(s, t, d)
  }

  lemma MaskedWord(x: int, k: nat)
    requires k <= 63
    ensures BitAnd(Word(x), Word(Pow2(k) - 1)) == x % Pow2(k)
  {
    AndMask(Word(x), k);
    WordMod(x, k);
    MaskIsWord(k);
  }

  lemma MaskIsWord(k: nat)
    requires k <= 63
    ensures Word(Pow2(k) - 1) == Pow2(k) - 1
  {
    Pow63();
    Pow2Sum(63 - k, k);
    NonNegative(Pow2(63 - k) - 1, Pow2(k));
    Distribute(Pow2(63 - k) - 1, 1, Pow2(k));
  }

  lemma MasksSum(s: State, dr: Reg, x: int, bits: nat)
    requires 1 <= bits <= 61 && s.regs(dr) == Word(x)
    ensures Puts(s, Step(AndImm(2 * Pow2(bits) - 1, dr), s), dr, x % (2 * Pow2(bits)))
  {
    assert Pow2(bits + 1) == 2 * Pow2(bits);
    MaskedWord(x, bits + 1);
    AndPuts(s, dr, x, 2 * Pow2(bits) - 1, x % (2 * Pow2(bits)));
  }

  // Adds the bias to the number in sr.
  function SumIns(sr: Reg, dr: Reg): Ins {
    if sr == dr then Add(ARG0, dr) else LeaRidx(sr, 1, ARG0, 0, dr)
  }

  lemma MaskByImmediate(s: State, t: State, sr: Reg, bits: nat, dr: Reg, d: Reg, n: int)
    requires 1 <= bits <= 61 && sr != ARG0 && dr != ARG0 && Free(dr, d) && Biased(s, t, sr, d, Pow2(bits), n)
    ensures Masked(s, Exec([SumIns(sr, dr), AndImm(2 * Pow2(bits) - 1, dr)], t), dr, d, Pow2(bits), n)
  {
    var sum, mask := SumIns(sr, dr), AndImm(2 * Pow2(bits) - 1, dr);
    Exec2(sum, mask, t);
    AddsBias(t, sr, dr, n, Pow2(bits));
    MasksSum(Step(sum, t), dr, 2 * n + 1 + Bias(n, Pow2(bits)), bits);
  }

  lemma MaskByRegister(s: State, t: State, sr: Reg, bits: nat, dr: Reg, mr: Reg, d: Reg, n: int)
    requires 1 <= bits <= 61 && sr != ARG0 && dr != ARG0 && Free(dr, d) && Biased(s, t, sr, d, Pow2(bits), n)
    requires (mr == SCRATCH || mr == SCRATCH2) && mr != dr
    ensures Masked(s, Exec([SumIns(sr, dr)] + [MovImm(2 * Pow2(bits) - 1, mr), And(mr, dr)], t), dr, d, Pow2(bits), n)
  {
    var sum, m := SumIns(sr, dr), 2 * Pow2(bits) - 1;
    var load, and := MovImm(m, mr), And(mr, dr);
    ExecConcat([sum], [load, and], t);
    Exec1(sum, t);
    AddsBias(t, sr, dr, n, Pow2(bits));
    AndsLoaded(Step(sum, t), mr, dr, m);
    MasksSum(Step(sum, t), dr, 2 * n + 1 + Bias(n, Pow2(bits)), bits);
  }

  // Adds the bias and masks.
  method AddAndMask(sr: Reg, bits: nat, dr: Reg, ghost d: Reg) returns (a: seq<Ins>)
    requires 1 <= bits <= 61 && sr != ARG0 && dr != ARG0 && Free(dr, d)
    ensures forall s: State, t: State, n: int :: MasksBiased(a, sr, dr, d, bits, s, t, n)
  {
    var c := Pow2(bits);
    if c - 1 < 0x8000_0000 {
      a := [SumIns(sr, dr), AndImm(2 * c - 1, dr)];
      forall s: State, t: State, n: int ensures MasksBiased(a, sr, dr, d, bits, s, t, n) {
        if Biased(s, t, sr, d, c, n) { MaskByImmediate(s, t, sr, bits, dr, d, n); }
      }
    } else {
      var mr := if dr == SCRATCH then SCRATCH2 else SCRATCH;
      a := [SumIns(sr, dr)] + [MovImm(2 * c - 1, mr), And(mr, dr)];
      forall s: State, t: State, n: int ensures MasksBiased(a, sr, dr, d, bits, s, t, n) {
        if Biased(s, t, sr, d, c, n) { MaskByRegister(s, t, sr, bits, dr, mr, d, n); }
      }
    }
  }

  ghost predicate MasksBiased(a: seq<Ins>, sr: Reg, dr: Reg, d: Reg, bits: nat, s: State, t: State, n: int) {
    Biased(s, t, sr, d, Pow2(bits), n) ==> Masked(s, Exec(a, t), dr, d, Pow2(bits), n)
  }

  lemma AddsBias(t: State, sr: Reg, dr: Reg, n: int, c: int)
    requires t.regs(sr) == Tagged(n) && t.regs(ARG0) == Word(Bias(n, c))
    ensures Puts(t, Step(SumIns(sr, dr), t), dr, 2 * n + 1 + Bias(n, c))
  {
    if sr == dr {
      PutsSum(t, ARG0, dr, Bias(n, c), 2 * n + 1);
    } else {
      PutsLea(t, sr, ARG0, 0, dr, 2 * n + 1, Bias(n, c));
    }
  }

  // The whole sequence for c = 2^bits; the result goes from dr to d.
  lemma MaskedRemains(bias: seq<Ins>, mask: seq<Ins>, sr: Reg, dr: Reg, d: Reg, bits: nat)
    requires 1 <= bits <= 61 && dr != ARG0 && Free(dr, d)
    requires forall s: State, n: int :: BiasedIn(bias, sr, d, Pow2(bits), s, n)
    requires forall s: State, t: State, n: int :: MasksBiased(mask, sr, dr, d, bits, s, t, n)
    ensures Remains(bias + mask + [Sub(ARG0, dr), Mov(dr, d)], sr, d, Pow2(bits))
  {
    var c, tail := Pow2(bits), [Sub(ARG0, dr), Mov(dr, d)];
    forall s: State, n: int ensures Yields(bias + mask + tail, sr, d, s, n, Rem(n, c)) {
      if Int63(n) && s.regs(sr) == Tagged(n) {
        ExecConcat(bias + mask, tail, s);
        ExecConcat(bias, mask, s);
        assert BiasedIn(bias, sr, d, c, s, n);
        var t := Exec(bias, s);
        assert MasksBiased(mask, sr, dr, d, bits, s, t, n);
        SubtractsBias(s, Exec(mask, t), dr, d, bits, n);
      }
    }
  }

  lemma SubtractsBias(s: State, t: State, dr: Reg, d: Reg, bits: nat, n: int)
    requires 1 <= bits <= 61 && dr != ARG0 && Free(dr, d) && Masked(s, t, dr, d, Pow2(bits), n)
    ensures var u := Exec([Sub(ARG0, dr), Mov(dr, d)], t);
            u.regs(d) == Tagged(Rem(n, Pow2(bits))) && KeepsOthers(s, u, d)
  {
    var c := Pow2(bits);
    Pow2Below(bits);
    MaskedRemainder(n, c);
    Subtracts(s, t, dr, d, (2 * n + 1 + Bias(n, c)) % (2 * c), Bias(n, c));
  }

  lemma Subtracts(s: State, t: State, dr: Reg, d: Reg, x: int, b: int)
    requires dr != ARG0 && Free(dr, d) && t.regs(dr) == Word(x) && t.regs(ARG0) == Word(b) && KeepsOthers(s, t, d)
    ensures var u := Exec([Sub(ARG0, dr), Mov(dr, d)], t); u.regs(d) == Word(x - b) && KeepsOthers(s, u, d)
  {
    Exec2(Sub(ARG0, dr), Mov(dr, d), t);
    PutsSum(t, ARG0, dr, b, x);
    PutsMov(Step(Sub(ARG0, dr), t), dr, d, x - b);
  }

  // n % MININT is 0 for MININT and n for all others.
  method MgenMinintRemainder(sr: Reg, dr0: Reg, d: Reg) returns (a: seq<Ins>)
    requires sr != dr0 && (dr0 == SCRATCH2 ==> sr == SCRATCH) && Free(dr0, d)
    ensures Remains(a, sr, d, MININT)
  {
    var load, cmp := MovImm(2 * MININT + 1, dr0), Cmp(sr, dr0);
    var dr := if dr0 == SCRATCH2 then SCRATCH else dr0;
    var zr := if dr0 == SCRATCH2 then dr0 else if dr0 == SCRATCH then SCRATCH2 else SCRATCH;
    var copy := if dr0 == SCRATCH2 then [] else [Mov(sr, dr)];
    var tail := [MovImm(1, zr), CmovE(zr, dr), Mov(dr, d)];
    a := [load, cmp] + copy + tail;
    forall s: State, n: int ensures Yields(a, sr, d, s, n, Rem(n, MININT)) {
      if Int63(n) && s.regs(sr) == Tagged(n) {
        ExecConcat([load, cmp] + copy, tail, s);
        ExecConcat([load, cmp], copy, s);
        Exec2(load, cmp, s);
        var s2 := Step(cmp, Step(load, s));
        WordWord(2 * n + 1);
        WordWord(2 * MININT + 1);
        TaggedDiffer(n);
        var s3 := Exec(copy, s2);
        if copy != [] { Exec1(copy[0], s2); }
        assert s3.regs(dr) == Tagged(n) && (s3.zf <==> n == MININT) && KeepsOthers(s, s3, d);
        ChoosesZero(s, s3, n, zr, dr, d);
      }
    }
  }

  lemma ChoosesZero(s: State, t: State, n: int, zr: Reg, dr: Reg, d: Reg)
    requires Int63(n) && zr != dr && (zr == SCRATCH || zr == SCRATCH2) && Free(dr, d)
    requires t.regs(dr) == Tagged(n) && (t.zf <==> n == MININT) && KeepsOthers(s, t, d)
    ensures var u := Exec([MovImm(1, zr), CmovE(zr, dr), Mov(dr, d)], t);
            u.regs(d) == Tagged(Rem(n, MININT)) && KeepsOthers(s, u, d)
  {
    Exec3(MovImm(1, zr), CmovE(zr, dr), Mov(dr, d), t);
    var t1 := Step(MovImm(1, zr), t);
    PutsCmov(t1, zr, dr, 1, 2 * n + 1);
    var x := if t.zf then 1 else 2 * n + 1;
    PutsMov(Step(CmovE(zr, dr), t1), dr, d, x);
    MinintQuotient(n);
  }

  lemma ZeroRemains(d: Reg, sr: Reg, c: int)
    requires c == 1 || c == -1
    ensures Remains([MovImm(1, d)], sr, d, c)
  {
    forall s: State, n: int ensures Yields([MovImm(1, d)], sr, d, s, n, Rem(n, c)) {
      Exec1(MovImm(1, d), s);
      RemOf(n, c);
    }
  }

  /** Remainder by a constant that is plus or minus a power of two: the code puts
      n - c * (n / c), for the quotient rounded towards zero, in d. */
  method MgenRemainder(code: seq<Ins>, sr: Reg, c: int, d: Reg) returns (code': seq<Ins>)
    requires c == MININT || IsPow2(c) || IsPow2(-c)
    requires MININT <= c < -MININT && d != SCRATCH2 && d != ARG0 && sr != ARG0
    ensures c != 0 && code <= code' && Remains(code'[|code|..], sr, d, c)
  {
    var a;
    if c == 1 || c == -1 {
      a := [MovImm(1, d)];
      ZeroRemains(d, sr, c);
    } else {
      var dr := if sr != d then d else if sr == SCRATCH then SCRATCH2 else SCRATCH;
      if c == MININT {
        a := MgenMinintRemainder(sr, dr, d);
      } else {
        var abs := if c < 0 then -c else c;
        var bits := FindFirstSet(abs);
        var bias := MakeBias(sr, abs, dr, d);
        dr := if dr == SCRATCH2 then SCRATCH else dr;
        var mask := AddAndMask(sr, bits, dr, d);
        MaskedRemains(bias, mask, sr, dr, d, bits);
        a := bias + mask + [Sub(ARG0, dr), Mov(dr, d)];
        SameRemainder(a, sr, d, c, abs);
      }
    }
    code' := code + a;
    assert code'[|code|..] == a;
  }

  lemma SameRemainder(a: seq<Ins>, sr: Reg, d: Reg, c: int, abs: int)
    requires c != 0 && (abs == c || abs == -c) && Remains(a, sr, d, abs)
    ensures Remains(a, sr, d, c)
  {
    forall s: State, n: int ensures Yields(a, sr, d, s, n, Rem(n, c)) {
      QuotRemNegated(n, c);
      assert Yields(a, sr, d, s, n, Rem(n, abs));
    }
  }
}
