/** Multiplication of a tagged integer by a constant (mgen_multiply in
    genx64.mud): the factors chosen for the constant and the code for them. */
module Multiplication {
  import opened Arithmetic
  import opened MachineCode
  import opened Prelude

  const MININT: int := -0x4000_0000_0000_0000

  predicate Int32(n: int) {
    -0x8000_0000 <= n <= 0x7fff_ffff
  }

  ghost predicate IsPow2(n: int) {
    exists k: nat :: n == Pow2(k)
  }

  // ----- factors -----

  /** Multiply by a small number; shift left by n; or multiply by a power of two
      f and add the operand times add. */
  datatype Factor = Mul(f: int) | Shift(n: nat) | MulAdd(f: int, log: nat, add: int) {
    function Value(): int {
      match this
      case Mul(f) => f
      case Shift(n) => Pow2(n)
      case MulAdd(f, _, add) => f + add
    }

    predicate Valid() {
      match this
      case Mul(f) => f == 2 || f == 3 || f == 4 || f == 5 || f == 8 || f == 9
      case Shift(n) => n > 3
      case MulAdd(f, log, add) => f >= 8 && f == Pow2(log) && add in ADDENDS
    }
  }

  const ADDENDS: seq<int> := [1, -1, 2, 3, 4, 5, 8, 9, -2, -3, -4, -5, -8, -9]

  function Product(fs: seq<Factor>): int {
    if fs == [] then 1 else fs[0].Value() * Product(fs[1..])
  }

  lemma ProductCons(f: Factor, fs: seq<Factor>)
    ensures Product([f] + fs) == f.Value() * Product(fs)
  {
    assert ([f] + fs)[1..] == fs;
  }

  lemma ProductSecond(f: Factor, fs: seq<Factor>)
    requires fs != []
    ensures Product([fs[0], f] + fs[1..]) == f.Value() * Product(fs)
  {
    var v, w, p := fs[0].Value(), f.Value(), Product(fs[1..]);
    ProductCons(f, fs[1..]);
    ProductCons(fs[0], [f] + fs[1..]);
    assert [fs[0], f] + fs[1..] == [fs[0]] + ([f] + fs[1..]);
    Associate(v, w, p);
    Associate(w, v, p);
  }

  // Moving one factor from those to come to those consumed.
  lemma ProductStep(done: int, rest: seq<Factor>)
    requires rest != []
    ensures done * rest[0].Value() * Product(rest[1..]) == done * Product(rest)
  {
    Associate(done, rest[0].Value(), Product(rest[1..]));
  }

  // ffs(n) - 1: how often n can be halved.
  method TrailingZeros(n: int) returns (k: nat, odd: int)
    requires n > 0
    ensures odd > 0 && odd % 2 == 1 && n == Pow2(k) * odd
  {
    k, odd := 0, n;
    while odd % 2 == 0
      invariant odd > 0 && n == Pow2(k) * odd
      decreases odd
    {
      assert Pow2(k + 1) * (odd / 2) == Pow2(k) * (2 * (odd / 2));
      k, odd := k + 1, odd / 2;
    }
  }

  function Power(b: int, e: nat): int {
    if e == 0 then 1 else b * Power(b, e - 1)
  }

  // Removes all factors d from n.
  method DivideOut(n: int, d: int) returns (count: nat, rest: int)
    requires n > 0 && d > 1
    ensures rest > 0 && n == Power(d, count) * rest && rest % d != 0
    ensures n < d ==> count == 0 && rest == n
  {
    count, rest := 0, n;
    while rest / d * d == rest
      invariant 0 < rest <= n && n == Power(d, count) * rest
      invariant if count == 0 then rest == n else n >= d
      decreases rest
    {
      DivideStep(d, count, rest);
      count, rest := count + 1, rest / d;
    }
  }

  lemma DivideStep(d: int, count: nat, rest: int)
    requires d > 1 && rest > 0 && rest / d * d == rest
    ensures 0 < rest / d < rest && rest >= d
    ensures Power(d, count) * rest == Power(d, count + 1) * (rest / d)
  {
    var q := rest / d;
    FactorBounds(q, d);
    Associate(Power(d, count), d, q);
  }

  lemma FactorBounds(q: int, d: int)
    requires d > 1 && q * d > 0
    ensures q > 0 && q * d >= d && q * d > q
  {
    if q > 0 {
      assert q * d == d + (q - 1) * d && q * d == q + q * (d - 1);
    }
  }

  // p2 >= 8 && (p2 & (p2 - 1)) == 0, with its logarithm.
  method LogOfPow2(p: int) returns (log: Option<nat>)
    ensures log.Some? ==> p >= 8 && p == Pow2(log.value)
    ensures log.None? ==> p < 8 || !IsPow2(p)
  {
    if p < 8 { return None; }
    var k, odd := TrailingZeros(p);
    if IsPow2(p) {
      var j: nat :| p == Pow2(j);
      OddPartOfPow2(j, k, odd);
    }
    if odd != 1 { return None; }
    log := Some(k);
  }

  // n as a power of two plus one of the addends, if it is one.
  method PowerDelta(n: int) returns (r: Option<Factor>)
    ensures r.Some? ==> r.value.MulAdd? && r.value.Valid() && r.value.Value() == n && n >= 7
    ensures r.None? ==> n < 7 || forall add :: add in ADDENDS && n - add >= 8 ==> !IsPow2(n - add)
  {
    if n < 7 { return None; }
    for i := 0 to |ADDENDS|
      invariant forall j :: 0 <= j < i && n - ADDENDS[j] >= 8 ==> !IsPow2(n - ADDENDS[j])
    {
      var add := ADDENDS[i];
      var log := LogOfPow2(n - add);
      if log.Some? {
        return Some(MulAdd(n - add, log.value, add));
      }
    }
    r := None;
  }

  ghost predicate ValidFactors(fs: seq<Factor>) {
    forall i :: 0 <= i < |fs| ==> fs[i].Valid()
  }

  lemma {:induction false} OddPartOfPow2(k: nat, j: nat, odd: int)
    requires odd % 2 == 1 && odd > 0 && Pow2(k) == Pow2(j) * odd
    ensures odd == 1 && j == k
  {
    if j > 0 {
      Associate(2, Pow2(j - 1), odd);
      if k > 0 {
        OddPartOfPow2(k - 1, j - 1, odd);
      }
    }
  }

  // Puts count copies of f in front.
  method Prepend(f: Factor, count: nat, fs: seq<Factor>) returns (r: seq<Factor>)
    requires f.Valid() && ValidFactors(fs)
    ensures ValidFactors(r) && Product(r) == Power(f.Value(), count) * Product(fs)
    ensures count == 0 ==> r == fs
  {
    r := fs;
    for i := 0 to count
      invariant ValidFactors(r) && Product(r) == Power(f.Value(), i) * Product(fs)
      invariant i == 0 ==> r == fs
    {
      ProductCons(f, r);
      Associate(f.Value(), Power(f.Value(), i), Product(fs));
      r := [f] + r;
    }
  }

  lemma {:induction false} PowersOf3(n: nat)
    ensures Power(3, n) == Power(9, n / 2) * Power(3, n % 2)
  {
    if n >= 2 {
      PowersOf3(n - 2);
      assert Power(3, n) == 3 * Power(3, n - 1) == 9 * Power(3, n - 2);
      assert Power(9, n / 2) == 9 * Power(9, n / 2 - 1);
      Associate(9, Power(9, n / 2 - 1), Power(3, n % 2));
    } else {
      assert Power(9, 0) == 1;
    }
  }

  // The factors 5, then 9 and 3, in front of each other.
  method SmallFactors(n3: nat, n5: nat) returns (fs: seq<Factor>)
    ensures ValidFactors(fs) && Product(fs) == Power(3, n3) * Power(5, n5)
    ensures n3 == n5 == 0 ==> fs == []
  {
    fs := Prepend(Mul(5), n5, []);
    fs := Prepend(Mul(9), n3 / 2, fs);
    fs := Prepend(Mul(3), n3 % 2, fs);
    PowersOf3(n3);
    Associate(Power(3, n3 % 2), Power(9, n3 / 2), Power(5, n5));
  }

  // Puts the power of two second, which may save a move.
  method InsertSecond(f: Factor, fs: seq<Factor>) returns (r: seq<Factor>)
    requires ValidFactors(fs) && f.Valid()
    ensures ValidFactors(r) && Product(r) == f.Value() * Product(fs)
    ensures fs == [] ==> r == [f]
  {
    if |fs| > 1 {
      ProductSecond(f, fs);
      r := [fs[0], f] + fs[1..];
    } else {
      ProductCons(f, fs);
      r := [f] + fs;
    }
  }

  /** Factors of n that can be multiplied by with few instructions, or None if
      the multiply instruction should be used; a power of two is one factor. */
  method MultiplyFactorize(n: int, neg: bool) returns (factors: Option<seq<Factor>>)
    requires n > 0
    ensures factors.Some? ==> ValidFactors(factors.value) && Product(factors.value) == n
    ensures IsPow2(n) ==> factors.Some? && |factors.value| <= 1 && forall f :: f in factors.value ==> !f.MulAdd?
  {
    var n2, m := TrailingZeros(n);
    if IsPow2(n) {
      var k: nat :| n == Pow2(k);
      OddPartOfPow2(k, n2, m);
    }
    var n3, n5;
    n3, m := DivideOut(m, 3);
    n5, m := DivideOut(m, 5);
    ghost var rest := m;
    var delta := PowerDelta(m);
    if delta.Some? { m := 1; }
    if m != 1 { return None; }
    if n5 + (n3 + 1) / 2 + (if n2 > 0 then 1 else 0) + (if delta.Some? then 1 else 0) > (if neg then 2 else 3) {
      return None;
    }
    Associate(Power(3, n3), Power(5, n5), rest);
    var fs := SmallFactors(n3, n5);
    fs := Assemble(fs, n2, delta);
    Associate(Pow2(n2), Product(fs), rest);
    factors := Some(fs);
  }

  // Adds the powers of two and the power-of-two-plus-addend factor where they cost least.
  method Assemble(small: seq<Factor>, n2: nat, delta: Option<Factor>) returns (fs: seq<Factor>)
    requires ValidFactors(small) && (delta.Some? ==> delta.value.MulAdd? && delta.value.Valid())
    ensures ValidFactors(fs)
    ensures Product(fs) == Pow2(n2) * (Product(small) * (if delta.Some? then delta.value.Value() else 1))
    ensures small == [] && delta.None? ==> |fs| <= 1 && forall f :: f in fs ==> !f.MulAdd?
  {
    var v := if delta.Some? then delta.value.Value() else 1;
    Combine(Pow2(n2), v, Product(small));
    assert Pow2(0) == 1 && Pow2(1) == 2 && Pow2(2) == 4 && Pow2(3) == 8;
    fs := small;
    if 2 <= n2 <= 3 {
      ProductCons(Mul(Pow2(n2)), fs);
      fs := [Mul(Pow2(n2))] + fs;
    }
    var first := delta.Some? && (delta.value.add == 1 || delta.value.add == -1);
    if delta.Some? && !first {
      ProductCons(delta.value, fs);
      fs := [delta.value] + fs;
    }
    if n2 == 1 || n2 > 3 {
      fs := InsertSecond(if n2 > 3 then Shift(n2) else Mul(2), fs);
    }
    if first {
      ProductCons(delta.value, fs);
      fs := [delta.value] + fs;
    }
  }

  lemma Combine(twos: int, v: int, s: int)
    ensures twos * (s * v) == twos * (v * s) == v * (twos * s)
  {
    Associate(twos, v, s);
    Associate(v, twos, s);
  }
}
