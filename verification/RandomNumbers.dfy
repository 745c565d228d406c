/** Bounded random numbers and shuffling (random.c). Raw words come from a stream;
    a bounded number takes the first raw word that is not rejected. */
module RandomNumbers {
  import opened Arithmetic
  import opened Prelude

  const W32: int := 0x1_0000_0000
  const W64: int := 0x1_0000_0000_0000_0000

  // ----- 64 by 64 bit multiplication -----

  /** The product of two 64-bit words as two words; no sum on the way overflows. */
  method MulU64(a: int, b: int) returns (l: int, h: int)
    requires 0 <= a < W64 && 0 <= b < W64
    ensures 0 <= l < W64 && 0 <= h < W64
    ensures h * W64 + l == a * b
  {
    var al, ah := a % W32, a / W32;
    var bl, bh := b % W32, b / W32;
    LimbProducts(al, ah, bl, bh);
    Recombine(al, ah, bl, bh, a, b);
    ProductBound(a, b, W64 - 1);
    l, h := SumLimbs(al * bl, al * bh, ah * bl, ah * bh);
  }

  // Adds the four partial products.
  method SumLimbs(albl: int, albh: int, ahbl: int, ahbh: int) returns (l: int, h: int)
    requires 0 <= albl <= (W32 - 1) * (W32 - 1) && 0 <= albh <= (W32 - 1) * (W32 - 1)
    requires 0 <= ahbl <= (W32 - 1) * (W32 - 1) && 0 <= ahbh
    requires ahbh * W64 + (albh + ahbl) * W32 + albl <= (W64 - 1) * (W64 - 1)
    ensures 0 <= l < W64 && 0 <= h < W64
    ensures h * W64 + l == ahbh * W64 + (albh + ahbl) * W32 + albl
  {
    var s := (albh + albl / W32) % W64;
    var t := (ahbl + s % W32) % W64;
    l := (albl % W32 + t * W32 % W64) % W64;
    h := (ahbh + s / W32 + t / W32) % W64;
    assert s == albh + albl / W32 && t == ahbl + s % W32;
    ShiftUp(t);
    assert l == albl % W32 + t % W32 * W32;
    Limbs(albl, albh, ahbl, ahbh, s, t, l);
    HighFits(ahbh + s / W32 + t / W32, l, ahbh * W64 + (albh + ahbl) * W32 + albl);
  }

  lemma ShiftUp(t: int)
    ensures t * W32 % W64 == t % W32 * W32
  {
    var q, r := t / W32, t % W32;
    assert t == q * W32 + r;
    DivModOf(t * W32, W64, q, r * W32);
  }

  lemma HighFits(x: int, l: int, p: int)
    requires x * W64 + l == p <= (W64 - 1) * (W64 - 1) && x >= 0 && l >= 0
    ensures x < W64
  {
  }

  lemma LimbProducts(al: int, ah: int, bl: int, bh: int)
    requires 0 <= al < W32 && 0 <= ah < W32 && 0 <= bl < W32 && 0 <= bh < W32
    ensures 0 <= al * bl <= (W32 - 1) * (W32 - 1) && 0 <= al * bh <= (W32 - 1) * (W32 - 1)
    ensures 0 <= ah * bl <= (W32 - 1) * (W32 - 1) && 0 <= ah * bh <= (W32 - 1) * (W32 - 1)
  {
    ProductBound(al, bl, W32 - 1);
    ProductBound(al, bh, W32 - 1);
    ProductBound(ah, bl, W32 - 1);
    ProductBound(ah, bh, W32 - 1);
  }

  lemma ProductBound(x: int, y: int, m: int)
    requires 0 <= x <= m && 0 <= y <= m
    ensures 0 <= x * y <= m * m
  {
    Distribute(m - x, x, y);
    Distribute(m - y, y, m);
    NonNegative(m - x, y);
    NonNegative(m - y, m);
    NonNegative(x, y);
    assert m * y == y * m;
  }

  lemma Recombine(al: int, ah: int, bl: int, bh: int, a: int, b: int)
    requires a == ah * W32 + al && b == bh * W32 + bl
    ensures a * b == ah * bh * W64 + (al * bh + ah * bl) * W32 + al * bl
  {
    Distribute(ah * W32, al, b);
    var x := bh * W32;
    assert ah * W32 * b == ah * W32 * x + ah * W32 * bl;
    assert al * b == al * x + al * bl;
    assert ah * W32 * x == ah * bh * W64;
    assert ah * W32 * bl == ah * bl * W32;
    assert al * x == al * bh * W32;
  }

  // The limbs of the sum, high part first.
  lemma Limbs(albl: int, albh: int, ahbl: int, ahbh: int, s: int, t: int, l: int)
    requires s == albh + albl / W32 && t == ahbl + s % W32 && l == albl % W32 + t % W32 * W32
    ensures (ahbh + s / W32 + t / W32) * W64 + l == ahbh * W64 + (albh + ahbl) * W32 + albl
  {
  }

  // ----- bounded numbers -----

  // Raw word x is used for one of n numbers: the low word of x * n is not too small.
  predicate Accepts(w: int, n: int, x: int)
    requires w > 0 && n > 0
  {
    x * n % w >= w % n
  }

  /** The raw words that yield v. */
  function Yielding(w: int, n: int, v: int): set<int>
    requires w > 0 && n > 0
  {
    set x | 0 <= x < w && Accepts(w, n, x) && x * n / w == v
  }

  function Interval(lo: int, k: nat): (r: set<int>)
    ensures forall x :: x in r <==> lo <= x < lo + k
  {
    if k == 0 then {} else Interval(lo, k - 1) + {lo + k - 1}
  }

  lemma {:induction false} IntervalSize(lo: int, k: nat)
    ensures |Interval(lo, k)| == k
  {
    if k > 0 {
      IntervalSize(lo, k - 1);
    }
  }

  /** Every number below n is yielded by equally many raw words. */
  lemma Unbiased(w: int, n: int, v: int)
    requires 0 < n <= w && 0 <= v < n
    ensures |Yielding(w, n, v)| == w / n
  {
    var k, t := w / n, w % n;
    var base := v * w + t;
    // the first x with x * n >= base
    var lo := (base + n - 1) / n;
    var gap := lo * n - base;
    assert base + n - 1 == lo * n + (base + n - 1) % n;
    assert 0 <= gap < n;
    forall x: int ensures x in Yielding(w, n, v) <==> x in Interval(lo, k) {
      YieldsBetween(w, n, v, x);
      Between(n, k, lo, gap, base, x);
      assert base + n * k == v * w + w;
    }
    assert Yielding(w, n, v) == Interval(lo, k);
    IntervalSize(lo, k);
  }

  // x yields v when x * n lies in v's part of the product range, without its start.
  lemma YieldsBetween(w: int, n: int, v: int, x: int)
    requires 0 < n <= w && 0 <= v < n
    ensures x in Yielding(w, n, v) <==> v * w + w % n <= x * n < v * w + w
  {
    var p := x * n;
    assert p == p / w * w + p % w;
    if v * w + w % n <= p < v * w + w {
      assert p == v * w + (p - v * w);
      DivModOf(p, w, v, p - v * w);
      InRange(w, n, v, x);
    }
  }

  lemma InRange(w: int, n: int, v: int, x: int)
    requires 0 < n <= w && 0 <= v < n && 0 <= x * n - v * w < w
    ensures 0 <= x < w
  {
    NonNegative(v, w);
    Monotone(v, n - 1, w);
    Distribute(n, -1, w);
    assert w * n == n * w;
    if x < 0 { Monotone(x, -1, n); }
    if x >= w { Monotone(w, x, n); }
  }

  // The multiples of n from base on, for k * n places, are those of lo up to lo + k.
  lemma Between(n: int, k: int, lo: int, gap: int, base: int, x: int)
    requires n > 0 && 0 <= gap < n && lo * n == base + gap
    ensures base <= x * n < base + n * k <==> lo <= x < lo + k
  {
    var d := x - lo;
    Distribute(d, lo, n);
    assert n * k == k * n;
    Distribute(k, -1, n);
    if d < 0 { Monotone(d, -1, n); } else { NonNegative(d, n); }
    if d < k { Monotone(d, k - 1, n); } else { Monotone(k, d, n); }
  }

  // -n % n in unsigned arithmetic.
  lemma Threshold(w: int, n: int)
    requires 0 < n < w
    ensures (w - n) % n == w % n
  {
    var q, r := w / n, w % n;
    assert w == q * n + r;
    Distribute(q, -1, n);
    DivModOf(w - n, n, q - 1, r);
  }

  // ----- the generator -----

  lemma QuotientBelow(x: int, n: int, w: int)
    requires 0 <= x < w && n > 0
    ensures 0 <= x * n / w < n
  {
    NonNegative(x, n);
    Monotone(x, w - 1, n);
    Distribute(w, -1, n);
    var q := x * n / w;
    assert x * n == q * w + x * n % w;
    assert n * w == w * n;
    if q < 0 { Monotone(q, -1, w); }
    if q >= n { Monotone(n, q, w); }
  }

  // With one number per word, every word is accepted and yields itself.
  lemma FullRange(w: int, x: int)
    requires w > 0
    ensures x * w % w == 0 && w % w == 0 && x * w / w == x
  {
    assert x * w == x * w + 0;
    DivModOf(x * w, w, x, 0);
    DivModOf(w, w, 1, 0);
  }

  /** A source of raw words of w values each. A draw from it fails when it runs dry. */
  class Generator {
    const w: int
    const words: seq<int>
    var position: nat

    ghost predicate Valid()
      reads this
    {
      w > 1 && position <= |words| && forall i :: 0 <= i < |words| ==> 0 <= words[i] < w
    }

    constructor (w: int, words: seq<int>)
      requires w > 1 && forall i :: 0 <= i < |words| ==> 0 <= words[i] < w
      ensures Valid() && this.w == w && this.words == words && position == 0
    {
      this.w, this.words, position := w, words, 0;
    }

    method Random() returns (x: Option<int>)
      requires Valid()
      modifies this
      ensures Valid()
      ensures if old(position) == |words| then x.None? && position == old(position)
              else x == Some(words[old(position)]) && position == old(position) + 1
    {
      if position == |words| {
        x := None;
      } else {
        x := Some(words[position]);
        position := position + 1;
      }
    }

    /** random_range64_r: a number from 0 to range, by the first word that is accepted. */
    method RandomRange64(range: int) returns (r: Option<int>)
      requires Valid() && w == W64 && 0 <= range < W64
      modifies this
      ensures Valid()
      ensures r.Some? ==> old(position) < position && r.value == words[position - 1] * (range + 1) / W64
      ensures r.Some? ==> words[position - 1] in Yielding(w, range + 1, r.value) && 0 <= r.value <= range
      ensures r.None? ==> position == |words|
      ensures forall k :: old(position) <= k < (if r.Some? then position - 1 else |words|) ==> !Accepts(w, range + 1, words[k])
    {
      var x := Random();
      if x.None? { return None; }
      if range == W64 - 1 {
        FullRange(w, x.value);
        QuotientBelow(x.value, w, w);
        return x;
      }
      var n := range + 1;
      var l, h := MulU64(x.value, n);
      DivModOf(x.value * n, W64, h, l);
      if l < n {
        var t := (W64 - n) % n;
        Threshold(W64, n);
        ghost var start := position - 1;
        while l < t
          invariant Valid() && start < position && x.Some? && x.value == words[position - 1]
          invariant h == x.value * n / W64 && l == x.value * n % W64
          invariant forall k :: start <= k < position - 1 ==> !Accepts(w, n, words[k])
          decreases |words| - position
        {
          x := Random();
          if x.None? { return None; }
          l, h := MulU64(x.value, n);
          DivModOf(x.value * n, W64, h, l);
        }
      } else {
        assert W64 % n < n;
      }
      QuotientBelow(x.value, n, W64);
      r := Some(h);
    }

    /** random_range32_r, with a 64-bit product. */
    method RandomRange32(range: int) returns (r: Option<int>)
      requires Valid() && w == W32 && 0 <= range < W32
      modifies this
      ensures Valid()
      ensures r.Some? ==> old(position) < position && r.value == words[position - 1] * (range + 1) / W32
      ensures r.Some? ==> words[position - 1] in Yielding(w, range + 1, r.value) && 0 <= r.value <= range
      ensures r.None? ==> position == |words|
      ensures forall k :: old(position) <= k < (if r.Some? then position - 1 else |words|) ==> !Accepts(w, range + 1, words[k])
    {
      var x := Random();
      if x.None? { return None; }
      if range == W32 - 1 {
        FullRange(w, x.value);
        QuotientBelow(x.value, w, w);
        return x;
      }
      var n := range + 1;
      var m := x.value * n;
      var l := m % W32;
      if l < n {
        var t := (W32 - n) % n;
        Threshold(W32, n);
        ghost var start := position - 1;
        while l < t
          invariant Valid() && start < position && x.Some? && x.value == words[position - 1]
          invariant m == x.value * n && l == m % W32
          invariant forall k :: start <= k < position - 1 ==> !Accepts(w, n, words[k])
          decreases |words| - position
        {
          x := Random();
          if x.None? { return None; }
          m := x.value * n;
          l := m % W32;
        }
      } else {
        assert W32 % n < n;
      }
      QuotientBelow(x.value, n, W32);
      r := Some(m / W32);
    }
  }

  // ----- shuffling -----

  function Swap<T>(s: seq<T>, i: nat, j: nat): (r: seq<T>)
    requires i < |s| && j < |s|
    ensures |r| == |s|
  {
    s[i := s[j]][j := s[i]]
  }

  // Choice i is the distance to the element that goes to place i.
  ghost predicate Choices(c: seq<nat>, n: nat) {
    |c| < n && forall i :: 0 <= i < |c| ==> c[i] < n - i
  }

  /** The array after as many steps as there are choices. */
  function Shuffled<T>(s: seq<T>, c: seq<nat>): (r: seq<T>)
    requires c == [] || Choices(c, |s|)
    ensures |r| == |s|
  {
    if c == [] then s
    else
      var k := |c| - 1;
      Swap(Shuffled(s, c[..k]), k, k + c[k])
  }

  ghost predicate Words(words: seq<int>) {
    forall i :: 0 <= i < |words| ==> 0 <= words[i] < W32
  }

  // Where the search for the i-th word starts: behind the one before.
  function Behind(start: nat, at: seq<nat>, i: nat): nat
    requires i <= |at|
  {
    if i == 0 then start else at[i - 1] + 1
  }

  /** The i-th position has the first word from there on that is accepted for n - i numbers. */
  ghost predicate TakenAt(words: seq<int>, start: nat, n: nat, at: seq<nat>, i: nat)
    requires i < |at| && i < n
  {
    && Behind(start, at, i) <= at[i] < |words| && Accepts(W32, n - i, words[at[i]])
    && forall k :: Behind(start, at, i) <= k < at[i] ==> !Accepts(W32, n - i, words[k])
  }

  // Choice i is what that word stands for.
  ghost predicate ChosenAt(words: seq<int>, n: nat, at: seq<nat>, choices: seq<nat>, i: nat)
    requires i < |at| && i < |choices|
  {
    at[i] < |words| && choices[i] == words[at[i]] * (n - i) / W32
  }

  ghost predicate AllTaken(words: seq<int>, start: nat, n: nat, at: seq<nat>, choices: seq<nat>) {
    && |choices| == |at| < n
    && (forall i :: 0 <= i < |at| ==> TakenAt(words, start, n, at, i))
    && (forall i :: 0 <= i < |at| ==> ChosenAt(words, n, at, choices, i))
  }

  // No word from position k on is accepted for n numbers.
  ghost predicate RunsDry(words: seq<int>, k: nat, n: nat)
    requires n > 0
  {
    forall j :: k <= j < |words| ==> !Accepts(W32, n, words[j])
  }

  // The words themselves.
  function Taken(words: seq<int>, at: seq<nat>): (t: seq<int>)
    ensures |t| == |at|
  {
    seq(|at|, i requires 0 <= i < |at| => if at[i] < |words| then words[at[i]] else 0)
  }

  /** randomize_array: shuffles by the choices that words taken one after the other stand
      for; false if the generator runs dry. */
  method RandomizeArray<T>(rng: Generator, a: array<T>) returns (ok: bool, ghost choices: seq<nat>, ghost at: seq<nat>)
    requires rng.Valid() && rng.w == W32 && a.Length < W32
    modifies rng, a
    ensures rng.Valid()
    ensures choices == [] || Choices(choices, a.Length)
    ensures a[..] == Shuffled(old(a[..]), choices)
    ensures if a.Length == 0 then ok && at == [] && choices == [] else AllTaken(rng.words, old(rng.position), a.Length, at, choices)
    ensures ok ==> rng.position == Behind(old(rng.position), at, |at|)
    ensures ok && a.Length > 0 ==> var t := Taken(rng.words, at); AcceptedWords(t, a.Length) && choices == ChoicesOf(t, a.Length)
    ensures !ok ==> |at| < a.Length - 1 && RunsDry(rng.words, Behind(old(rng.position), at, |at|), a.Length - |at|)
  {
    if a.Length < 2 {
      return true, [], [];
    }
    ok, choices, at := ShuffleInPlace(rng, a);
    if ok { TakenAccepted(rng.words, old(rng.position), a.Length, choices, at); }
  }

  // The loop: each place in turn gets one of the elements from there on.
  method ShuffleInPlace<T>(rng: Generator, a: array<T>) returns (ok: bool, ghost choices: seq<nat>, ghost at: seq<nat>)
    requires rng.Valid() && rng.w == W32 && 2 <= a.Length < W32
    modifies rng, a
    ensures rng.Valid() && Words(rng.words) && Midway(rng.words, old(rng.position), old(a[..]), a[..], choices, at)
    ensures ok ==> |choices| == a.Length - 1 && rng.position == Behind(old(rng.position), at, |at|)
    ensures !ok ==> |at| < a.Length - 1 && RunsDry(rng.words, Behind(old(rng.position), at, |at|), a.Length - |at|)
  {
    ghost var was, start := a[..], rng.position;
    ok, choices, at := true, [], [];
    var last := a.Length - 1;
    var i := 0;
    while i < last
      invariant 0 <= i <= last && rng.Valid() && |choices| == |at| == i && rng.position == Behind(start, at, i) && ok
      invariant Midway(rng.words, start, was, a[..], choices, at)
    {
      ghost var now := a[..];
      hide Midway, Accepts;
      var d := rng.RandomRange32(last - i);
      if d.None? {
        ok := false;
        return;
      }
      MidwayStep(rng.words, start, was, now, choices, at, d.value, rng.position - 1);
      var j := i + d.value;
      var buf := a[i];
      a[i] := a[j];
      a[j] := buf;
      assert a[..] == Swap(now, i, j);
      choices, at, i := choices + [d.value], at + [rng.position - 1], i + 1;
    }
  }

  // The choices so far are those of the words taken so far, and have shuffled the array.
  ghost predicate Midway<T>(words: seq<int>, start: nat, was: seq<T>, now: seq<T>, choices: seq<nat>, at: seq<nat>) {
    && |was| <= W32 && AllTaken(words, start, |was|, at, choices)
    && (choices == [] || Choices(choices, |was|))
    && now == Shuffled(was, choices)
  }

  // After a draw.
  lemma MidwayStep<T>(words: seq<int>, start: nat, was: seq<T>, now: seq<T>, choices: seq<nat>, at: seq<nat>, d: nat, p: nat)
    requires Midway(words, start, was, now, choices, at) && |choices| == |at| < |was| - 1 && |now| == |was|
    requires Behind(start, at, |at|) <= p < |words| && Accepts(W32, |was| - |at|, words[p])
    requires d == words[p] * (|was| - |at|) / W32 < |was| - |at|
    requires forall k :: Behind(start, at, |at|) <= k < p ==> !Accepts(W32, |was| - |at|, words[k])
    ensures Midway(words, start, was, Swap(now, |choices|, |choices| + d), choices + [d], at + [p])
  {
    var c := choices + [d];
    MoreTaken(words, start, |was|, at, choices, d, p);
    LongerChoices(choices, d, |was|);
    hide AllTaken, Choices, Swap, Accepts;
    assert c[..|choices|] == choices && c[|choices|] == d;
    MoreShuffled(was, c, |choices|);
    hide Shuffled;
  }

  lemma MoreTaken(words: seq<int>, start: nat, n: nat, at: seq<nat>, choices: seq<nat>, d: nat, p: nat)
    requires AllTaken(words, start, n, at, choices) && |at| < n - 1
    requires Behind(start, at, |at|) <= p < |words| && Accepts(W32, n - |at|, words[p]) && d == words[p] * (n - |at|) / W32
    requires forall k :: Behind(start, at, |at|) <= k < p ==> !Accepts(W32, n - |at|, words[k])
    ensures AllTaken(words, start, n, at + [p], choices + [d])
  {
    var more, c := at + [p], choices + [d];
    forall i | 0 <= i < |more| ensures TakenAt(words, start, n, more, i) && ChosenAt(words, n, more, c, i) {
      if i < |at| {
        assert TakenAt(words, start, n, at, i) && ChosenAt(words, n, at, choices, i);
        assert Behind(start, more, i) == Behind(start, at, i) && more[i] == at[i] && c[i] == choices[i];
      }
    }
  }

  lemma TakenAccepted(words: seq<int>, start: nat, n: nat, choices: seq<nat>, at: seq<nat>)
    requires Words(words) && AllTaken(words, start, n, at, choices) && |at| == n - 1
    ensures AcceptedWords(Taken(words, at), n) && choices == ChoicesOf(Taken(words, at), n)
  {
    var t := Taken(words, at);
    forall i | 0 <= i < |at| ensures 0 <= t[i] < W32 && Accepts(W32, n - i, t[i]) && choices[i] == t[i] * (n - i) / W32 {
      assert TakenAt(words, start, n, at, i) && ChosenAt(words, n, at, choices, i);
    }
    hide Accepts;
  }

  // The last step of a shuffle.
  lemma MoreShuffled<T>(was: seq<T>, c: seq<nat>, k: nat)
    requires |c| == k + 1 && Choices(c, |was|) && (c[..k] == [] || Choices(c[..k], |was|))
    ensures k < |was| && c[k] < |was| - k
    ensures Shuffled(was, c) == Swap(Shuffled(was, c[..k]), k, k + c[k])
  {
  }

  lemma LongerChoices(choices: seq<nat>, d: nat, n: nat)
    requires (choices == [] || Choices(choices, n)) && |choices| < n - 1 && d < n - |choices|
    ensures Choices(choices + [d], n)
  {
  }

  lemma SwapKeepsElements<T>(s: seq<T>, i: nat, j: nat)
    requires i < |s| && j < |s|
    ensures multiset(Swap(s, i, j)) == multiset(s)
  {
  }

  /** A shuffled array is a permutation of the original. */
  lemma {:induction false} ShuffledIsPermutation<T>(s: seq<T>, c: seq<nat>)
    requires c == [] || Choices(c, |s|)
    ensures multiset(Shuffled(s, c)) == multiset(s)
  {
    if c != [] {
      var k := |c| - 1;
      ShuffledIsPermutation(s, c[..k]);
      SwapKeepsElements(Shuffled(s, c[..k]), k, k + c[k]);
    }
  }

  // The first choice decides the first element; the others shuffle the rest.
  lemma {:induction false} ShuffledFront<T>(s: seq<T>, c: seq<nat>)
    requires c != [] && Choices(c, |s|)
    ensures c[1..] == [] || Choices(c[1..], |s| - 1)
    ensures Shuffled(s, c) == [s[c[0]]] + Shuffled(Swap(s, 0, c[0])[1..], c[1..])
    decreases |c|
  {
    var k := |c| - 1;
    if k == 0 {
      OneChoice(s, c);
    } else {
      FrontAndRest(c, |s|);
      ShuffledFront(s, c[..k]);
      var r := Shuffled(Swap(s, 0, c[0])[1..], c[1..][..k - 1]);
      AddChoice(s, c, r, s[c[0]]);
      assert Shuffled(Swap(s, 0, c[0])[1..], c[1..]) == Swap(r, k - 1, k - 1 + c[k]);
    }
  }

  lemma OneChoice<T>(s: seq<T>, c: seq<nat>)
    requires |c| == 1 && Choices(c, |s|)
    ensures c[1..] == [] && Shuffled(s, c) == [s[c[0]]] + Swap(s, 0, c[0])[1..]
  {
    assert c[..0] == [];
  }

  lemma FrontAndRest(c: seq<nat>, n: nat)
    requires |c| > 1 && Choices(c, n)
    ensures var k := |c| - 1;
            && Choices(c[..k], n) && Choices(c[1..], n - 1) && (c[1..][..k - 1] == [] || Choices(c[1..][..k - 1], n - 1))
            && c[..k][0] == c[0] && c[..k][1..] == c[1..][..k - 1] && c[1..][k - 1] == c[k]
  {
  }

  // The last choice, seen from the second element on.
  lemma AddChoice<T>(s: seq<T>, c: seq<nat>, r: seq<T>, x: T)
    requires |c| > 1 && Choices(c, |s|) && Choices(c[..|c|-1], |s|) && Shuffled(s, c[..|c|-1]) == [x] + r
    ensures |r| == |s| - 1 && Shuffled(s, c) == [x] + Swap(r, |c| - 2, |c| - 2 + c[|c|-1])
  {
    var k := |c| - 1;
    SwapBehind([x], r, k - 1, k - 1 + c[k]);
  }

  lemma SwapBehind<T>(a: seq<T>, s: seq<T>, i: nat, j: nat)
    requires i < |s| && j < |s|
    ensures Swap(a + s, |a| + i, |a| + j) == a + Swap(s, i, j)
  {
  }

  ghost predicate Distinct<T>(s: seq<T>) {
    forall i, j :: 0 <= i < j < |s| ==> s[i] != s[j]
  }

  function IndexOf<T(==)>(s: seq<T>, x: T): (i: nat)
    requires x in s
    ensures i < |s| && s[i] == x
  {
    if s[0] == x then 0 else 1 + IndexOf(s[1..], x)
  }

  // The choices that lead from s to its permutation p.
  function ChoicesFor<T(==)>(s: seq<T>, p: seq<T>): (c: seq<nat>)
    requires multiset(p) == multiset(s)
    ensures |c| == if |s| < 2 then 0 else |s| - 1
    ensures c == [] || Choices(c, |s|)
    decreases |s|
  {
    assert |p| == |multiset(p)| == |multiset(s)| == |s|;
    if |s| < 2 then []
    else
      assert p[0] in multiset(s);
      var j := IndexOf(s, p[0]);
      RestPermuted(s, p, j);
      [j] + ChoicesFor(Swap(s, 0, j)[1..], p[1..])
  }

  lemma RestPermuted<T>(s: seq<T>, p: seq<T>, j: nat)
    requires multiset(p) == multiset(s) && s != [] && |p| == |s| && j < |s| && s[j] == p[0]
    ensures multiset(p[1..]) == multiset(Swap(s, 0, j)[1..])
  {
    SwapKeepsElements(s, 0, j);
    WithoutFirst(p);
    WithoutFirst(Swap(s, 0, j));
  }

  lemma WithoutFirst<T>(s: seq<T>)
    requires s != []
    ensures multiset(s[1..]) == multiset(s) - multiset{s[0]}
  {
    assert s == [s[0]] + s[1..];
  }

  /** Every permutation arises from some choices... */
  lemma {:induction false} EveryPermutation<T>(s: seq<T>, p: seq<T>)
    requires multiset(p) == multiset(s)
    ensures Shuffled(s, ChoicesFor(s, p)) == p
    decreases |s|
  {
    assert |p| == |multiset(p)| == |multiset(s)| == |s|;
    if |s| < 2 {
      if |s| == 1 { assert s == [s[0]] && p == [p[0]]; assert p[0] in multiset(s); }
    } else {
      assert p[0] in multiset(s);
      var j := IndexOf(s, p[0]);
      RestPermuted(s, p, j);
      var t, c := Swap(s, 0, j), ChoicesFor(s, p);
      ShuffledFront(s, c);
      assert c[1..] == ChoicesFor(t[1..], p[1..]);
      EveryPermutation(t[1..], p[1..]);
      assert p == [p[0]] + p[1..];
    }
  }

  /** ... and, for distinct elements, from no others. */
  lemma {:induction false} OnlyChoices<T>(s: seq<T>, c: seq<nat>)
    requires Distinct(s) && |c| == (if |s| < 2 then 0 else |s| - 1) && (c == [] || Choices(c, |s|))
    ensures multiset(Shuffled(s, c)) == multiset(s)
    ensures ChoicesFor(s, Shuffled(s, c)) == c
    decreases |s|
  {
    ShuffledIsPermutation(s, c);
    if |s| >= 2 {
      ShuffledFront(s, c);
      var t, p := Swap(s, 0, c[0]), Shuffled(s, c);
      assert IndexOf(s, p[0]) == c[0];
      assert p[1..] == Shuffled(t[1..], c[1..]);
      OnlyChoices(t[1..], c[1..]);
      RestPermuted(s, p, c[0]);
      assert c == [c[0]] + c[1..];
    }
  }

  // ----- equally many words for every permutation -----

  // The choices that a tuple of raw words, all of them accepted, stands for.
  ghost predicate Yields(t: seq<int>, c: seq<nat>, n: nat)
    requires |c| < n
  {
    |t| == |c| && forall i :: 0 <= i < |t| ==> t[i] in Yielding(W32, n - i, c[i])
  }

  ghost predicate AcceptedWords(t: seq<int>, n: nat) {
    |t| == n - 1 && forall i :: 0 <= i < |t| ==> 0 <= t[i] < W32 && Accepts(W32, n - i, t[i])
  }

  function ChoicesOf(t: seq<int>, n: nat): (c: seq<nat>)
    requires AcceptedWords(t, n)
    ensures |c| == |t| && (c == [] || Choices(c, n))
  {
    WordsChoose(t, n);
    seq(|t|, i requires 0 <= i < |t| => t[i] * (n - i) / W32)
  }

  lemma WordsChoose(t: seq<int>, n: nat)
    requires AcceptedWords(t, n)
    ensures forall i :: 0 <= i < |t| ==> 0 <= t[i] * (n - i) / W32 < n - i
  {
    forall i | 0 <= i < |t| ensures 0 <= t[i] * (n - i) / W32 < n - i {
      QuotientBelow(t[i], n - i, W32);
    }
  }

  // All pairs of a first word and the others.
  ghost function Pairs(a: set<int>, b: set<seq<int>>): set<seq<int>> {
    set x, t | x in a && t in b :: [x] + t
  }

  lemma {:induction false} FrontSize(x: int, b: set<seq<int>>)
    ensures |Pairs({x}, b)| == |b|
    decreases |b|
  {
    if b == {} {
      assert Pairs({x}, b) == {};
    } else {
      var t :| t in b;
      FrontSize(x, b - {t});
      forall p ensures p in Pairs({x}, b) <==> p in Pairs({x}, b - {t}) || p == [x] + t {
        if p in Pairs({x}, b) {
          var u :| u in b && p == [x] + u;
          assert u == t || u in b - {t};
        }
      }
      assert Pairs({x}, b) == Pairs({x}, b - {t}) + {[x] + t};
      assert [x] + t !in Pairs({x}, b - {t}) by {
        forall u | [x] + u == [x] + t ensures u == t {
          assert u == ([x] + u)[1..] == ([x] + t)[1..];
        }
      }
    }
  }

  lemma PairsSplit(a: set<int>, x: int, b: set<seq<int>>)
    requires x in a
    ensures Pairs(a, b) == Pairs(a - {x}, b) + Pairs({x}, b)
    ensures Pairs(a - {x}, b) !! Pairs({x}, b)
  {
    forall p | p in Pairs(a - {x}, b) ensures p[0] in a - {x} {}
    forall p | p in Pairs({x}, b) ensures p[0] == x {}
  }

  lemma NoPairs(b: set<seq<int>>)
    ensures Pairs({}, b) == {}
  {
  }

  lemma Member<T>(a: set<T>) returns (x: T)
    requires a != {}
    ensures x in a
  {
    x :| x in a;
  }

  lemma {:induction false} PairsSize(a: set<int>, b: set<seq<int>>)
    ensures |Pairs(a, b)| == |a| * |b|
    decreases |a|
  {
    hide Pairs;
    if a == {} {
      NoPairs(b);
    } else {
      var x := Member(a);
      var a' := a - {x};
      PairsSize(a', b);
      FrontSize(x, b);
      PairsSplit(a, x, b);
      assert |a| == |a'| + 1;
      Distribute(|a'|, 1, |b|);
      assert |Pairs(a, b)| == |Pairs(a', b)| + |Pairs({x}, b)|;
    }
  }

  // The tuples that yield these choices.
  ghost function Tuples(c: seq<nat>, n: nat): set<seq<int>>
    requires |c| < n
  {
    if c == [] then {[]} else Pairs(Yielding(W32, n, c[0]), Tuples(c[1..], n - 1))
  }

  lemma {:induction false} TuplesYield(c: seq<nat>, n: nat, t: seq<int>)
    requires |c| < n
    ensures t in Tuples(c, n) <==> Yields(t, c, n)
    decreases |c|
  {
    if c != [] && t != [] {
      TuplesYield(c[1..], n - 1, t[1..]);
      assert t == [t[0]] + t[1..];
      assert Yields(t, c, n) <==> t[0] in Yielding(W32, n, c[0]) && Yields(t[1..], c[1..], n - 1) by {
        YieldsFront(t, c, n);
      }
      if t in Tuples(c, n) {
        var x, u :| x in Yielding(W32, n, c[0]) && u in Tuples(c[1..], n - 1) && t == [x] + u;
        assert u == t[1..];
      }
    }
  }

  lemma YieldsFront(t: seq<int>, c: seq<nat>, n: nat)
    requires c != [] && t != [] && |c| < n
    ensures Yields(t, c, n) <==> t[0] in Yielding(W32, n, c[0]) && Yields(t[1..], c[1..], n - 1)
  {
    if t[0] in Yielding(W32, n, c[0]) && Yields(t[1..], c[1..], n - 1) {
      forall i | 0 <= i < |t| ensures t[i] in Yielding(W32, n - i, c[i]) {
        if i > 0 { assert t[1..][i - 1] in Yielding(W32, n - 1 - (i - 1), c[1..][i - 1]); }
      }
    }
    if Yields(t, c, n) {
      forall i | 0 <= i < |t[1..]| ensures t[1..][i] in Yielding(W32, n - 1 - i, c[1..][i]) {
        assert t[i + 1] in Yielding(W32, n - (i + 1), c[i + 1]);
      }
    }
  }

  // The product of 2^32 / n, 2^32 / (n - 1), ... for m factors.
  function Ways(n: nat, m: nat): nat
    requires m < n
  {
    if m == 0 then 1 else W32 / n * Ways(n - 1, m - 1)
  }

  lemma {:induction false} TuplesSize(c: seq<nat>, n: nat)
    requires |c| < n <= W32 && (c == [] || Choices(c, n))
    ensures |Tuples(c, n)| == Ways(n, |c|)
    decreases |c|
  {
    if c != [] {
      assert c[0] < n;
      forall i | 0 <= i < |c[1..]| ensures c[1..][i] < n - 1 - i { assert c[i + 1] < n - (i + 1); }
      Unbiased(W32, n, c[0]);
      TuplesSize(c[1..], n - 1);
      PairsSize(Yielding(W32, n, c[0]), Tuples(c[1..], n - 1));
    }
  }

  lemma YieldsChoices(t: seq<int>, c: seq<nat>, n: nat)
    requires |c| == n - 1
    ensures Yields(t, c, n) <==> AcceptedWords(t, n) && ChoicesOf(t, n) == c
  {
  }

  /** For distinct elements, each permutation arises from equally many tuples of accepted
      raw words. */
  lemma EquallyLikely<T>(s: seq<T>, p: seq<T>)
    requires Distinct(s) && 0 < |s| <= W32 && multiset(p) == multiset(s)
    ensures var tuples := Tuples(ChoicesFor(s, p), |s|);
            && |tuples| == Ways(|s|, |s| - 1)
            && forall t :: t in tuples <==> AcceptedWords(t, |s|) && Shuffled(s, ChoicesOf(t, |s|)) == p
  {
    var n, c := |s|, ChoicesFor(s, p);
    TuplesSize(c, n);
    EveryPermutation(s, p);
    forall t ensures t in Tuples(c, n) <==> AcceptedWords(t, n) && Shuffled(s, ChoicesOf(t, n)) == p {
      TuplesYield(c, n, t);
      YieldsChoices(t, c, n);
      if AcceptedWords(t, n) && Shuffled(s, ChoicesOf(t, n)) == p {
        OnlyChoices(s, ChoicesOf(t, n));
      }
    }
  }
}
