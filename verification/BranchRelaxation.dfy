/** Jumps start short and are lengthened until they all reach their targets
    (increase_branches and resize_branches in ax64.mud), and are then assembled
    as displacements. */
module BranchRelaxation {
  import opened Arithmetic
  import opened Prelude

  // Straight instructions are bytes already; jumps name the instruction they go to.
  datatype Item =
    | Straight(bytes: seq<int>)
    | Jump(cc: Option<int>, dest: nat, near: bool)

  function Opcode(i: Item): (b: seq<int>)
    requires i.Jump?
    ensures |b| == if i.cc.Some? && i.near then 2 else 1
  {
    if i.cc.None? then [if i.near then 0xe9 else 0xeb]
    else if i.near then [0x0f, 0x80 + i.cc.value]
    else [0x70 + i.cc.value]
  }

  function SizeOf(i: Item): nat {
    if i.Straight? then |i.bytes|
    else if i.near then (if i.cc.None? then 5 else 6)
    else 2
  }

  predicate Int8(n: int) {
    -128 <= n <= 127
  }

  predicate Int32(n: int) {
    -0x8000_0000 <= n <= 0x7fff_ffff
  }

  /** Where instruction k starts: the sizes of those before it, added up. */
  function Start(items: seq<Item>, k: nat): (n: nat)
    requires k <= |items|
  {
    if k == 0 then 0 else Start(items, k - 1) + SizeOf(items[k - 1])
  }

  ghost predicate WellFormed(items: seq<Item>) {
    forall i :: 0 <= i < |items| ==> ItemOk(items[i], |items|)
  }

  predicate ItemOk(i: Item, n: nat) {
    i.Jump? ==> i.dest < n && (i.cc.Some? ==> 0 <= i.cc.value < 16)
  }

  predicate Short(i: Item) {
    i.Jump? && !i.near
  }

  // How far jump k goes, from its end.
  function Distance(items: seq<Item>, k: nat): int
    requires k < |items| && items[k].Jump? && items[k].dest < |items|
  {
    Start(items, items[k].dest) - Start(items, k + 1)
  }

  // ----- one pass -----

  // The distance a pass computes for jump k: the offsets of later instructions are
  // still those of the pass before.
  function SeenDistance(was: seq<Item>, now: seq<Item>, k: nat): int
    requires |was| == |now| && k < |now| && now[k].Jump? && now[k].dest < |now|
  {
    (if now[k].dest <= k then Start(now, now[k].dest) else Start(was, now[k].dest)) - Start(now, k + 1)
  }

  // The first k instructions after a pass has looked at them.
  function Widen(items: seq<Item>, k: nat): (now: seq<Item>)
    requires k <= |items| && WellFormed(items)
    ensures |now| == |items|
    ensures forall i :: k <= i < |items| ==> now[i] == items[i]
    ensures forall i :: 0 <= i < |items| ==> now[i] == items[i] || (Short(items[i]) && now[i] == items[i].(near := true))
  {
    if k == 0 then items
    else
      var now := Widen(items, k - 1);
      if Short(now[k - 1]) && !Int8(SeenDistance(items, now, k - 1)) then now[k - 1 := now[k - 1].(near := true)]
      else now
  }

  lemma {:induction false} StartSame(a: seq<Item>, b: seq<Item>, k: nat)
    requires k <= |a| && k <= |b| && forall i :: 0 <= i < k ==> a[i] == b[i]
    ensures Start(a, k) == Start(b, k)
  {
    if k > 0 { StartSame(a, b, k - 1); }
  }

  lemma {:induction false} WidenKeeps(items: seq<Item>, j: nat, k: nat)
    requires j <= k <= |items| && WellFormed(items)
    ensures forall i :: 0 <= i < j ==> Widen(items, k)[i] == Widen(items, j)[i]
  {
    if j < k { WidenKeeps(items, j, k - 1); }
  }

  function ShortCount(items: seq<Item>): nat {
    if items == [] then 0 else ShortCount(items[..|items|-1]) + if Short(items[|items|-1]) then 1 else 0
  }

  // Lengthening one jump leaves one short jump less.
  lemma {:induction false} ShortCountUpdate(items: seq<Item>, k: nat)
    requires k < |items| && Short(items[k])
    ensures ShortCount(items[k := items[k].(near := true)]) == ShortCount(items) - 1
  {
    var last := |items| - 1;
    var items' := items[k := items[k].(near := true)];
    if k < last {
      ShortCountUpdate(items[..last], k);
      assert items'[..last] == items[..last][k := items[k].(near := true)];
    } else {
      assert items'[..last] == items[..last];
    }
  }

  lemma NearIsLonger(i: Item)
    requires Short(i)
    ensures SizeOf(i) < SizeOf(i.(near := true))
  {
  }

  lemma {:induction false} GrowthSinceStart(items: seq<Item>, k: nat)
    requires k <= |items| && WellFormed(items)
    ensures Start(Widen(items, k), k) >= Start(items, k)
    ensures ShortCount(Widen(items, k)) <= ShortCount(items)
    ensures if Start(Widen(items, k), k) == Start(items, k) then Widen(items, k) == items
            else ShortCount(Widen(items, k)) < ShortCount(items)
  {
    if k > 0 {
      GrowthSinceStart(items, k - 1);
      var now, next := Widen(items, k - 1), Widen(items, k);
      StartSame(next, now, k - 1);
      assert now[k - 1] == items[k - 1];
      assert Start(next, k) == Start(now, k - 1) + SizeOf(next[k - 1]);
      assert Start(items, k) == Start(items, k - 1) + SizeOf(items[k - 1]);
      if next[k - 1] != now[k - 1] {
        NearIsLonger(items[k - 1]);
        ShortCountUpdate(now, k - 1);
      } else {
        assert next == now;
      }
    }
  }

  // The list without any more changes: passes until one does nothing.
  function Relaxed(items: seq<Item>): (r: seq<Item>)
    requires WellFormed(items)
    ensures WellFormed(r) && Lengthened(items, r)
    decreases ShortCount(items)
  {
    var now := Widen(items, |items|);
    GrowthSinceStart(items, |items|);
    WidenWellFormed(items, |items|);
    if now == items then items else Relaxed(now)
  }

  // Some short jumps have become near jumps to the same instructions.
  ghost predicate Lengthened(a: seq<Item>, b: seq<Item>) {
    |a| == |b| && forall i :: 0 <= i < |a| ==> b[i] == a[i] || (Short(a[i]) && b[i] == a[i].(near := true))
  }

  ghost predicate AllFit(items: seq<Item>) {
    && WellFormed(items)
    && forall i :: 0 <= i < |items| && Short(items[i]) ==> ItemOk(items[i], |items|) && Int8(Distance(items, i))
  }

  lemma WidenWellFormed(items: seq<Item>, k: nat)
    requires k <= |items| && WellFormed(items)
    ensures WellFormed(Widen(items, k))
  {
    var now := Widen(items, k);
    forall i | 0 <= i < |now| ensures ItemOk(now[i], |now|) {
      assert ItemOk(items[i], |items|);
    }
  }

  /** Exactly when a pass that has already grown by delta lengthens short jump k: a
      backward jump is judged by its true distance, a forward one by delta less. */
  lemma LengthensExactly(items: seq<Item>, k: nat)
    requires k < |items| && WellFormed(items) && Short(items[k])
    ensures var now := Widen(items, k);
            var delta := Start(now, k) - Start(items, k);
            Widen(items, k + 1)[k] != items[k] <==>
            !Int8(if items[k].dest <= k then Distance(now, k) else Distance(items, k) - delta)
  {
    var now := Widen(items, k);
    assert now[k] == items[k];
    assert Start(now, k + 1) == Start(now, k) + SizeOf(items[k]);
    assert Start(items, k + 1) == Start(items, k) + SizeOf(items[k]);
  }

  // ----- the instruction list -----

  // Offsets are the running sums of the sizes.
  ghost predicate Laid(items: seq<Item>, offsets: seq<int>, sizes: seq<int>) {
    && WellFormed(items) && |offsets| == |items| == |sizes|
    && (forall i :: 0 <= i < |items| ==> offsets[i] == Start(items, i))
    && (forall i :: 0 <= i < |items| ==> sizes[i] == SizeOf(items[i]))
  }

  // What the arrays hold when a pass is about to look at instruction k.
  ghost predicate Halfway(now: seq<Item>, offsets: seq<int>, sizes: seq<int>, was: seq<Item>, k: nat, delta: int) {
    && WellFormed(was) && |now| == |offsets| == |sizes| == |was| && k <= |was|
    && now == Widen(was, k)
    && delta == Start(now, k) - Start(was, k)
    && (forall i :: 0 <= i < k ==> offsets[i] == Start(now, i))
    && (forall i :: k <= i < |was| ==> offsets[i] == Start(was, i))
    && (forall i :: 0 <= i < |was| ==> sizes[i] == SizeOf(now[i]))
  }

  lemma PassStarts(items: seq<Item>, offsets: seq<int>, sizes: seq<int>)
    requires Laid(items, offsets, sizes)
    ensures Halfway(items, offsets, sizes, items, 0, 0)
  {
  }

  lemma PassEnds(now: seq<Item>, offsets: seq<int>, sizes: seq<int>, was: seq<Item>, delta: int)
    requires Halfway(now, offsets, sizes, was, |was|, delta)
    ensures Laid(now, offsets, sizes)
  {
    WidenWellFormed(was, |was|);
  }

  /** Instructions with their offsets and sizes, updated in place. */
  class Assembler {
    const items: array<Item>
    const offsets: array<int>
    const sizes: array<int>

    ghost predicate Valid()
      reads this, items, offsets, sizes
    {
      Shape() && Laid(items[..], offsets[..], sizes[..])
    }

    ghost predicate Shape()
      reads this
    {
      offsets != sizes && offsets.Length == items.Length && sizes.Length == items.Length
    }

    constructor (code: seq<Item>)
      requires WellFormed(code)
      ensures Valid() && items[..] == code && fresh(items) && fresh(offsets) && fresh(sizes)
    {
      var n := |code|;
      items := new Item[n](i requires 0 <= i < n => code[i]);
      offsets := new int[n];
      sizes := new int[n];
      new;
      assert items[..] == code;
      Layout();
    }

    // The first offsets, from the sizes.
    method Layout()
      requires Shape() && WellFormed(items[..])
      modifies offsets, sizes
      ensures Valid()
    {
      ghost var code := items[..];
      var offset, i := 0, 0;
      while i < items.Length
        invariant 0 <= i <= items.Length && offset == Start(code, i)
        invariant forall j :: 0 <= j < i ==> offsets[j] == Start(code, j)
        invariant forall j :: 0 <= j < i ==> sizes[j] == SizeOf(code[j])
      {
        var size := SizeOf(items[i]);
        offsets[i], sizes[i] := offset, size;
        offset, i := offset + size, i + 1;
      }
      assert items[..] == code;
    }

    /** One pass: lengthens the jumps that look too long, moving what follows; the
        result is the growth of the code, zero when nothing was done. */
    method IncreaseBranches() returns (delta: int)
      requires Valid()
      modifies items, offsets, sizes
      ensures Valid() && items[..] == Widen(old(items[..]), items.Length)
      ensures delta == Start(items[..], items.Length) - Start(old(items[..]), items.Length)
    {
      ghost var was := items[..];
      PassStarts(was, offsets[..], sizes[..]);
      delta := 0;
      var k := 0;
      while k < items.Length
        invariant 0 <= k <= items.Length && Halfway(items[..], offsets[..], sizes[..], was, k, delta)
      {
        delta := Visit(k, delta, was);
        k := k + 1;
      }
      PassEnds(items[..], offsets[..], sizes[..], was, delta);
    }

    method Visit(k: nat, delta0: int, ghost was: seq<Item>) returns (delta: int)
      requires Shape() && k < items.Length && Halfway(items[..], offsets[..], sizes[..], was, k, delta0)
      modifies items, offsets, sizes
      ensures Halfway(items[..], offsets[..], sizes[..], was, k + 1, delta)
    {
      delta := delta0;
      offsets[k] := offsets[k] + delta;
      var item := items[k];
      ghost var now := Widen(was, k);
      assert item == now[k] == was[k];
      forall i | 0 <= i <= k ensures Start(Widen(was, k + 1), i) == Start(now, i) {
        StartSame(Widen(was, k + 1), now, i);
      }
      if Short(item) {
        assert ItemOk(item, |was|);
        var dofs := offsets[item.dest] - (offsets[k] + sizes[k]);
        assert dofs == SeenDistance(was, now, k);
        if !Int8(dofs) {
          items[k] := item.(near := true);
          var size := SizeOf(items[k]);
          delta := delta + size - sizes[k];
          sizes[k] := size;
        }
      }
      assert items[..] == Widen(was, k + 1);
    }

    /** Lengthens jumps until a pass does nothing. */
    method ResizeBranches()
      requires Valid()
      modifies items, offsets, sizes
      ensures Valid() && items[..] == Relaxed(old(items[..]))
    {
      var delta := 1;
      while delta != 0
        invariant Valid() && Relaxed(items[..]) == Relaxed(old(items[..]))
        invariant delta == 0 ==> Widen(items[..], items.Length) == items[..]
        decreases if delta == 0 then 0 else 1, ShortCount(items[..])
      {
        ghost var was := items[..];
        delta := IncreaseBranches();
        GrowthSinceStart(was, |was|);
      }
    }

    /** The machine code, each jump as its opcode and the distance to its target. */
    method Assemble() returns (code: array<int>)
      requires Valid()
      ensures code[..] == Image(items[..], items.Length)
    {
      ghost var list := items[..];
      var last := items.Length - 1;
      code := new int[if last < 0 then 0 else offsets[last] + sizes[last]];
      var i := 0;
      while i < items.Length
        invariant 0 <= i <= items.Length && code.Length == Start(list, items.Length)
        invariant items[..] == list && Valid()
        invariant Start(list, i) <= code.Length && code[..Start(list, i)] == Image(list, i)
      {
        StartMonotone(list, i + 1, |list|);
        Place(code, i);
        i := i + 1;
      }
      assert code[..] == code[..Start(list, i)];
    }

    // Writes instruction i behind those before it.
    method Place(code: array<int>, i: nat)
      requires Valid() && i < items.Length && code != offsets && code != sizes
      requires Start(items[..], i + 1) <= code.Length && code[..Start(items[..], i)] == Image(items[..], i)
      modifies code
      ensures code[..Start(items[..], i + 1)] == Image(items[..], i + 1)
    {
      ghost var list := items[..];
      var item := items[i];
      assert ItemOk(list[i], |list|);
      ghost var start := Start(list, i);
      Generate(code, item, offsets[i], if item.Jump? then offsets[item.dest] else 0);
      assert code[start..start + SizeOf(item)] == ItemBytes(list, i);
      assert code[..start + SizeOf(item)] == code[..start] + code[start..start + SizeOf(item)];
    }
  }

  // The bytes of an instruction at an offset; dest is where its target starts.
  method Generate(code: array<int>, item: Item, offset: nat, dest: int)
    requires (item.Jump? && item.cc.Some? ==> 0 <= item.cc.value < 16) && offset + SizeOf(item) <= code.Length
    modifies code
    ensures code[..offset] == old(code[..offset])
    ensures code[offset..offset + SizeOf(item)] == ItemCode(item, offset, dest)
  {
    if item.Straight? {
      CopyBytes(code, offset, item.bytes);
      return;
    }
    var length := if item.cc.Some? && item.near then 2 else 1;
    var nbytes := if item.near then 4 else 1;
    InsertInt(code, offset, length, OpcodeInt(item));
    OpcodeBytes(item);
    assert code[..offset] == old(code[..offset]) && code[offset..offset + length] == Opcode(item);
    InsertInt(code, offset + length, nbytes, dest - (offset + length + nbytes));
    assert code[..offset] == code[..offset + length][..offset];
    assert code[offset..offset + length] == code[..offset + length][offset..];
    assert code[offset..offset + length + nbytes] == code[offset..offset + length] + code[offset + length..offset + length + nbytes];
  }

  // When a pass does nothing, every short jump fits.
  lemma NothingLengthened(items: seq<Item>)
    requires WellFormed(items) && Widen(items, |items|) == items
    ensures AllFit(items)
  {
    forall i | 0 <= i < |items| && Short(items[i]) ensures ItemOk(items[i], |items|) && Int8(Distance(items, i)) {
      WidenKeeps(items, i, |items|);
      WidenKeeps(items, i + 1, |items|);
      assert Widen(items, i) == items;
    }
  }

  /** In the relaxed list every remaining short jump fits in a signed byte; only short
      jumps have changed, into near jumps to the same instruction. */
  lemma {:induction false} RelaxedFits(items: seq<Item>)
    requires WellFormed(items)
    ensures AllFit(Relaxed(items)) && Lengthened(items, Relaxed(items))
    decreases ShortCount(items)
  {
    var now := Widen(items, |items|);
    GrowthSinceStart(items, |items|);
    WidenWellFormed(items, |items|);
    if now == items {
      NothingLengthened(items);
    } else {
      RelaxedFits(now);
    }
  }

  // ----- the least list -----

  // How much the first k instructions can still grow.
  function Growth(items: seq<Item>, k: nat): nat
    requires k <= |items|
  {
    if k == 0 then 0
    else Growth(items, k - 1) + if Short(items[k - 1]) then SizeOf(items[k - 1].(near := true)) - SizeOf(items[k - 1]) else 0
  }

  lemma {:induction false} GrowthBounds(a: seq<Item>, b: seq<Item>, k: nat)
    requires Lengthened(a, b) && k <= |a|
    ensures Start(a, k) <= Start(b, k) && Start(b, k) + Growth(b, k) == Start(a, k) + Growth(a, k)
  {
    if k > 0 { GrowthBounds(a, b, k - 1); }
  }

  lemma {:induction false} GrowthMonotone(items: seq<Item>, j: nat, k: nat)
    requires j <= k <= |items|
    ensures Growth(items, j) <= Growth(items, k)
  {
    if j < k { GrowthMonotone(items, j, k - 1); }
  }

  // Code between two places does not get shorter.
  lemma {:induction false} GapGrows(a: seq<Item>, b: seq<Item>, j: nat, k: nat)
    requires Lengthened(a, b) && j <= k <= |a|
    ensures Start(a, k) - Start(a, j) <= Start(b, k) - Start(b, j)
    decreases k - j
  {
    if j < k { GapGrows(a, b, j, k - 1); }
  }

  lemma LengthenedThen(a: seq<Item>, b: seq<Item>, c: seq<Item>)
    requires Lengthened(a, c) && Lengthened(a, b) && forall i :: 0 <= i < |a| && b[i] != a[i] ==> c[i] != a[i]
    ensures Lengthened(b, c)
  {
  }

  // A jump that fits in some lengthened list is not seen to be too long.
  lemma SeenFits(was: seq<Item>, now: seq<Item>, least: seq<Item>, k: nat)
    requires WellFormed(was) && Lengthened(was, now) && Lengthened(now, least) && AllFit(least)
    requires k < |was| && Short(now[k]) && Short(least[k]) && now[k].dest < |was| && Growth(was, |was|) <= 128
    ensures Int8(SeenDistance(was, now, k))
  {
    var dest := now[k].dest;
    assert least[k] == now[k] && Int8(Distance(least, k));
    if dest <= k {
      GapGrows(now, least, dest, k + 1);
      StartMonotone(now, dest, k + 1);
    } else {
      GapGrows(was, now, k + 1, dest);
      GapGrows(now, least, k + 1, dest);
      StartMonotone(was, k + 1, dest);
      GrowthBounds(was, now, k + 1);
      GrowthMonotone(was, k + 1, |was|);
    }
  }

  lemma {:induction false} WidenBelow(was: seq<Item>, least: seq<Item>, k: nat)
    requires WellFormed(was) && Lengthened(was, least) && AllFit(least) && k <= |was| && Growth(was, |was|) <= 128
    ensures Lengthened(Widen(was, k), least)
    decreases k
  {
    if k > 0 {
      WidenBelow(was, least, k - 1);
      var now := Widen(was, k - 1);
      assert ItemOk(was[k - 1], |was|) && now[k - 1] == was[k - 1];
      if Short(now[k - 1]) && Short(least[k - 1]) {
        SeenFits(was, now, least, k - 1);
      }
    }
  }

  /** When all short jumps together can grow by at most 128 bytes, the stale offsets do
      no harm: the result is pointwise the least list whose short jumps all fit. */
  lemma {:induction false} RelaxedIsLeast(items: seq<Item>, list: seq<Item>)
    requires WellFormed(items) && Growth(items, |items|) <= 128
    requires Lengthened(items, list) && AllFit(list)
    ensures Lengthened(Relaxed(items), list)
    decreases ShortCount(items)
  {
    var now := Widen(items, |items|);
    GrowthSinceStart(items, |items|);
    WidenWellFormed(items, |items|);
    WidenBelow(items, list, |items|);
    if now != items {
      GrowthBounds(items, now, |items|);
      RelaxedIsLeast(now, list);
    }
  }

  // ----- machine code -----

  // The opcode as the integer that is written byte by byte.
  function OpcodeInt(i: Item): int
    requires i.Jump?
  {
    if i.cc.None? then (if i.near then 0xe9 else 0xeb)
    else if i.near then 0x800f + 256 * i.cc.value
    else 0x70 + i.cc.value
  }

  lemma OpcodeBytes(i: Item)
    requires i.Jump? && (i.cc.Some? ==> 0 <= i.cc.value < 16)
    ensures Bytes(OpcodeInt(i), |Opcode(i)|) == Opcode(i)
  {
    var v := OpcodeInt(i);
    if i.cc.Some? && i.near {
      assert v == 256 * (0x80 + i.cc.value) + 0x0f;
      assert v / 256 == 0x80 + i.cc.value;
      assert Bytes(v / 256, 1) == [0x80 + i.cc.value] + Bytes(v / 256 / 256, 0);
    } else {
      assert Bytes(v, 1) == [v] + Bytes(v / 256, 0);
    }
  }

  // The low n bytes of v, least significant first.
  function Bytes(v: int, n: nat): (b: seq<int>)
    ensures |b| == n
    decreases n
  {
    if n == 0 then [] else [v % 256] + Bytes(v / 256, n - 1)
  }

  method InsertInt(code: array<int>, offset: nat, nbytes: nat, val: int)
    requires offset + nbytes <= code.Length
    modifies code
    ensures code[..offset] == old(code[..offset]) && code[offset..offset + nbytes] == Bytes(val, nbytes)
    ensures code[offset + nbytes..] == old(code[offset + nbytes..])
  {
    var offset', n, v := offset, nbytes, val;
    ghost var was := code[..];
    while n > 0
      invariant 0 <= n <= nbytes && offset' == offset + nbytes - n
      invariant code[..offset'] + Bytes(v, n) == was[..offset] + Bytes(val, nbytes)
      invariant code[offset'..] == was[offset'..]
    {
      ghost var before := code[..offset'];
      code[offset'] := v % 256;
      assert code[..offset' + 1] == before + [v % 256];
      assert before + Bytes(v, n) == before + [v % 256] + Bytes(v / 256, n - 1);
      offset', v, n := offset' + 1, v / 256, n - 1;
      assert code[offset'..] == was[offset'..];
    }
    assert code[..offset'] == was[..offset] + Bytes(val, nbytes);
    assert code[..offset] == code[..offset'][..offset];
    assert code[offset..offset'] == code[..offset'][offset..];
  }

  method CopyBytes(code: array<int>, offset: nat, bytes: seq<int>)
    requires offset + |bytes| <= code.Length
    modifies code
    ensures code[..offset] == old(code[..offset]) && code[offset..offset + |bytes|] == bytes
  {
    var i := 0;
    while i < |bytes|
      invariant 0 <= i <= |bytes|
      invariant code[..offset] == old(code[..offset]) && code[offset..offset + i] == bytes[..i]
    {
      code[offset + i] := bytes[i];
      assert code[offset..offset + i + 1] == code[offset..offset + i] + [bytes[i]];
      i := i + 1;
    }
  }

  function ItemCode(item: Item, at: int, dest: int): (b: seq<int>)
    ensures |b| == SizeOf(item)
  {
    if item.Straight? then item.bytes
    else Opcode(item) + Bytes(dest - (at + SizeOf(item)), if item.near then 4 else 1)
  }

  // The bytes of instruction k.
  function ItemBytes(items: seq<Item>, k: nat): (b: seq<int>)
    requires k < |items| && WellFormed(items)
    ensures |b| == SizeOf(items[k])
  {
    assert ItemOk(items[k], |items|);
    ItemCode(items[k], Start(items, k), if items[k].Jump? then Start(items, items[k].dest) else 0)
  }

  // The code of the first k instructions.
  function Image(items: seq<Item>, k: nat): (b: seq<int>)
    requires k <= |items| && WellFormed(items)
    ensures |b| == Start(items, k)
  {
    if k == 0 then [] else Image(items, k - 1) + ItemBytes(items, k - 1)
  }

  lemma {:induction false} StartMonotone(items: seq<Item>, j: nat, k: nat)
    requires j <= k <= |items|
    ensures Start(items, j) <= Start(items, k)
  {
    if j < k { StartMonotone(items, j, k - 1); }
  }

  lemma {:induction false} ImageAt(items: seq<Item>, j: nat, k: nat)
    requires j < k <= |items| && WellFormed(items)
    ensures Start(items, j) <= Start(items, j + 1) <= |Image(items, k)|
    ensures Image(items, k)[Start(items, j)..Start(items, j + 1)] == ItemBytes(items, j)
  {
    var front, last := Image(items, k - 1), ItemBytes(items, k - 1);
    assert Image(items, k) == front + last;
    if j < k - 1 {
      ImageAt(items, j, k - 1);
      SliceFront(front, last, Start(items, j), Start(items, j + 1));
    } else {
      SliceBack(front, last);
    }
  }

  lemma SliceFront(a: seq<int>, b: seq<int>, i: nat, j: nat)
    requires i <= j <= |a|
    ensures (a + b)[i..j] == a[i..j]
  {
  }

  lemma SliceBack(a: seq<int>, b: seq<int>)
    ensures (a + b)[|a|..|a| + |b|] == b
  {
  }

  function Unsigned(b: seq<int>): int {
    if b == [] then 0 else b[0] + 256 * Unsigned(b[1..])
  }

  function Sign(u: int, base: int): int {
    if 2 * u < base then u else u - base
  }

  // What a processor does at address at of the code: where a jump there goes.
  function JumpAt(code: seq<int>, at: nat): Option<(Option<int>, int)>
    requires at < |code|
  {
    var op := code[at];
    if op == 0xeb && at + 2 <= |code| then Some((None, at + 2 + Sign(Unsigned(code[at + 1..at + 2]), 0x100)))
    else if 0x70 <= op < 0x80 && at + 2 <= |code| then
      Some((Option<int>.Some(op - 0x70), at + 2 + Sign(Unsigned(code[at + 1..at + 2]), 0x100)))
    else if op == 0xe9 && at + 5 <= |code| then Some((None, at + 5 + Sign(Unsigned(code[at + 1..at + 5]), 0x1_0000_0000)))
    else if op == 0x0f && at + 6 <= |code| && 0x80 <= code[at + 1] < 0x90 then
      Some((Option<int>.Some(code[at + 1] - 0x80), at + 6 + Sign(Unsigned(code[at + 2..at + 6]), 0x1_0000_0000)))
    else None
  }

  function Base(n: nat): (b: int)
    ensures b > 0
  {
    if n == 0 then 1 else 256 * Base(n - 1)
  }

  lemma {:induction false} UnsignedBytes(v: int, n: nat)
    ensures Unsigned(Bytes(v, n)) == v % Base(n)
    decreases n
  {
    if n == 0 {
    } else {
      UnsignedBytes(v / 256, n - 1);
      var b, w := Base(n - 1), v / 256;
      assert Bytes(v, n)[1..] == Bytes(w, n - 1);
      var q, r := w / b, w % b;
      assert w == q * b + r;
      assert v == q * (256 * b) + (256 * r + v % 256) by {
        assert q * (256 * b) == 256 * (q * b);
      }
      DivModOf(v, 256 * b, q, 256 * r + v % 256);
    }
  }

  lemma SignedBytes(v: int, n: nat)
    requires (n == 1 && Int8(v)) || (n == 4 && Int32(v))
    ensures Sign(Unsigned(Bytes(v, n)), if n == 1 then 0x100 else 0x1_0000_0000) == v
  {
    UnsignedBytes(v, n);
    Bases();
    var base := Base(n);
    DivModOf(v, base, if v < 0 then -1 else 0, if v < 0 then v + base else v);
  }

  lemma Bases()
    ensures Base(1) == 0x100 && Base(4) == 0x1_0000_0000
  {
    assert Base(1) == 256 * Base(0);
    assert Base(2) == 256 * Base(1);
    assert Base(3) == 256 * Base(2);
    assert Base(4) == 256 * Base(3);
  }

  /** In assembled code whose short jumps fit in a signed byte and whose near jumps
      fit in 32 bits, the processor jumps from every jump to the start of its target. */
  lemma JumpsReach(items: seq<Item>, k: nat)
    requires WellFormed(items) && k < |items| && items[k].Jump?
    requires if items[k].near then Int32(Distance(items, k)) else Int8(Distance(items, k))
    ensures Start(items, k) < |Image(items, |items|)|
    ensures JumpAt(Image(items, |items|), Start(items, k)) == Some((items[k].cc, Start(items, items[k].dest)))
  {
    ImageAt(items, k, |items|);
    assert ItemOk(items[k], |items|);
    Decodes(Image(items, |items|), Start(items, k), items[k], Start(items, items[k].dest));
  }

  /** From source to bytes: every jump of the relaxed code goes to the target it names. */
  lemma RelaxedJumpsReach(items: seq<Item>, k: nat)
    requires WellFormed(items) && k < |items| && items[k].Jump?
    requires var list := Relaxed(items); list[k].near ==> Int32(Distance(list, k))
    ensures var list := Relaxed(items);
            && Start(list, k) < |Image(list, |list|)|
            && JumpAt(Image(list, |list|), Start(list, k)) == Some((items[k].cc, Start(list, items[k].dest)))
  {
    RelaxedFits(items);
    JumpsReach(Relaxed(items), k);
  }

  // The bytes of one jump.
  lemma Decodes(code: seq<int>, at: nat, item: Item, dest: int)
    requires item.Jump? && (item.cc.Some? ==> 0 <= item.cc.value < 16) && at + SizeOf(item) <= |code|
    requires code[at..at + SizeOf(item)] == ItemCode(item, at, dest)
    requires if item.near then Int32(dest - (at + SizeOf(item))) else Int8(dest - (at + SizeOf(item)))
    ensures JumpAt(code, at) == Some((item.cc, dest))
  {
    var v := dest - (at + SizeOf(item));
    var b := Bytes(v, if item.near then 4 else 1);
    SignedBytes(v, |b|);
    Fields(code, at, Opcode(item), b);
  }

  lemma Fields(code: seq<int>, at: nat, op: seq<int>, b: seq<int>)
    requires 1 <= |op| <= 2 && at + |op| + |b| <= |code| && code[at..at + |op| + |b|] == op + b
    ensures code[at] == op[0] && (|op| == 2 ==> code[at + 1] == op[1])
    ensures code[at + |op|..at + |op| + |b|] == b
  {
    var all := code[at..at + |op| + |b|];
    assert code[at] == all[0] && (|op| == 2 ==> code[at + 1] == all[1]);
    assert code[at + |op|..at + |op| + |b|] == all[|op|..];
  }

  // ----- stale offsets -----

  // n jumps over 300 bytes, then a jump to the next instruction.
  function ManyJumps(n: nat): seq<Item> {
    seq(n, i => Jump(None, n + 2, false)) + [Jump(None, n + 1, false), Straight(seq(300, i => 0x90)), Straight([0xc3])]
  }

  lemma {:induction false} ManyStarts(n: nat, k: nat)
    requires k <= n
    ensures Start(ManyJumps(n), k) == 2 * k
  {
    if k > 0 { ManyStarts(n, k - 1); }
  }

  lemma {:induction false} ManyWiden(n: nat, k: nat)
    requires k <= n <= 50
    ensures WellFormed(ManyJumps(n)) && Start(Widen(ManyJumps(n), k), k) == 5 * k
    ensures forall i :: 0 <= i < k ==> !Short(Widen(ManyJumps(n), k)[i])
  {
    var items := ManyJumps(n);
    if k > 0 {
      ManyWiden(n, k - 1);
      var now, next := Widen(items, k - 1), Widen(items, k);
      ManyStarts(n, n);
      assert Start(items, n + 1) == 2 * n + 2 && Start(items, n + 2) == 2 * n + 302;
      assert now[k - 1] == items[k - 1];
      assert Start(now, k) == 5 * (k - 1) + 2;
      StartSame(next, now, k - 1);
    }
  }

  // The first pass makes all n + 1 jumps near jumps, and they stay that.
  lemma ManyRelaxed(n: nat)
    requires n == 50
    ensures WellFormed(ManyJumps(n)) && Lengthened(ManyJumps(n), Relaxed(ManyJumps(n)))
    ensures forall i :: 0 <= i <= n ==> !Short(Relaxed(ManyJumps(n))[i])
  {
    hide Widen, Relaxed, Start;
    var items := ManyJumps(n);
    ManyWiden(n, n);
    LastWidens(n);
    RelaxedAfterPass(items, n);
  }

  lemma LastWidens(n: nat)
    requires n == 50 && WellFormed(ManyJumps(n))
    ensures !Short(Widen(ManyJumps(n), n + 1)[n])
  {
    var items := ManyJumps(n);
    ManyWiden(n, n);
    ManyStarts(n, n);
    assert Short(items[n]);
    LengthensExactly(items, n);
    hide Widen;
    assert Distance(items, n) == 0;
  }

  // Near jumps stay near.
  lemma RelaxedAfterPass(items: seq<Item>, k: nat)
    requires WellFormed(items) && k < |items|
    ensures Lengthened(items, Relaxed(items))
    ensures forall i :: 0 <= i <= k && !Short(Widen(items, k + 1)[i]) ==> !Short(Relaxed(items)[i])
    ensures forall i :: 0 <= i < k ==> Widen(items, k + 1)[i] == Widen(items, k)[i]
  {
    WidenKeeps(items, k + 1, |items|);
    WidenKeeps(items, k, k + 1);
    GrowthSinceStart(items, |items|);
    WidenWellFormed(items, |items|);
    var now := Widen(items, |items|);
    assert Relaxed(items) == if now == items then items else Relaxed(now);
  }

  lemma OnlyShort(list: seq<Item>, k: nat)
    requires WellFormed(list) && k < |list| && list[k].Jump? && list[k].dest == k + 1
    requires forall i :: 0 <= i < |list| && i != k ==> !Short(list[i])
    ensures AllFit(list)
  {
    assert ItemOk(list[k], |list|);
  }

  /** Without that bound it need not be: behind 50 jumps that grow in the first pass, a
      jump to the very next instruction stays a near jump, although a short one fits. */
  lemma StaleOffsetsLengthen()
    ensures var items := ManyJumps(50);
            && WellFormed(items) && Short(items[50]) && Lengthened(items, Relaxed(items))
            && !Short(Relaxed(items)[50]) && AllFit(Relaxed(items)[50 := items[50]])
  {
    hide Relaxed;
    ManyRelaxed(50);
    var items := ManyJumps(50);
    var list := Relaxed(items)[50 := items[50]];
    forall i | 0 <= i < |list| ensures ItemOk(list[i], |list|) {
      assert ItemOk(items[i], |items|);
    }
    OnlyShort(list, 50);
  }
}
