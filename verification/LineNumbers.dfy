/** Line number tables: the DWARF encoder and the two decoders of dwarf.c, with the
    LEB128 numbers of utils.c. Special opcodes follow section 6.2.5.1 of DWARF
    version 3, LEB128 its section 7.6. */
module LineNumbers {
  import opened Prelude

  // struct lni_state: both are 32-bit unsigned.
  datatype Entry = Entry(addr: int, line: int)

  const COPY := 1
  const ADVANCE_PC := 2
  const ADVANCE_LINE := 3
  const CONST_ADD_PC := 8
  const OPCODE_BASE := 5
  const LINE_BASE := -1
  const LINE_RANGE := 5

  const START := Entry(0, 1)

  function U32(x: int): int {
    x % 0x1_0000_0000
  }

  // An unsigned difference as a signed 32-bit number.
  function I32(x: int): (r: int)
    ensures -0x8000_0000 <= r < 0x8000_0000
  {
    var u := U32(x);
    if u < 0x8000_0000 then u else u - 0x1_0000_0000
  }

  predicate IsEntry(e: Entry) {
    0 <= e.addr < 0x1_0000_0000 && 0 <= e.line < 0x1_0000_0000
  }

  // ----- LEB128 -----

  function Uleb(u: nat): (b: seq<int>)
    ensures b != []
  {
    if u < 0x80 then [u] else [u % 0x80 + 0x80] + Uleb(u / 0x80)
  }

  function Sleb(i: int): (b: seq<int>)
    ensures b != []
    decreases if i < 0 then -i else i
  {
    if -0x40 <= i < 0x40 then [i % 0x80] else [i % 0x80 + 0x80] + Sleb(i / 0x80)
  }

  // The number at the start of b, and how many bytes it takes; none if it does not end.
  function ReadUleb(b: seq<int>): (r: Option<(int, nat)>)
    ensures r.Some? ==> 0 < r.value.1 <= |b|
  {
    if b == [] then None
    else if b[0] < 0x80 then Some((b[0], 1))
    else match ReadUleb(b[1..])
      case None => None
      case Some(r) => Some((b[0] - 0x80 + 0x80 * r.0, r.1 + 1))
  }

  function ReadSleb(b: seq<int>): (r: Option<(int, nat)>)
    ensures r.Some? ==> 0 < r.value.1 <= |b|
  {
    if b == [] then None
    else if b[0] < 0x80 then Some((if b[0] < 0x40 then b[0] else b[0] - 0x80, 1))
    else match ReadSleb(b[1..])
      case None => None
      case Some(r) => Some((b[0] - 0x80 + 0x80 * r.0, r.1 + 1))
  }

  lemma {:induction false} UlebReadsBack(u: nat, rest: seq<int>)
    ensures ReadUleb(Uleb(u) + rest) == Some((u, |Uleb(u)|))
    decreases u
  {
    if u >= 0x80 {
      UlebReadsBack(u / 0x80, rest);
      assert (Uleb(u) + rest)[1..] == Uleb(u / 0x80) + rest;
    }
  }

  lemma {:induction false} SlebReadsBack(i: int, rest: seq<int>)
    ensures ReadSleb(Sleb(i) + rest) == Some((i, |Sleb(i)|))
    decreases if i < 0 then -i else i
  {
    if !(-0x40 <= i < 0x40) {
      SlebReadsBack(i / 0x80, rest);
      assert (Sleb(i) + rest)[1..] == Sleb(i / 0x80) + rest;
    }
  }

  // The number without its k lowest groups of seven bits.
  function Shifted(i: int, k: nat): int
    decreases k
  {
    if k == 0 then i else Shifted(i / 128, k - 1)
  }

  /** As in section 7.6 of DWARF version 3: groups of seven bits, the lowest first, all bytes
      but the last with the eighth bit set, and no byte more than needed. */
  lemma {:induction false} UlebDigits(u: nat)
    ensures var b := Uleb(u);
            && (forall k :: 0 <= k < |b| ==> b[k] == Shifted(u, k) % 128 + if k < |b| - 1 then 128 else 0)
            && Shifted(u, |b|) == 0 && (|b| > 1 ==> Shifted(u, |b| - 1) != 0)
    decreases u
  {
    if u >= 128 {
      UlebDigits(u / 128);
      var b, rest := Uleb(u), Uleb(u / 128);
      forall k | 0 <= k < |b| ensures b[k] == Shifted(u, k) % 128 + if k < |b| - 1 then 128 else 0 {
        if k > 0 { assert b[k] == rest[k - 1]; }
      }
      assert |rest| == 1 ==> Shifted(u, 1) == u / 128;
    } else {
      assert Shifted(u, 1) == Shifted(u / 128, 0);
    }
  }

  // Signed numbers end when bit 6 of the last byte and all that follows are the sign.
  lemma {:induction false} SlebDigits(i: int)
    ensures var b := Sleb(i);
            && (forall k :: 0 <= k < |b| ==> b[k] == Shifted(i, k) % 128 + if k < |b| - 1 then 128 else 0)
            && Shifted(i, |b|) == (if i < 0 then -1 else 0) && (b[|b|-1] >= 64 <==> i < 0)
    decreases Abs(i)
  {
    if !(-64 <= i < 64) {
      SlebDigits(i / 128);
      var b, rest := Sleb(i), Sleb(i / 128);
      forall k | 0 <= k < |b| ensures b[k] == Shifted(i, k) % 128 + if k < |b| - 1 then 128 else 0 {
        if k > 0 { assert b[k] == rest[k - 1]; }
      }
    } else {
      assert Shifted(i, 1) == Shifted(i / 128, 0);
    }
  }

  /** sb_add_leb_u */
  method AddUleb(bytes: seq<int>, u: nat) returns (bytes': seq<int>)
    ensures bytes' == bytes + Uleb(u)
  {
    bytes' := bytes;
    var v := u;
    var more := true;
    while more
      invariant more ==> bytes' + Uleb(v) == bytes + Uleb(u)
      invariant !more ==> bytes' == bytes + Uleb(u)
      decreases v, more
    {
      var u8 := v % 0x80;
      ghost var was := bytes';
      ghost var w := v;
      v := v / 0x80;
      if v != 0 { u8 := u8 + 0x80; }
      bytes' := bytes' + [u8];
      more := v != 0;
      assert was + Uleb(w) == if more then bytes' + Uleb(v) else bytes';
    }
  }

  /** sb_add_leb_s */
  method AddSleb(bytes: seq<int>, i: int) returns (bytes': seq<int>)
    ensures bytes' == bytes + Sleb(i)
  {
    bytes' := bytes;
    var v := i;
    var done := false;
    while !done
      invariant !done ==> bytes' + Sleb(v) == bytes + Sleb(i)
      invariant done ==> bytes' == bytes + Sleb(i)
      decreases !done, if v < 0 then -v else v
    {
      var u8 := v % 0x80;
      ghost var was := bytes';
      ghost var w := v;
      v := v / 0x80;
      done := v == if u8 >= 0x40 then -1 else 0;
      if !done { u8 := u8 + 0x80; }
      bytes' := bytes' + [u8];
      assert done <==> -0x40 <= w < 0x40;
      assert was + Sleb(w) == if done then bytes' else bytes' + Sleb(v);
    }
  }

  // The digits read so far, r, and scale times what follows them.
  function Rescaled(o: Option<(int, nat)>, r: int, scale: int, k: nat): Option<(int, nat)> {
    if o.None? then None else Some((r + scale * o.value.0, k + o.value.1))
  }

  lemma RescaledDigit(o: Option<(int, nat)>, r: int, scale: int, k: nat, n: int)
    ensures Rescaled(if o.None? then None else Some((n - 0x80 + 0x80 * o.value.0, o.value.1 + 1)), r, scale, k)
            == Rescaled(o, r + scale * (n - 0x80), scale * 0x80, k + 1)
  {
    if o.Some? {
      var v := o.value.0;
      assert scale * (n - 0x80 + 0x80 * v) == scale * (n - 0x80) + scale * (0x80 * v);
      assert scale * (0x80 * v) == scale * 0x80 * v;
    }
  }

  /** read_leb_u: the number and how many bytes it takes, unless the bytes end first. */
  method ReadLebU(b: seq<int>) returns (o: Option<(int, nat)>)
    ensures o == ReadUleb(b)
  {
    var r, scale, k := 0, 1, 0;
    assert b[0..] == b;
    while k < |b|
      invariant 0 <= k <= |b| && ReadUleb(b) == Rescaled(ReadUleb(b[k..]), r, scale, k)
    {
      var n := b[k];
      assert b[k..][1..] == b[k + 1..];
      if n < 0x80 { return Some((r + scale * n, k + 1)); }
      RescaledDigit(ReadUleb(b[k + 1..]), r, scale, k, n);
      r, scale, k := r + scale * (n - 0x80), scale * 0x80, k + 1;
    }
    o := None;
  }

  /** read_leb_s: the last byte's second highest bit is the sign. */
  method ReadLebS(b: seq<int>) returns (o: Option<(int, nat)>)
    ensures o == ReadSleb(b)
  {
    var r, scale, k := 0, 1, 0;
    assert b[0..] == b;
    while k < |b|
      invariant 0 <= k <= |b| && ReadSleb(b) == Rescaled(ReadSleb(b[k..]), r, scale, k)
    {
      var n := b[k];
      assert b[k..][1..] == b[k + 1..];
      if n < 0x80 {
        assert scale * (n - 0x80) == scale * n - scale * 0x80;
        return Some((if n < 0x40 then r + scale * n else r + scale * n - scale * 0x80, k + 1));
      }
      RescaledDigit(ReadSleb(b[k + 1..]), r, scale, k, n);
      r, scale, k := r + scale * (n - 0x80), scale * 0x80, k + 1;
    }
    o := None;
  }

  // ----- the encoder -----

  // A special opcode as computed in 32 bits.
  function Opcode(dline: int, daddr: int): int {
    U32(dline - LINE_BASE + LINE_RANGE * daddr + OPCODE_BASE)
  }

  predicate LineFits(dline: int) {
    LINE_BASE <= dline < LINE_BASE + LINE_RANGE
  }

  // Opcode 8 is not used.
  predicate IsSpecial(dline: int, daddr: int) {
    LineFits(dline) && Opcode(dline, daddr) <= 255 && Opcode(dline, daddr) != CONST_ADD_PC
  }

  function Abs(x: int): nat {
    if x < 0 then -x else x
  }

  // The bytes for one entry, given its distance from the one before.
  function StepBytes(dline: int, daddr: nat): (b: seq<int>)
    ensures b != []
    decreases Abs(dline) + daddr
  {
    if dline == 0 && daddr == 0 then [COPY]
    else if IsSpecial(dline, daddr) then [Opcode(dline, daddr)]
    else if Abs(dline) > daddr then [ADVANCE_LINE] + Sleb(dline) + StepBytes(0, daddr)
    else [ADVANCE_PC] + Uleb(daddr) + StepBytes(dline, 0)
  }

  ghost predicate Table(entries: seq<Entry>, from: Entry) {
    && IsEntry(from)
    && (forall i :: 0 <= i < |entries| ==> IsEntry(entries[i]))
    && (forall i :: 0 <= i < |entries| ==> Before(entries, from, i).addr <= entries[i].addr)
  }

  function Before(entries: seq<Entry>, from: Entry, i: nat): Entry
    requires i <= |entries|
  {
    if i == 0 then from else entries[i - 1]
  }

  function DeltaLine(from: Entry, to: Entry): int {
    I32(to.line - from.line)
  }

  // The bytes for entries that follow from.
  function Bytes(entries: seq<Entry>, from: Entry): seq<int>
    requires Table(entries, from)
  {
    if entries == [] then []
    else
      TableRest(entries, from);
      StepBytes(DeltaLine(from, entries[0]), entries[0].addr - from.addr) + Bytes(entries[1..], entries[0])
  }

  lemma TableRest(entries: seq<Entry>, from: Entry)
    requires entries != [] && Table(entries, from)
    ensures from.addr <= entries[0].addr && IsEntry(entries[0]) && Table(entries[1..], entries[0])
  {
    assert Before(entries, from, 0).addr <= entries[0].addr;
    var rest := entries[1..];
    forall i | 0 <= i < |rest| ensures Before(rest, entries[0], i).addr <= rest[i].addr {
      assert Before(entries, from, i + 1).addr <= entries[i + 1].addr;
    }
  }

  /** dwarf_line_number_info, for entries by non-decreasing address. */
  method Encode(entries: seq<Entry>) returns (bytes: seq<int>)
    requires Table(entries, START)
    ensures bytes == Bytes(entries, START)
  {
    bytes := [];
    var cur, k := START, 0;
    assert entries[0..] == entries;
    while k < |entries|
      invariant 0 <= k <= |entries| && Table(entries[k..], cur)
      invariant bytes + Bytes(entries[k..], cur) == Bytes(entries, START)
    {
      var e := entries[k];
      BytesFront(bytes, entries[k..], cur);
      assert entries[k..][0] == e && entries[k..][1..] == entries[k + 1..];
      bytes := EncodeEntry(bytes, I32(e.line - cur.line), e.addr - cur.addr);
      cur, k := e, k + 1;
    }
  }

  lemma BytesFront(bytes: seq<int>, entries: seq<Entry>, from: Entry)
    requires entries != [] && Table(entries, from)
    ensures from.addr <= entries[0].addr && Table(entries[1..], entries[0])
    ensures bytes + Bytes(entries, from)
            == bytes + StepBytes(DeltaLine(from, entries[0]), entries[0].addr - from.addr) + Bytes(entries[1..], entries[0])
  {
    TableRest(entries, from);
  }

  // One entry: special opcode, copy, or an advance first.
  method EncodeEntry(bytes: seq<int>, dline0: int, daddr0: nat) returns (bytes': seq<int>)
    ensures bytes' == bytes + StepBytes(dline0, daddr0)
  {
    bytes' := bytes;
    var dline, daddr := dline0, daddr0;
    var again := true;
    while again
      invariant daddr >= 0
      invariant again ==> bytes' + StepBytes(dline, daddr) == bytes + StepBytes(dline0, daddr0)
      invariant !again ==> bytes' == bytes + StepBytes(dline0, daddr0)
      decreases again, Abs(dline) + daddr
    {
      if dline == 0 && daddr == 0 {
        bytes' := bytes' + [COPY];
        again := false;
      } else if LineFits(dline) && Opcode(dline, daddr) <= 255 && Opcode(dline, daddr) != CONST_ADD_PC {
        bytes' := bytes' + [Opcode(dline, daddr)];
        again := false;
      } else if Abs(dline) > daddr {
        ghost var was := bytes';
        bytes' := AddSleb(bytes' + [ADVANCE_LINE], dline);
        assert was + StepBytes(dline, daddr) == bytes' + StepBytes(0, daddr);
        dline := 0;
      } else {
        ghost var was := bytes';
        bytes' := AddUleb(bytes' + [ADVANCE_PC], daddr);
        assert was + StepBytes(dline, daddr) == bytes' + StepBytes(dline, 0);
        daddr := 0;
      }
    }
  }

  // ----- the decoders -----

  // What a special opcode does.
  function Special(st: Entry, c: int): Entry
    requires c >= OPCODE_BASE
  {
    Entry(U32(st.addr + (c - OPCODE_BASE) / LINE_RANGE), U32(st.line + LINE_BASE + (c - OPCODE_BASE) % LINE_RANGE))
  }

  // One operation: the bytes it takes, the state after it, and whether that is an entry.
  datatype Op = Op(size: nat, st: Entry, emits: bool)

  function ReadOp(b: seq<int>, st: Entry): (r: Option<Op>)
    requires b != []
    ensures r.Some? ==> 0 < r.value.size <= |b|
  {
    var c := b[0];
    if c == ADVANCE_PC then
      match ReadUleb(b[1..])
      case None => None
      case Some(r) => Some(Op(1 + r.1, st.(addr := U32(st.addr + r.0)), false))
    else if c == ADVANCE_LINE then
      match ReadSleb(b[1..])
      case None => None
      case Some(r) => Some(Op(1 + r.1, st.(line := U32(st.line + r.0)), false))
    else if c == COPY then Some(Op(1, st, true))
    else if c < OPCODE_BASE then None
    else Some(Op(1, Special(st, c), true))
  }

  function Prepend(e: seq<Entry>, r: Option<seq<Entry>>): Option<seq<Entry>> {
    if r.None? then None else Some(e + r.value)
  }

  /** All entries of the bytes, from state st on; none for malformed bytes. */
  function Decoded(b: seq<int>, st: Entry): Option<seq<Entry>>
    decreases |b|
  {
    if b == [] then Some([])
    else match ReadOp(b, st)
      case None => None
      case Some(op) => Prepend(if op.emits then [op.st] else [], Decoded(b[op.size..], op.st))
  }

  /** for_line_number_info: collects the entries, or fails. */
  method LineNumberInfo(bytes: seq<int>) returns (r: Option<seq<Entry>>)
    ensures r == Decoded(bytes, START)
  {
    var entries: seq<Entry> := [];
    var st, pos := START, 0;
    assert bytes[0..] == bytes;
    PrependNone(Decoded(bytes, START));
    while pos != |bytes|
      invariant 0 <= pos <= |bytes|
      invariant Decoded(bytes, START) == Prepend(entries, Decoded(bytes[pos..], st))
      decreases |bytes| - pos
    {
      assert bytes[pos..] != [];
      var op := ReadOp(bytes[pos..], st);
      if op.None? { return None; }
      assert bytes[pos..][op.value.size..] == bytes[pos + op.value.size..];
      PrependTwice(entries, if op.value.emits then [op.value.st] else [], Decoded(bytes[pos + op.value.size..], op.value.st));
      ghost var was := entries;
      st, pos := op.value.st, pos + op.value.size;
      if op.value.emits { entries := entries + [st]; }
      assert entries == was + if op.value.emits then [st] else [];
    }
    assert bytes[pos..] == [] && entries + [] == entries;
    r := Some(entries);
  }

  // ----- the standard's numbers -----

  /** The bytes of a step, with the opcodes of section 6.2.5 of DWARF version 3 written out:
      copy is 1, an advance of the address 2, of the line 3. */
  lemma StandardBytes(dline: int, daddr: nat)
    ensures StepBytes(0, 0) == [1]
    ensures (dline != 0 || daddr != 0) && -1 <= dline <= 3 && 5 * daddr + dline + 6 <= 255 && 5 * daddr + dline + 6 != 8 ==>
              StepBytes(dline, daddr) == [5 * daddr + dline + 6]
    ensures daddr >= 50 && 5 * daddr + 6 < 0x1_0000_0000 ==> StepBytes(0, daddr) == [2] + Uleb(daddr) + [1]
    ensures !(-1 <= dline <= 3) ==> StepBytes(dline, 0) == [3] + Sleb(dline) + [1]
    ensures StepBytes(2, 0) == [3] + Sleb(2) + [1]
  {
    assert StepBytes(0, 0) == [1];
    if daddr >= 50 && 5 * daddr + 6 < 0x1_0000_0000 { FarAddress(daddr); }
    if !(-1 <= dline <= 3) { FarLine(dline); }
    FarLine(2);
    hide StepBytes;
    if -1 <= dline <= 3 && 5 * daddr + dline + 6 <= 255 && 5 * daddr + dline + 6 != 8 && (dline != 0 || daddr != 0) {
      NearStep(dline, daddr);
    }
  }

  lemma NearStep(dline: int, daddr: nat)
    requires -1 <= dline <= 3 && 5 * daddr + dline + 6 <= 255 && 5 * daddr + dline + 6 != 8 && (dline != 0 || daddr != 0)
    ensures StepBytes(dline, daddr) == [5 * daddr + dline + 6]
  {
    assert Opcode(dline, daddr) == 5 * daddr + dline + 6;
  }

  lemma FarAddress(daddr: nat)
    requires daddr >= 50 && 5 * daddr + 6 < 0x1_0000_0000
    ensures StepBytes(0, daddr) == [2] + Uleb(daddr) + [1]
  {
    assert Opcode(0, daddr) == 5 * daddr + 6;
    StepAdvances(0, daddr);
    assert StepBytes(0, 0) == [1];
  }

  lemma FarLine(dline: int)
    requires !(-1 <= dline <= 3) || dline == 2
    ensures StepBytes(dline, 0) == [3] + Sleb(dline) + [1]
  {
    if dline == 2 { assert Opcode(2, 0) == 8; }
    StepAdvances(dline, 0);
    assert StepBytes(0, 0) == [1];
  }

  /** And what a reader does with them, from the address and line it has come to. */
  lemma StandardOperations(b: seq<int>, st: Entry)
    requires b != []
    ensures b[0] == 1 ==> ReadOp(b, st) == Some(Op(1, st, true))
    ensures b[0] == 2 && ReadUleb(b[1..]).Some? ==>
              var (n, k) := ReadUleb(b[1..]).value; ReadOp(b, st) == Some(Op(1 + k, Entry((st.addr + n) % 0x1_0000_0000, st.line), false))
    ensures b[0] == 3 && ReadSleb(b[1..]).Some? ==>
              var (n, k) := ReadSleb(b[1..]).value; ReadOp(b, st) == Some(Op(1 + k, Entry(st.addr, (st.line + n) % 0x1_0000_0000), false))
    ensures b[0] >= 5 ==>
              ReadOp(b, st) == Some(Op(1, Entry((st.addr + (b[0] - 5) / 5) % 0x1_0000_0000, (st.line - 1 + (b[0] - 5) % 5) % 0x1_0000_0000), true))
    ensures b[0] < 1 || b[0] == 4 ==> ReadOp(b, st).None?
  {
  }

  // ----- round trip -----

  // The special opcode does not fit in 32 bits, but seems to after wrapping.
  predicate Wraps(dline: int, daddr: nat) {
    || (IsSpecial(dline, daddr) && dline - LINE_BASE + LINE_RANGE * daddr + OPCODE_BASE > 255)
    || (!IsSpecial(dline, daddr) && Abs(dline) > daddr && IsSpecial(0, daddr) && -LINE_BASE + LINE_RANGE * daddr + OPCODE_BASE > 255)
  }

  // What follows an advance does not wrap either.
  lemma NeverWrapsLater(dline: int, daddr: nat)
    requires !Wraps(dline, daddr) && !IsSpecial(dline, daddr)
    ensures if Abs(dline) > daddr then !Wraps(0, daddr) else !Wraps(dline, 0)
  {
  }

  // Addresses closer than a fifth of the address space never wrap.
  lemma CloseNeverWraps(dline: int, daddr: nat)
    requires LINE_RANGE * daddr + 9 < 0x1_0000_0000
    ensures !Wraps(dline, daddr)
  {
  }

  function Moved(st: Entry, dline: int, daddr: int): Entry {
    Entry(U32(st.addr + daddr), U32(st.line + dline))
  }

  lemma SpecialMoves(st: Entry, dline: int, daddr: nat)
    requires IsEntry(st) && IsSpecial(dline, daddr) && dline - LINE_BASE + LINE_RANGE * daddr + OPCODE_BASE <= 255
    ensures Opcode(dline, daddr) >= OPCODE_BASE && Special(st, Opcode(dline, daddr)) == Moved(st, dline, daddr)
  {
    var c := Opcode(dline, daddr) - OPCODE_BASE;
    assert c == dline + 1 + 5 * daddr;
    assert c / 5 == daddr && c % 5 == dline + 1;
  }

  lemma U32Twice(a: int, b: int)
    ensures U32(U32(a) + b) == U32(a + b)
  {
  }

  // One special opcode or copy at the front.
  lemma DecodesOne(c: int, rest: seq<int>, st: Entry)
    requires c == COPY || c >= OPCODE_BASE
    ensures var e := if c == COPY then st else Special(st, c);
            Decoded([c] + rest, st) == Prepend([e], Decoded(rest, e))
  {
    assert ([c] + rest)[1..] == rest;
  }

  // An operation that is no entry.
  lemma DecodesQuietly(b: seq<int>, st: Entry, op: Op)
    requires b != [] && ReadOp(b, st) == Some(op) && !op.emits
    ensures Decoded(b, st) == Decoded(b[op.size..], op.st)
  {
    PrependNone(Decoded(b[op.size..], op.st));
  }

  lemma DecodesAdvanceLine(dline: int, rest: seq<int>, st: Entry)
    ensures Decoded([ADVANCE_LINE] + (Sleb(dline) + rest), st) == Decoded(rest, st.(line := U32(st.line + dline)))
  {
    var b, n := [ADVANCE_LINE] + (Sleb(dline) + rest), |Sleb(dline)|;
    SlebReadsBack(dline, rest);
    assert b[1..] == Sleb(dline) + rest && b[1 + n..] == rest;
    DecodesQuietly(b, st, Op(1 + n, st.(line := U32(st.line + dline)), false));
  }

  lemma DecodesAdvancePc(daddr: nat, rest: seq<int>, st: Entry)
    ensures Decoded([ADVANCE_PC] + (Uleb(daddr) + rest), st) == Decoded(rest, st.(addr := U32(st.addr + daddr)))
  {
    var b, n := [ADVANCE_PC] + (Uleb(daddr) + rest), |Uleb(daddr)|;
    UlebReadsBack(daddr, rest);
    assert b[1..] == Uleb(daddr) + rest && b[1 + n..] == rest;
    DecodesQuietly(b, st, Op(1 + n, st.(addr := U32(st.addr + daddr)), false));
  }

  lemma PrependNone(r: Option<seq<Entry>>)
    ensures Prepend([], r) == r
  {
    if r.Some? { assert [] + r.value == r.value; }
  }

  lemma PrependTwice(a: seq<Entry>, b: seq<Entry>, r: Option<seq<Entry>>)
    ensures Prepend(a, Prepend(b, r)) == Prepend(a + b, r)
  {
    if r.Some? { assert a + (b + r.value) == a + b + r.value; }
  }

  lemma Regroup(a: seq<int>, b: seq<int>, c: seq<int>, d: seq<int>)
    ensures a + b + c + d == a + (b + (c + d))
  {
  }

  lemma MovedTwice(st: Entry, dline: int, daddr: int)
    ensures Moved(st.(line := U32(st.line + dline)), 0, daddr) == Moved(st, dline, daddr)
    ensures Moved(st.(addr := U32(st.addr + daddr)), dline, 0) == Moved(st, dline, daddr)
  {
    U32Twice(st.line + dline, 0);
    U32Twice(st.addr + daddr, 0);
  }

  // The bytes b in front of others are one entry.
  ghost predicate YieldsOne(b: seq<int>, rest: seq<int>, st: Entry, e: Entry) {
    Decoded(b + rest, st) == Prepend([e], Decoded(rest, e))
  }

  // An advance in front of the remaining bytes of a step.
  lemma LineFirst(dline: int, tail: seq<int>, rest: seq<int>, st: Entry, e: Entry)
    requires YieldsOne(tail, rest, st.(line := U32(st.line + dline)), e)
    ensures YieldsOne([ADVANCE_LINE] + Sleb(dline) + tail, rest, st, e)
  {
    Regroup([ADVANCE_LINE], Sleb(dline), tail, rest);
    DecodesAdvanceLine(dline, tail + rest, st);
  }

  lemma AddressFirst(daddr: nat, tail: seq<int>, rest: seq<int>, st: Entry, e: Entry)
    requires YieldsOne(tail, rest, st.(addr := U32(st.addr + daddr)), e)
    ensures YieldsOne([ADVANCE_PC] + Uleb(daddr) + tail, rest, st, e)
  {
    Regroup([ADVANCE_PC], Uleb(daddr), tail, rest);
    DecodesAdvancePc(daddr, tail + rest, st);
  }

  // The bytes of one step decode to the entry it leads to.
  lemma {:induction false} StepDecodes(dline: int, daddr: nat, rest: seq<int>, st: Entry)
    requires IsEntry(st) && !Wraps(dline, daddr)
    ensures YieldsOne(StepBytes(dline, daddr), rest, st, Moved(st, dline, daddr))
    decreases Abs(dline) + daddr
  {
    if (dline == 0 && daddr == 0) || IsSpecial(dline, daddr) {
      OneOpcodeDecodes(dline, daddr, rest, st);
    } else {
      NeverWrapsLater(dline, daddr);
      StepAdvances(dline, daddr);
      MovedTwice(st, dline, daddr);
      if Abs(dline) > daddr {
        StepDecodes(0, daddr, rest, st.(line := U32(st.line + dline)));
        LineFirst(dline, StepBytes(0, daddr), rest, st, Moved(st, dline, daddr));
      } else {
        StepDecodes(dline, 0, rest, st.(addr := U32(st.addr + daddr)));
        AddressFirst(daddr, StepBytes(dline, 0), rest, st, Moved(st, dline, daddr));
      }
    }
  }

  // Copy, or a special opcode that does not wrap.
  lemma OneOpcode(dline: int, daddr: nat, st: Entry) returns (c: int)
    requires IsEntry(st) && !Wraps(dline, daddr) && ((dline == 0 && daddr == 0) || IsSpecial(dline, daddr))
    ensures StepBytes(dline, daddr) == [c] && (c == COPY || (c >= OPCODE_BASE && c != CONST_ADD_PC))
    ensures Moved(st, dline, daddr) == if c == COPY then st else Special(st, c)
  {
    if dline == 0 && daddr == 0 {
      c := COPY;
    } else {
      c := Opcode(dline, daddr);
      SpecialMoves(st, dline, daddr);
    }
  }

  lemma OneOpcodeDecodes(dline: int, daddr: nat, rest: seq<int>, st: Entry)
    requires IsEntry(st) && !Wraps(dline, daddr) && ((dline == 0 && daddr == 0) || IsSpecial(dline, daddr))
    ensures YieldsOne(StepBytes(dline, daddr), rest, st, Moved(st, dline, daddr))
  {
    var c := OneOpcode(dline, daddr, st);
    DecodesOne(c, rest, st);
  }

  lemma StepAdvances(dline: int, daddr: nat)
    requires !(dline == 0 && daddr == 0) && !IsSpecial(dline, daddr)
    ensures StepBytes(dline, daddr) == if Abs(dline) > daddr then [ADVANCE_LINE] + Sleb(dline) + StepBytes(0, daddr)
                                       else [ADVANCE_PC] + Uleb(daddr) + StepBytes(dline, 0)
  {
  }

  lemma MovesThere(from: Entry, to: Entry)
    requires IsEntry(from) && IsEntry(to) && from.addr <= to.addr
    ensures Moved(from, DeltaLine(from, to), to.addr - from.addr) == to
  {
  }

  ghost predicate WrapsAt(entries: seq<Entry>, from: Entry, i: nat)
    requires Table(entries, from) && i < |entries|
  {
    var prev := Before(entries, from, i);
    Wraps(DeltaLine(prev, entries[i]), entries[i].addr - prev.addr)
  }

  lemma WrapsShift(entries: seq<Entry>, from: Entry, i: nat)
    requires Table(entries, from) && 0 < i < |entries| && Table(entries[1..], entries[0])
    ensures WrapsAt(entries[1..], entries[0], i - 1) == WrapsAt(entries, from, i)
    ensures TakesNumberAt(entries[1..], entries[0], i - 1) == TakesNumberAt(entries, from, i)
  {
  }

  /** Decoding the encoded table gives the table, when no address difference is so
      large that an opcode wraps. */
  lemma {:induction false} RoundTrip(entries: seq<Entry>, from: Entry)
    requires Table(entries, from)
    requires forall i :: 0 <= i < |entries| ==> !WrapsAt(entries, from, i)
    ensures Decoded(Bytes(entries, from), from) == Some(entries)
    decreases |entries|
  {
    if entries != [] {
      FrontDecodes(entries, from);
      forall i | 0 <= i < |entries[1..]| ensures !WrapsAt(entries[1..], entries[0], i) {
        WrapsShift(entries, from, i + 1);
      }
      RoundTrip(entries[1..], entries[0]);
      assert entries == [entries[0]] + entries[1..];
    }
  }

  lemma FrontDecodes(entries: seq<Entry>, from: Entry)
    requires Table(entries, from) && entries != [] && !WrapsAt(entries, from, 0)
    ensures Table(entries[1..], entries[0])
    ensures Decoded(Bytes(entries, from), from) == Prepend([entries[0]], Decoded(Bytes(entries[1..], entries[0]), entries[0]))
  {
    hide Decoded, StepBytes, Wraps, Prepend, DeltaLine, Moved;
    TableRest(entries, from);
    MovesThere(from, entries[0]);
    var dline, daddr, rest := DeltaLine(from, entries[0]), entries[0].addr - from.addr, Bytes(entries[1..], entries[0]);
    StepDecodes(dline, daddr, rest, from);
    assert Bytes(entries, from) == StepBytes(dline, daddr) + rest;
    assert YieldsOne(StepBytes(dline, daddr), rest, from, entries[0]);
  }

  // A wrapped special opcode that the decoder takes for an advance, with what follows as its number.
  predicate TakesNumber(dline: int, daddr: nat) {
    var c := if IsSpecial(dline, daddr) then Opcode(dline, daddr) else Opcode(0, daddr);
    Wraps(dline, daddr) && (c == ADVANCE_PC || c == ADVANCE_LINE)
  }

  ghost predicate TakesNumberAt(entries: seq<Entry>, from: Entry, i: nat)
    requires Table(entries, from) && i < |entries|
  {
    var prev := Before(entries, from, i);
    TakesNumber(DeltaLine(prev, entries[i]), entries[i].addr - prev.addr)
  }

  // Decoding fails, or finds a first entry at another address.
  ghost predicate Misses(b: seq<int>, st: Entry, addr: int) {
    var r := Decoded(b, st);
    r.None? || (r.value != [] && r.value[0].addr != addr)
  }

  // A wrapped opcode leads to another address, or nowhere; what follows matters only to an advance.
  lemma WrappedOpcode(dline: int, daddr: nat, rest: seq<int>, st: Entry)
    requires IsEntry(st) && st.addr + daddr < 0x1_0000_0000
    requires IsSpecial(dline, daddr) && dline - LINE_BASE + LINE_RANGE * daddr + OPCODE_BASE > 255
    requires rest == [] || (Opcode(dline, daddr) != ADVANCE_PC && Opcode(dline, daddr) != ADVANCE_LINE)
    ensures Misses([Opcode(dline, daddr)] + rest, st, st.addr + daddr)
  {
    var c := Opcode(dline, daddr);
    assert daddr > 255;
    if c == COPY || c >= OPCODE_BASE {
      DecodesOne(c, rest, st);
    } else {
      assert ([c] + rest)[1..] == rest;
      assert ReadOp([c] + rest, st).None?;
    }
  }

  lemma WrappedStep(dline: int, daddr: nat, rest: seq<int>, st: Entry)
    requires IsEntry(st) && st.addr + daddr < 0x1_0000_0000 && Wraps(dline, daddr) && (rest == [] || !TakesNumber(dline, daddr))
    ensures Misses(StepBytes(dline, daddr) + rest, st, st.addr + daddr)
  {
    if IsSpecial(dline, daddr) {
      assert StepBytes(dline, daddr) == [Opcode(dline, daddr)];
      WrappedOpcode(dline, daddr, rest, st);
    } else {
      StepAdvances(dline, daddr);
      var tail := [Opcode(0, daddr)];
      assert StepBytes(0, daddr) == tail;
      Regroup([ADVANCE_LINE], Sleb(dline), tail, rest);
      DecodesAdvanceLine(dline, tail + rest, st);
      WrappedOpcode(0, daddr, rest, st.(line := U32(st.line + dline)));
    }
  }

  lemma WrappedFront(entries: seq<Entry>, from: Entry)
    requires Table(entries, from) && entries != [] && WrapsAt(entries, from, 0)
    requires |entries| == 1 || !TakesNumberAt(entries, from, 0)
    ensures Decoded(Bytes(entries, from), from) != Some(entries)
  {
    TableRest(entries, from);
    WrappedStep(DeltaLine(from, entries[0]), entries[0].addr - from.addr, Bytes(entries[1..], entries[0]), from);
  }

  /** Unless a wrapped opcode before the last entry is taken for an advance, a table is
      decoded correctly if and only if no step wraps. */
  lemma {:induction false} RoundTripExactly(entries: seq<Entry>, from: Entry)
    requires Table(entries, from)
    requires forall i :: 0 <= i < |entries| - 1 ==> !TakesNumberAt(entries, from, i)
    ensures Decoded(Bytes(entries, from), from) == Some(entries) <==> forall i :: 0 <= i < |entries| ==> !WrapsAt(entries, from, i)
    decreases |entries|
  {
    if entries == [] {
    } else if WrapsAt(entries, from, 0) {
      WrappedFront(entries, from);
    } else {
      FrontDecodes(entries, from);
      RestShifts(entries, from);
      RoundTripExactly(entries[1..], entries[0]);
      var r := Decoded(Bytes(entries[1..], entries[0]), entries[0]);
      if r == Some(entries[1..]) {
        assert entries == [entries[0]] + entries[1..];
      } else {
        NotTheTable(entries, r);
      }
    }
  }

  // The steps of the rest are the later steps.
  lemma RestShifts(entries: seq<Entry>, from: Entry)
    requires Table(entries, from) && entries != [] && Table(entries[1..], entries[0])
    requires forall i :: 0 <= i < |entries| - 1 ==> !TakesNumberAt(entries, from, i)
    ensures forall i :: 0 <= i < |entries[1..]| - 1 ==> !TakesNumberAt(entries[1..], entries[0], i)
    ensures (forall i :: 0 <= i < |entries| ==> !WrapsAt(entries, from, i))
            <==> !WrapsAt(entries, from, 0) && forall i :: 0 <= i < |entries[1..]| ==> !WrapsAt(entries[1..], entries[0], i)
  {
    forall i | 0 <= i < |entries[1..]|
      ensures WrapsAt(entries[1..], entries[0], i) == WrapsAt(entries, from, i + 1)
      ensures TakesNumberAt(entries[1..], entries[0], i) == TakesNumberAt(entries, from, i + 1)
    {
      WrapsShift(entries, from, i + 1);
    }
    if forall i :: 0 <= i < |entries[1..]| ==> !WrapsAt(entries[1..], entries[0], i) {
      forall i | 1 <= i < |entries| ensures !WrapsAt(entries, from, i) {
        assert !WrapsAt(entries[1..], entries[0], i - 1);
      }
    }
  }

  lemma NotTheTable(entries: seq<Entry>, r: Option<seq<Entry>>)
    requires entries != [] && r != Some(entries[1..])
    ensures Prepend([entries[0]], r) != Some(entries)
  {
    if r.Some? { assert ([entries[0]] + r.value)[1..] == r.value; }
  }

  /** A step of 858993460 bytes on one line does wrap. */
  lemma LargeStepWraps()
    ensures Wraps(0, 858993460)
    ensures Decoded(Bytes([Entry(858993460, 1)], START), START) != Some([Entry(858993460, 1)])
  {
    var entries := [Entry(858993460, 1)];
    assert Opcode(0, 858993460) == 10;
    assert Table(entries, START) && WrapsAt(entries, START, 0);
    WrappedFront(entries, START);
  }

  // What the encoder writes: an opcode with its number, if it has one.
  datatype Operation = Copy | AdvancePc(daddr: nat) | AdvanceLine(dline: int) | SpecialOp(opcode: int)

  function OperationBytes(op: Operation): (b: seq<int>)
    ensures b != []
  {
    match op
    case Copy => [COPY]
    case AdvancePc(u) => [ADVANCE_PC] + Uleb(u)
    case AdvanceLine(i) => [ADVANCE_LINE] + Sleb(i)
    case SpecialOp(c) => [c]
  }

  function AllBytes(ops: seq<Operation>): seq<int> {
    if ops == [] then [] else OperationBytes(ops[0]) + AllBytes(ops[1..])
  }

  lemma {:induction false} AllBytesConcat(a: seq<Operation>, b: seq<Operation>)
    ensures AllBytes(a + b) == AllBytes(a) + AllBytes(b)
  {
    if a == [] {
      assert a + b == b;
    } else {
      assert (a + b)[1..] == a[1..] + b;
      AllBytesConcat(a[1..], b);
    }
  }

  function StepOperations(dline: int, daddr: nat): (ops: seq<Operation>)
    decreases Abs(dline) + daddr
  {
    if dline == 0 && daddr == 0 then [Copy]
    else if IsSpecial(dline, daddr) then [SpecialOp(Opcode(dline, daddr))]
    else if Abs(dline) > daddr then [AdvanceLine(dline)] + StepOperations(0, daddr)
    else [AdvancePc(daddr)] + StepOperations(dline, 0)
  }

  function Operations(entries: seq<Entry>, from: Entry): seq<Operation>
    requires Table(entries, from)
  {
    if entries == [] then []
    else
      TableRest(entries, from);
      StepOperations(DeltaLine(from, entries[0]), entries[0].addr - from.addr) + Operations(entries[1..], entries[0])
  }

  ghost predicate AvoidsConstAddPc(ops: seq<Operation>) {
    forall op :: op in ops ==> OperationBytes(op)[0] != CONST_ADD_PC
  }

  lemma {:induction false} StepAvoidsConstAddPc(dline: int, daddr: nat)
    ensures AllBytes(StepOperations(dline, daddr)) == StepBytes(dline, daddr)
    ensures AvoidsConstAddPc(StepOperations(dline, daddr))
    decreases Abs(dline) + daddr
  {
    if !(dline == 0 && daddr == 0) && !IsSpecial(dline, daddr) {
      if Abs(dline) > daddr {
        StepAvoidsConstAddPc(0, daddr);
      } else {
        StepAvoidsConstAddPc(dline, 0);
      }
    }
  }

  /** Every encoded table, wrapping or not, is a sequence of operations none of which is
      the reserved opcode. */
  lemma {:induction false} TableAvoidsConstAddPc(entries: seq<Entry>, from: Entry)
    requires Table(entries, from)
    ensures AllBytes(Operations(entries, from)) == Bytes(entries, from)
    ensures AvoidsConstAddPc(Operations(entries, from))
    decreases |entries|
  {
    hide StepOperations, StepBytes, OperationBytes;
    if entries != [] {
      TableRest(entries, from);
      var dline, daddr := DeltaLine(from, entries[0]), entries[0].addr - from.addr;
      StepAvoidsConstAddPc(dline, daddr);
      TableAvoidsConstAddPc(entries[1..], entries[0]);
      AllBytesConcat(StepOperations(dline, daddr), Operations(entries[1..], entries[0]));
    }
  }

  // No operation a decoder finds in the bytes is the reserved opcode.
  ghost predicate NoConstAddPc(b: seq<int>, st: Entry)
    decreases |b|
  {
    b == [] || (b[0] != CONST_ADD_PC
                && (ReadOp(b, st).Some? ==> NoConstAddPc(b[ReadOp(b, st).value.size..], ReadOp(b, st).value.st)))
  }

  lemma AdvanceAvoidsConstAddPc(c: int, number: seq<int>, tail: seq<int>, rest: seq<int>, st: Entry, st': Entry)
    requires c == ADVANCE_LINE || c == ADVANCE_PC
    requires ReadOp([c] + (number + (tail + rest)), st) == Some(Op(1 + |number|, st', false))
    requires NoConstAddPc(tail + rest, st')
    ensures NoConstAddPc([c] + number + tail + rest, st)
  {
    Regroup([c], number, tail, rest);
    var b := [c] + (number + (tail + rest));
    assert b[1 + |number|..] == tail + rest;
  }

  lemma LineAvoids(dline: int, tail: seq<int>, rest: seq<int>, st: Entry)
    requires NoConstAddPc(tail + rest, st.(line := U32(st.line + dline)))
    ensures NoConstAddPc([ADVANCE_LINE] + Sleb(dline) + tail + rest, st)
  {
    SlebReadsBack(dline, tail + rest);
    assert ([ADVANCE_LINE] + (Sleb(dline) + (tail + rest)))[1..] == Sleb(dline) + (tail + rest);
    AdvanceAvoidsConstAddPc(ADVANCE_LINE, Sleb(dline), tail, rest, st, st.(line := U32(st.line + dline)));
  }

  lemma AddressAvoids(daddr: nat, tail: seq<int>, rest: seq<int>, st: Entry)
    requires NoConstAddPc(tail + rest, st.(addr := U32(st.addr + daddr)))
    ensures NoConstAddPc([ADVANCE_PC] + Uleb(daddr) + tail + rest, st)
  {
    UlebReadsBack(daddr, tail + rest);
    assert ([ADVANCE_PC] + (Uleb(daddr) + (tail + rest)))[1..] == Uleb(daddr) + (tail + rest);
    AdvanceAvoidsConstAddPc(ADVANCE_PC, Uleb(daddr), tail, rest, st, st.(addr := U32(st.addr + daddr)));
  }

  lemma OneOpcodeAvoids(dline: int, daddr: nat, rest: seq<int>, st: Entry)
    requires IsEntry(st) && !Wraps(dline, daddr) && ((dline == 0 && daddr == 0) || IsSpecial(dline, daddr))
    requires NoConstAddPc(rest, Moved(st, dline, daddr))
    ensures NoConstAddPc(StepBytes(dline, daddr) + rest, st)
  {
    var c := OneOpcode(dline, daddr, st);
    assert ([c] + rest)[1..] == rest;
  }

  lemma {:induction false} StepReadsNoConstAddPc(dline: int, daddr: nat, rest: seq<int>, st: Entry)
    requires IsEntry(st) && !Wraps(dline, daddr) && NoConstAddPc(rest, Moved(st, dline, daddr))
    ensures NoConstAddPc(StepBytes(dline, daddr) + rest, st)
    decreases Abs(dline) + daddr
  {
    if (dline == 0 && daddr == 0) || IsSpecial(dline, daddr) {
      OneOpcodeAvoids(dline, daddr, rest, st);
    } else {
      MovedTwice(st, dline, daddr);
      NeverWrapsLater(dline, daddr);
      StepAdvances(dline, daddr);
      if Abs(dline) > daddr {
        StepReadsNoConstAddPc(0, daddr, rest, st.(line := U32(st.line + dline)));
        LineAvoids(dline, StepBytes(0, daddr), rest, st);
      } else {
        StepReadsNoConstAddPc(dline, 0, rest, st.(addr := U32(st.addr + daddr)));
        AddressAvoids(daddr, StepBytes(dline, 0), rest, st);
      }
    }
  }

  /** So a decoder does not meet it in a table without a wrapping step. */
  lemma {:induction false} ReaderMeetsNoConstAddPc(entries: seq<Entry>, from: Entry)
    requires Table(entries, from)
    requires forall i :: 0 <= i < |entries| ==> !WrapsAt(entries, from, i)
    ensures NoConstAddPc(Bytes(entries, from), from)
    decreases |entries|
  {
    if entries != [] {
      TableRest(entries, from);
      MovesThere(from, entries[0]);
      forall i | 0 <= i < |entries| - 1 ensures !WrapsAt(entries[1..], entries[0], i) {
        WrapsShift(entries, from, i + 1);
      }
      ReaderMeetsNoConstAddPc(entries[1..], entries[0]);
      assert !WrapsAt(entries, from, 0);
      StepReadsNoConstAddPc(DeltaLine(from, entries[0]), entries[0].addr - from.addr, Bytes(entries[1..], entries[0]), from);
    }
  }

  // ----- lookup -----

  /** dwarf_lookup_line_number; fails where the C code aborts. */
  method LookupLineNumber(bytes: seq<int>, addr: int) returns (r: Option<int>)
    ensures r == Lookup(bytes, START, 1, addr)
  {
    var st, last, pos := START, 1, 0;
    assert bytes[0..] == bytes;
    while pos < |bytes|
      invariant 0 <= pos <= |bytes|
      invariant Lookup(bytes, START, 1, addr) == Lookup(bytes[pos..], st, last, addr)
      decreases |bytes| - pos
    {
      var c := bytes[pos];
      var op := ReadOp(bytes[pos..], st);
      if op.None? {
        if c == ADVANCE_PC || c == ADVANCE_LINE { return Some(last); }
        return None;
      }
      assert bytes[pos..][op.value.size..] == bytes[pos + op.value.size..];
      st, pos := op.value.st, pos + op.value.size;
      if op.value.emits {
        if addr < st.addr { return Some(last); }
        if addr == st.addr { return Some(st.line); }
        last := st.line;
      }
    }
    r := Some(last);
  }

  function Lookup(b: seq<int>, st: Entry, last: int, addr: int): Option<int>
    decreases |b|
  {
    if b == [] then Some(last)
    else match ReadOp(b, st)
      case None => if b[0] == ADVANCE_PC || b[0] == ADVANCE_LINE then Some(last) else None
      case Some(op) =>
        if !op.emits then Lookup(b[op.size..], op.st, last, addr)
        else if addr < op.st.addr then Some(last)
        else if addr == op.st.addr then Some(op.st.line)
        else Lookup(b[op.size..], op.st, op.st.line, addr)
  }

  // The same search in a table.
  function Search(entries: seq<Entry>, last: int, addr: int): int {
    if entries == [] || addr < entries[0].addr then last
    else if addr == entries[0].addr then entries[0].line
    else Search(entries[1..], entries[0].line, addr)
  }

  /** Looking up an address in bytes is searching the table they stand for. */
  lemma {:induction false} LookupSearches(b: seq<int>, st: Entry, last: int, addr: int)
    requires Decoded(b, st).Some?
    ensures Lookup(b, st, last, addr) == Some(Search(Decoded(b, st).value, last, addr))
    decreases |b|
  {
    if b != [] {
      var op := ReadOp(b, st).value;
      var rest := Decoded(b[op.size..], op.st);
      if op.emits {
        assert ([op.st] + rest.value)[1..] == rest.value;
        if addr > op.st.addr { LookupSearches(b[op.size..], op.st, op.st.line, addr); }
      } else {
        PrependNone(rest);
        LookupSearches(b[op.size..], op.st, last, addr);
      }
    }
  }

  ghost predicate Sorted(entries: seq<Entry>) {
    forall i, j :: 0 <= i < j < |entries| ==> entries[i].addr <= entries[j].addr
  }

  // Entry i is the first with the address.
  ghost predicate FirstAt(entries: seq<Entry>, addr: int, i: nat) {
    i < |entries| && entries[i].addr == addr && forall j :: 0 <= j < i ==> entries[j].addr != addr
  }

  // Entry i is the last below the address, which has none itself.
  ghost predicate LastBelow(entries: seq<Entry>, addr: int, i: nat) {
    && i < |entries| && entries[i].addr < addr
    && (forall j :: i < j < |entries| ==> entries[j].addr > addr)
    && (forall j :: 0 <= j < |entries| ==> entries[j].addr != addr)
  }

  /** In a sorted table the search finds the first entry at the address, else the last
      one below it, else the line given. */
  lemma {:induction false} SearchFinds(entries: seq<Entry>, last: int, addr: int)
    requires Sorted(entries)
    ensures forall i: nat :: FirstAt(entries, addr, i) ==> Search(entries, last, addr) == entries[i].line
    ensures forall i: nat :: LastBelow(entries, addr, i) ==> Search(entries, last, addr) == entries[i].line
    ensures (forall i :: 0 <= i < |entries| ==> entries[i].addr > addr) ==> Search(entries, last, addr) == last
  {
    if entries != [] && addr > entries[0].addr {
      var rest := entries[1..];
      SearchFinds(rest, entries[0].line, addr);
      forall i: nat | FirstAt(entries, addr, i) ensures Search(entries, last, addr) == entries[i].line {
        assert FirstAt(rest, addr, i - 1);
      }
      forall i: nat | LastBelow(entries, addr, i) ensures Search(entries, last, addr) == entries[i].line {
        if i > 0 { assert LastBelow(rest, addr, i - 1); }
      }
    }
  }

  lemma {:induction false} TableSorted(entries: seq<Entry>, from: Entry, i: nat, j: nat)
    requires Table(entries, from) && i <= j < |entries|
    ensures entries[i].addr <= entries[j].addr
    decreases j
  {
    if i < j {
      assert Before(entries, from, j).addr <= entries[j].addr;
      TableSorted(entries, from, i, j - 1);
    }
  }

  /** The line found in an encoded table is that of the first entry at the address, else
      of the last entry below it, else 1. */
  lemma EncodedLookup(entries: seq<Entry>, addr: int)
    requires Table(entries, START)
    requires forall i :: 0 <= i < |entries| ==> !WrapsAt(entries, START, i)
    ensures Lookup(Bytes(entries, START), START, 1, addr).Some?
    ensures var line := Lookup(Bytes(entries, START), START, 1, addr).value;
            && (forall i: nat :: FirstAt(entries, addr, i) ==> line == entries[i].line)
            && (forall i: nat :: LastBelow(entries, addr, i) ==> line == entries[i].line)
            && ((forall i :: 0 <= i < |entries| ==> entries[i].addr > addr) ==> line == 1)
  {
    RoundTrip(entries, START);
    LookupSearches(Bytes(entries, START), START, 1, addr);
    forall i, j | 0 <= i < j < |entries| ensures entries[i].addr <= entries[j].addr {
      TableSorted(entries, START, i, j);
    }
    SearchFinds(entries, 1, addr);
  }
}
