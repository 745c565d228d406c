/** Moving arguments into the native argument registers (move_native_args in
    genx64.mud): moves that overwrite each other's sources are ordered, and swapped
    where they form a cycle. */
module ParallelMoves {
  import opened Prelude

  type Reg = nat

  // An argument is in a register, or somewhere no register move changes.
  datatype Arg = Register(r: Reg) | Elsewhere(id: nat)

  const MAXARGS := 6

  // regs_native_args: rdi, rsi, rdx, rcx, r8 and r9.
  function Native(i: nat): Reg
    requires i < MAXARGS
  {
    if i == 0 then 7 else if i == 1 then 6 else if i == 2 then 2 else if i == 3 then 1 else i + 4
  }

  // The argument register r is, if any (vector_index).
  function NativeIndex(r: Reg): (i: Option<nat>)
    ensures i.Some? ==> i.value < MAXARGS && Native(i.value) == r
    ensures i.None? ==> forall j :: 0 <= j < MAXARGS ==> Native(j) != r
  {
    if r == 7 then Some(0) else if r == 6 then Some(1) else if r == 2 then Some(2) else if r == 1 then Some(3)
    else if r == 8 then Some(4) else if r == 9 then Some(5) else None
  }

  lemma NativeDistinct(i: nat, j: nat)
    requires i < MAXARGS && j < MAXARGS && Native(i) == Native(j)
    ensures i == j
  {
  }

  // ----- machine -----

  datatype Ins = Move(src: Arg, dst: Reg) | Xchg(a: Reg, b: Reg)

  datatype State = State(regs: Reg -> int, mem: nat -> int)

  function ValueOf(a: Arg, s: State): int {
    match a
    case Register(r) => s.regs(r)
    case Elsewhere(id) => s.mem(id)
  }

  function Set(s: State, d: Reg, v: int): State {
    s.(regs := (r: Reg) => if r == d then v else s.regs(r))
  }

  function Step(i: Ins, s: State): State {
    match i
    case Move(a, d) => Set(s, d, ValueOf(a, s))
    case Xchg(a, b) => Set(Set(s, a, s.regs(b)), b, s.regs(a))
  }

  function Exec(code: seq<Ins>, s: State): State {
    if code == [] then s else Step(code[|code|-1], Exec(code[..|code|-1], s))
  }

  lemma ExecAppend(code: seq<Ins>, i: Ins, s: State)
    ensures Exec(code + [i], s) == Step(i, Exec(code, s))
  {
    assert (code + [i])[..|code|] == code;
  }

  /** The code is a simultaneous assignment: every argument register ends with the
      value its argument had at the start. */
  ghost predicate Assigns(code: seq<Ins>, args: seq<Arg>)
    requires |args| <= MAXARGS
  {
    forall s: State, j :: 0 <= j < |args| ==> Exec(code, s).regs(Native(j)) == ValueOf(args[j], s)
  }

  // ----- pending moves -----

  // Argument k is in argument register i, but belongs in another.
  predicate Uses(args: seq<Arg>, i: nat, k: nat)
    requires |args| <= MAXARGS && i < |args| && k < |args|
  {
    k != i && args[k] == Register(Native(i))
  }

  /** Where argument register i moves to: the first of the first n arguments that uses it. */
  function Dest(args: seq<Arg>, i: nat, n: nat): (d: Option<nat>)
    requires |args| <= MAXARGS && i < |args| && n <= |args|
    ensures d.Some? ==> d.value < n && Uses(args, i, d.value)
    ensures d.None? ==> forall k :: 0 <= k < n ==> !Uses(args, i, k)
  {
    if n == 0 then None
    else
      var d := Dest(args, i, n - 1);
      if d.Some? then d else if Uses(args, i, n - 1) then Some(n - 1) else None
  }

  function Final(args: seq<Arg>, i: nat): Option<nat>
    requires |args| <= MAXARGS && i < |args|
  {
    Dest(args, i, |args|)
  }

  // Where every argument register moves to.
  function Moves(args: seq<Arg>): (f: seq<Option<nat>>)
    requires |args| <= MAXARGS
    ensures |f| == |args| && Graph(f)
  {
    var f := seq(|args|, i requires 0 <= i < |args| => Final(args, i));
    assert Graph(f) by {
      forall i | 0 <= i < |f| && f[i].Some? ensures f[i].value < |f| && f[i].value != i {
        assert Uses(args, i, f[i].value);
      }
      forall i, j | 0 <= i < j < |f| && f[i].Some? ensures f[i] != f[j] {
        if f[i] == f[j] { NativeDistinct(i, j); }
      }
    }
    f
  }

  // No register moves to itself, and different ones move to different places.
  ghost predicate Graph(f: seq<Option<nat>>) {
    && |f| <= MAXARGS
    && (forall i :: 0 <= i < |f| && f[i].Some? ==> f[i].value < |f| && f[i].value != i)
    && (forall i, j :: 0 <= i < j < |f| && f[i].Some? ==> f[i] != f[j])
  }

  lemma Injective(f: seq<Option<nat>>, i: nat, j: nat)
    requires Graph(f) && i < |f| && j < |f| && f[i].Some? && f[i] == f[j]
    ensures i == j
  {
  }

  /** Registers that move round in a circle. */
  ghost predicate MoveCycle(f: seq<Option<nat>>, c: seq<nat>)
    requires Graph(f)
  {
    && c != []
    && (forall k :: 0 <= k < |c| ==> c[k] < |f|)
    && (forall j, k :: 0 <= j < k < |c| ==> c[j] != c[k])
    && (forall k :: 0 <= k < |c| - 1 ==> f[c[k]] == Some(c[k + 1]))
    && f[c[|c| - 1]] == Some(c[0])
  }

  ghost predicate LongCycle(f: seq<Option<nat>>)
    requires Graph(f)
  {
    exists c: seq<nat> :: |c| > 2 && MoveCycle(f, c)
  }

  // ----- sets of registers that move into each other -----

  ghost predicate Closed(f: seq<Option<nat>>, s: set<nat>)
    requires Graph(f)
  {
    (forall i :: i in s ==> i < |f|) && (forall i {:trigger f[i]} :: i in s ==> f[i].Some? && f[i].value in s)
  }

  // Its destination moves back to i.
  ghost predicate SwapsBack(f: seq<Option<nat>>, i: nat)
    requires Graph(f) && i < |f| && f[i].Some?
  {
    f[f[i].value] == Some(i)
  }

  // Where the registers of a set move to.
  ghost function Image(f: seq<Option<nat>>, s: set<nat>): set<nat>
    requires forall i :: i in s ==> i < |f| && f[i].Some?
  {
    set i | i in s :: f[i].value
  }

  lemma {:induction false} ImageSize(f: seq<Option<nat>>, s: set<nat>)
    requires Graph(f) && forall i :: i in s ==> i < |f| && f[i].Some?
    ensures |Image(f, s)| == |s|
    decreases s
  {
    if s != {} {
      var i :| i in s;
      var s' := s - {i};
      forall x | x in Image(f, s') ensures x != f[i].value {
        var j :| j in s' && f[j].value == x;
        assert f[i] != f[j];
      }
      assert Image(f, s) == Image(f, s') + {f[i].value};
      ImageSize(f, s');
    }
  }

  lemma ImageInside(f: seq<Option<nat>>, s: set<nat>)
    requires Graph(f) && Closed(f, s)
    ensures Image(f, s) <= s
  {
    forall x | x in Image(f, s) ensures x in s {
      var i :| i in s && f[i].value == x;
    }
  }

  lemma FromImage(f: seq<Option<nat>>, s: set<nat>, x: nat) returns (p: nat)
    requires (forall i :: i in s ==> i < |f| && f[i].Some?) && x in Image(f, s)
    ensures p in s && f[p] == Some(x)
  {
    p :| p in s && f[p].value == x;
  }

  lemma ImageIsAll(f: seq<Option<nat>>, s: set<nat>)
    requires Graph(f) && Closed(f, s)
    ensures Image(f, s) == s
  {
    ImageSize(f, s);
    ImageInside(f, s);
    SubsetCard(Image(f, s), s);
  }

  // Every register of a closed set is also a destination.
  lemma HasPredecessor(f: seq<Option<nat>>, s: set<nat>, i: nat) returns (p: nat)
    requires Graph(f) && Closed(f, s) && i in s
    ensures p in s && f[p] == Some(i)
  {
    ImageIsAll(f, s);
    p := FromImage(f, s, i);
  }

  // A closed set in which one register does not swap back contains a long cycle.
  lemma ClosedCycle(f: seq<Option<nat>>, s: set<nat>, i: nat)
    requires Graph(f) && Closed(f, s) && i in s && !SwapsBack(f, i)
    ensures LongCycle(f)
  {
    var d := f[i].value;
    assert d in s;
    var e := f[d].value;
    assert e in s;
    var c := [i, d, e];
    assert forall k :: 0 <= k < 3 ==> c[k] == (if k == 0 then i else if k == 1 then d else e);
    WalkOn(f, s, c);
  }

  // Following the moves comes back to the start.
  lemma {:induction false} WalkOn(f: seq<Option<nat>>, s: set<nat>, c: seq<nat>)
    requires Graph(f) && Closed(f, s) && |c| > 2
    requires forall k :: 0 <= k < |c| ==> c[k] in s
    requires forall j, k :: 0 <= j < k < |c| ==> c[j] != c[k]
    requires forall k :: 0 <= k < |c| - 1 ==> f[c[k]] == Some(c[k + 1])
    ensures LongCycle(f)
    decreases |s| - |c|
  {
    var next := f[c[|c| - 1]].value;
    if next == c[0] {
      assert MoveCycle(f, c);
    } else {
      forall k | 0 <= k < |c| ensures c[k] != next {
        if k > 0 && c[k] == next { Injective(f, c[k - 1], c[|c| - 1]); }
      }
      DistinctSize(c + [next], s);
      WalkOn(f, s, c + [next]);
    }
  }

  lemma {:induction false} DistinctSize(c: seq<nat>, s: set<nat>)
    requires forall k :: 0 <= k < |c| ==> c[k] in s
    requires forall j, k :: 0 <= j < k < |c| ==> c[j] != c[k]
    ensures |c| <= |s|
  {
    if c != [] {
      var last := |c| - 1;
      DistinctSize(c[..last], s - {c[last]});
    }
  }

  // A long cycle is a closed set in which no register swaps back.
  lemma CycleClosed(f: seq<Option<nat>>, c: seq<nat>) returns (s: set<nat>)
    requires Graph(f) && MoveCycle(f, c) && |c| > 2
    ensures Closed(f, s) && c[0] in s && !SwapsBack(f, c[0])
  {
    s := set k | 0 <= k < |c| :: c[k];
    forall i | i in s ensures i < |f| && f[i].Some? && f[i].value in s {
      var k :| 0 <= k < |c| && c[k] == i;
      assert f[i] == Some(if k < |c| - 1 then c[k + 1] else c[0]);
    }
    assert f[c[0]] == Some(c[1]) && f[c[1]] == Some(c[2]);
  }

  // ----- the moves that wait -----

  // What has become of the move from register i: it waits, is done, or has been dropped.
  ghost predicate MoveState(f: seq<Option<nat>>, waits: bool, dropped: bool, i: nat, s: State, t: State)
    requires Graph(f) && i < |f| && f[i].Some?
  {
    var d := f[i].value;
    if waits then t.regs(Native(i)) == s.regs(Native(i))
    else if dropped then t.regs(Native(d)) == s.regs(Native(d))
    else t.regs(Native(d)) == s.regs(Native(i))
  }

  // A register no waiting move goes to.
  ghost predicate Untouched(f: seq<Option<nat>>, r: Reg)
    requires Graph(f)
  {
    forall i :: 0 <= i < |f| && f[i].Some? ==> Native(f[i].value) != r
  }

  // From s to t the moves that no longer wait have been made, or dropped.
  ghost predicate Progress(f: seq<Option<nat>>, waiting: set<nat>, dropped: set<nat>, s: State, t: State)
    requires Graph(f)
  {
    && t.mem == s.mem
    && (forall i :: 0 <= i < |f| && f[i].Some? ==> MoveState(f, i in waiting, i in dropped, i, s, t))
    && (forall r: Reg :: Untouched(f, r) ==> t.regs(r) == s.regs(r))
  }

  ghost predicate Sources(f: seq<Option<nat>>, waiting: set<nat>)
    requires Graph(f)
  {
    forall i :: i in waiting ==> i < |f| && f[i].Some?
  }

  // A move whose destination holds nothing that waits.
  lemma MoveProgress(f: seq<Option<nat>>, waiting: set<nat>, dropped: set<nat>, i: nat, d: nat, s: State, t: State)
    requires Graph(f) && Sources(f, waiting) && waiting !! dropped && Progress(f, waiting, dropped, s, t)
    requires i in waiting && f[i] == Some(d) && d !in waiting
    ensures Progress(f, waiting - {i}, dropped, s, Step(Move(Register(Native(i)), Native(d)), t))
  {
    var u := Step(Move(Register(Native(i)), Native(d)), t);
    forall j | 0 <= j < |f| && f[j].Some? ensures MoveState(f, j in waiting - {i}, j in dropped, j, s, u) {
      var e := f[j].value;
      if e == d { Injective(f, i, j); }
      if Native(e) == Native(d) { NativeDistinct(e, d); }
      if j in waiting && Native(j) == Native(d) { NativeDistinct(j, d); }
      assert MoveState(f, j in waiting, j in dropped, j, s, t);
      if j == i {
        assert e == d && t.regs(Native(i)) == s.regs(Native(i));
        assert u.regs(Native(d)) == t.regs(Native(i));
      } else {
        assert u.regs(Native(e)) == t.regs(Native(e));
      }
    }
    assert !Untouched(f, Native(d));
  }

  // Swapping two registers, when every waiting move goes to one that waits.
  lemma SwapProgress(f: seq<Option<nat>>, waiting: set<nat>, dropped: set<nat>, i: nat, d: nat, s: State, t: State)
    requires Graph(f) && Closed(f, waiting) && waiting !! dropped && Progress(f, waiting, dropped, s, t)
    requires i in waiting && f[i] == Some(d)
    ensures Progress(f, waiting - {i, d}, if SwapsBack(f, i) then dropped else dropped + {d}, s, Step(Xchg(Native(i), Native(d)), t))
  {
    var u := Step(Xchg(Native(i), Native(d)), t);
    var dropped' := if SwapsBack(f, i) then dropped else dropped + {d};
    var p := HasPredecessor(f, waiting, i);
    forall j | 0 <= j < |f| && f[j].Some? ensures MoveState(f, j in waiting - {i, d}, j in dropped', j, s, u) {
      SwapState(f, waiting, dropped, i, d, p, j, s, t);
    }
    assert !Untouched(f, Native(d)) && !Untouched(f, Native(i));
  }

  lemma SwapState(f: seq<Option<nat>>, waiting: set<nat>, dropped: set<nat>, i: nat, d: nat, p: nat, j: nat, s: State, t: State)
    requires Graph(f) && Closed(f, waiting) && waiting !! dropped && Progress(f, waiting, dropped, s, t)
    requires i in waiting && f[i] == Some(d) && i != d && p in waiting && f[p] == Some(i)
    requires j < |f| && f[j].Some?
    ensures MoveState(f, j in waiting - {i, d}, j in (if SwapsBack(f, i) then dropped else dropped + {d}), j, s, Step(Xchg(Native(i), Native(d)), t))
  {
    var e := f[j].value;
    assert e != j;
    assert MoveState(f, j in waiting, j in dropped, j, s, t);
    assert MoveState(f, true, false, i, s, t) && MoveState(f, true, false, d, s, t);
    if Native(i) == Native(d) { NativeDistinct(i, d); }
    if Native(e) == Native(d) { NativeDistinct(e, d); }
    if Native(e) == Native(i) { NativeDistinct(e, i); }
    if Native(j) == Native(d) { NativeDistinct(j, d); }
    if Native(j) == Native(i) { NativeDistinct(j, i); }
    if j == d && !SwapsBack(f, i) {
      assert e in waiting && MoveState(f, true, false, e, s, t);
    }
  }

  // Some waiting registers move into each other for good, and not all in pairs.
  ghost predicate Doomed(f: seq<Option<nat>>, waiting: set<nat>)
    requires Graph(f)
  {
    exists s: set<nat> :: s <= waiting && NotPairs(f, s)
  }

  ghost predicate NotPairs(f: seq<Option<nat>>, s: set<nat>)
    requires Graph(f)
  {
    Closed(f, s) && exists i :: i in s && !SwapsBack(f, i)
  }

  // A move to a register that does not wait is in no such set.
  lemma DoomedAfterMove(f: seq<Option<nat>>, waiting: set<nat>, i: nat)
    requires Graph(f) && Doomed(f, waiting) && i < |f| && f[i].Some? && f[i].value !in waiting
    ensures Doomed(f, waiting - {i})
  {
    var s: set<nat> :| s <= waiting && NotPairs(f, s);
    assert i !in s;
    assert s <= waiting - {i};
  }

  // Nor are two registers that swap the reason for one.
  lemma DoomedAfterSwap(f: seq<Option<nat>>, waiting: set<nat>, i: nat, d: nat)
    requires Graph(f) && Doomed(f, waiting) && i < |f| && d < |f| && f[i] == Some(d) && f[d] == Some(i)
    ensures Doomed(f, waiting - {i, d})
  {
    var s: set<nat> :| s <= waiting && NotPairs(f, s);
    var j :| j in s && !SwapsBack(f, j);
    var s' := s - {i, d};
    forall k | k in s' ensures f[k].value in s' {
      if k != i { assert f[k] != f[i]; }
      if k != d { assert f[k] != f[d]; }
    }
    assert j in s' && NotPairs(f, s');
  }

  lemma LongIsDoomed(f: seq<Option<nat>>, waiting: set<nat>)
    requires Graph(f) && LongCycle(f)
    requires forall i :: 0 <= i < |f| && f[i].Some? ==> i in waiting
    ensures Doomed(f, waiting)
  {
    var c: seq<nat> :| |c| > 2 && MoveCycle(f, c);
    var s := CycleClosed(f, c);
    assert NotPairs(f, s);
  }

  // An entry of the table: where the value goes, and the register it is in.
  datatype Pending = Pending(didx: nat, loc: Reg)

  ghost predicate Table(f: seq<Option<nat>>, regv: seq<Option<Pending>>, waiting: set<nat>)
    requires Graph(f)
  {
    && |regv| == |f|
    && (forall i :: i in waiting ==> i < |f|)
    && (forall i :: 0 <= i < |f| ==> (regv[i].Some? <==> i in waiting))
    && (forall i :: i in waiting ==> f[i] == Some(regv[i].value.didx) && regv[i].value.loc == Native(i))
  }

  // What holds of the moves dropped so far.
  ghost predicate Dropping(f: seq<Option<nat>>, waiting: set<nat>, dropped: set<nat>)
    requires Graph(f)
  {
    && waiting !! dropped
    && (forall i :: i in dropped ==> i < |f| && f[i].Some?)
    && (dropped != {} ==> LongCycle(f))
    && (LongCycle(f) ==> dropped != {} || Doomed(f, waiting))
  }

  ghost predicate Progresses(f: seq<Option<nat>>, waiting: set<nat>, dropped: set<nat>, code: seq<Ins>)
    requires Graph(f)
  {
    forall s: State :: Progress(f, waiting, dropped, s, Exec(code, s))
  }

  ghost predicate Moving(f: seq<Option<nat>>, regv: seq<Option<Pending>>, waiting: set<nat>, dropped: set<nat>, code: seq<Ins>)
    requires Graph(f)
  {
    Table(f, regv, waiting) && Dropping(f, waiting, dropped) && Progresses(f, waiting, dropped, code)
  }

  lemma TableWithout(f: seq<Option<nat>>, regv: seq<Option<Pending>>, waiting: set<nat>, i: nat)
    requires Graph(f) && Table(f, regv, waiting) && i < |f|
    ensures Table(f, regv[i := None], waiting - {i})
  {
  }

  lemma MovedOne(f: seq<Option<nat>>, regv: seq<Option<Pending>>, waiting: set<nat>, dropped: set<nat>, code: seq<Ins>, i: nat)
    requires Graph(f) && Moving(f, regv, waiting, dropped, code)
    requires i in waiting && regv[i].value.didx !in waiting
    ensures Moving(f, regv[i := None], waiting - {i}, dropped, code + [Move(Register(regv[i].value.loc), Native(regv[i].value.didx))])
  {
    var d := regv[i].value.didx;
    var ins := Move(Register(Native(i)), Native(d));
    TableWithout(f, regv, waiting, i);
    if LongCycle(f) && dropped == {} { DoomedAfterMove(f, waiting, i); }
    assert Sources(f, waiting);
    forall s: State ensures Progress(f, waiting - {i}, dropped, s, Exec(code + [ins], s)) {
      ExecAppend(code, ins, s);
      MoveProgress(f, waiting, dropped, i, d, s, Exec(code, s));
    }
  }

  lemma Swapped(f: seq<Option<nat>>, regv: seq<Option<Pending>>, waiting: set<nat>, dropped: set<nat>, code: seq<Ins>, i: nat)
    requires Graph(f) && Moving(f, regv, waiting, dropped, code) && Closed(f, waiting) && i in waiting
    ensures var d := regv[i].value.didx;
            && d in waiting && d < |regv| && regv[d].Some?
            && Moving(f, regv[d := None][i := None], waiting - {i, d}, if SwapsBack(f, i) then dropped else dropped + {d},
                      code + [Xchg(regv[i].value.loc, regv[d].value.loc)])
  {
    var d := regv[i].value.didx;
    var dropped' := if SwapsBack(f, i) then dropped else dropped + {d};
    var ins := Xchg(Native(i), Native(d));
    TableWithout(f, regv, waiting, d);
    TableWithout(f, regv[d := None], waiting - {d}, i);
    assert waiting - {d} - {i} == waiting - {i, d};
    SwapDropping(f, waiting, dropped, i, d);
    forall s: State ensures Progress(f, waiting - {i, d}, dropped', s, Exec(code + [ins], s)) {
      ExecAppend(code, ins, s);
      SwapProgress(f, waiting, dropped, i, d, s, Exec(code, s));
    }
  }

  lemma SwapDropping(f: seq<Option<nat>>, waiting: set<nat>, dropped: set<nat>, i: nat, d: nat)
    requires Graph(f) && Closed(f, waiting) && Dropping(f, waiting, dropped) && i in waiting && f[i] == Some(d)
    ensures Dropping(f, waiting - {i, d}, if SwapsBack(f, i) then dropped else dropped + {d})
  {
    if SwapsBack(f, i) {
      if LongCycle(f) && dropped == {} { DoomedAfterSwap(f, waiting, i, d); }
    } else {
      ClosedCycle(f, waiting, i);
    }
  }

  // One pass over the table: makes the moves whose destination is free, and names a
  // register that has to be swapped if there were none.
  method MovePass(ghost f: seq<Option<nat>>, regv: array<Option<Pending>>, code: seq<Ins>, ghost waiting: set<nat>, ghost dropped: set<nat>)
    returns (code': seq<Ins>, again: bool, xchg: Option<nat>, ghost waiting': set<nat>)
    requires Graph(f) && Moving(f, regv[..], waiting, dropped, code)
    modifies regv
    ensures Moving(f, regv[..], waiting', dropped, code') && waiting' <= waiting
    ensures again ==> waiting' < waiting
    ensures !again ==> waiting' == waiting && Closed(f, waiting)
    ensures !again ==> if xchg.Some? then xchg.value in waiting else waiting == {}
  {
    code', again, xchg, waiting' := code, false, None, waiting;
    var i := 0;
    while i < regv.Length
      invariant 0 <= i <= regv.Length
      invariant Moving(f, regv[..], waiting', dropped, code')
      invariant PassSoFar(f, waiting, waiting', again, xchg, i)
    {
      var made;
      ghost var was, moved, found := waiting', again, xchg;
      code', made := TryMove(f, regv, code', waiting', dropped, i);
      if made {
        waiting', again := waiting' - {i}, true;
      } else if regv[i].Some? {
        assert regv[..][i].Some?;
        xchg := Some(i);
      } else {
        assert regv[..][i].None?;
      }
      PassStep(f, waiting, was, moved, found, i, made);
      i := i + 1;
    }
  }

  // What a pass has found out from the first i entries.
  ghost predicate PassSoFar(f: seq<Option<nat>>, waiting: set<nat>, waiting': set<nat>, again: bool, xchg: Option<nat>, i: nat) {
    && waiting' <= waiting && i <= |f|
    && (again ==> waiting' < waiting)
    && (!again ==> waiting' == waiting)
    && (!again ==> forall j :: 0 <= j < i && j in waiting ==> f[j].Some? && f[j].value in waiting)
    && (!again ==> if xchg.Some? then xchg.value in waiting else forall j :: 0 <= j < i ==> j !in waiting)
  }

  // The next entry was moved, is stuck, or was not waiting.
  lemma PassStep(f: seq<Option<nat>>, waiting: set<nat>, waiting': set<nat>, again: bool, xchg: Option<nat>, i: nat, made: bool)
    requires PassSoFar(f, waiting, waiting', again, xchg, i) && i < |f|
    requires if made then i in waiting' else i in waiting' ==> f[i].Some? && f[i].value in waiting'
    ensures if made then PassSoFar(f, waiting, waiting' - {i}, true, xchg, i + 1)
            else PassSoFar(f, waiting, waiting', again, if i in waiting' then Some(i) else xchg, i + 1)
  {
  }

  // Makes one move if its destination is free.
  method TryMove(ghost f: seq<Option<nat>>, regv: array<Option<Pending>>, code: seq<Ins>, ghost waiting: set<nat>, ghost dropped: set<nat>, i: nat)
    returns (code': seq<Ins>, made: bool)
    requires Graph(f) && Moving(f, regv[..], waiting, dropped, code) && i < regv.Length
    modifies regv
    ensures made ==> i in waiting && Moving(f, regv[..], waiting - {i}, dropped, code')
    ensures !made ==> regv[..] == old(regv[..]) && code' == code && (i in waiting ==> f[i].value in waiting)
  {
    code', made := code, false;
    if regv[i].Some? {
      var entry := regv[i].value;
      assert regv[..][i] == Some(entry) && f[i] == Some(entry.didx);
      if regv[entry.didx].None? {
        assert regv[..][entry.didx].None?;
        MovedOne(f, regv[..], waiting, dropped, code, i);
        code', made := code + [Move(Register(entry.loc), Native(entry.didx))], true;
        regv[i] := None;
      } else {
        assert regv[..][entry.didx].Some?;
      }
    } else {
      assert regv[..][i].None?;
    }
  }

  // Makes all waiting moves. In a cycle, two registers are swapped; the register found
  // there is then taken to be in place, which it is only if the cycle has length two.
  method MovePending(ghost f: seq<Option<nat>>, regv: array<Option<Pending>>, ghost waiting0: set<nat>)
    returns (code: seq<Ins>, ghost dropped: set<nat>)
    requires Graph(f) && Moving(f, regv[..], waiting0, {}, [])
    modifies regv
    ensures Moving(f, regv[..], {}, dropped, code)
  {
    ghost var waiting := waiting0;
    code, dropped := [], {};
    var busy := true;
    while busy
      invariant Moving(f, regv[..], waiting, dropped, code)
      invariant !busy ==> waiting == {}
      decreases waiting, busy
    {
      var again, xchg;
      code, again, xchg, waiting := MovePass(f, regv, code, waiting, dropped);
      if !again {
        if xchg.None? {
          busy := false;
        } else {
          ghost var d := f[xchg.value].value;
          ghost var back := SwapsBack(f, xchg.value);
          code := SwapOne(f, regv, code, waiting, dropped, xchg.value);
          waiting, dropped := waiting - {xchg.value, d}, if back then dropped else dropped + {d};
        }
      }
    }
  }

  // Swaps register i with the one it goes to, which then counts as done.
  method SwapOne(ghost f: seq<Option<nat>>, regv: array<Option<Pending>>, code: seq<Ins>, ghost waiting: set<nat>, ghost dropped: set<nat>, i: nat)
    returns (code': seq<Ins>)
    requires Graph(f) && Moving(f, regv[..], waiting, dropped, code) && Closed(f, waiting) && i in waiting
    modifies regv
    ensures f[i].Some?
    ensures Moving(f, regv[..], waiting - {i, f[i].value}, if SwapsBack(f, i) then dropped else dropped + {f[i].value}, code')
  {
    var tloc, tdidx := regv[..][i].value.loc, regv[..][i].value.didx;
    Swapped(f, regv[..], waiting, dropped, code, i);
    var other := regv[..][tdidx].value;
    code' := code + [Xchg(tloc, other.loc)];
    regv[tdidx] := None;
    if tloc == Native(i) {
      regv[i] := None;
    } else {
      assert false;  // the entry is always for the register it is filed under
    }
  }

  // ----- simple moves -----

  // Where argument k is copied from once the waiting moves are done, unless it is one of
  // them or in place: a register that is used again is copied from its first destination.
  function Source(args: seq<Arg>, k: nat): Option<Arg>
    requires |args| <= MAXARGS && k < |args|
  {
    match args[k]
    case Elsewhere(_) => Some(args[k])
    case Register(r) =>
      var i := NativeIndex(r);
      if r == Native(k) then None
      else if i.Some? && i.value < |args| then
        var first := Dest(args, i.value, k);
        if first.Some? then Some(Register(Native(first.value))) else None
      else Some(args[k])
  }

  function SimpleMoves(args: seq<Arg>, k: nat): seq<(nat, Arg)>
    requires |args| <= MAXARGS && k <= |args|
  {
    if k == 0 then []
    else
      var src := Source(args, k - 1);
      (if src.Some? then [(k - 1, src.value)] else []) + SimpleMoves(args, k - 1)
  }

  // The table and the list, from the arguments in order.
  method Classify(args: seq<Arg>) returns (regv: array<Option<Pending>>, simple: seq<(nat, Arg)>)
    requires |args| <= MAXARGS
    ensures fresh(regv) && regv.Length == |args|
    ensures forall i :: 0 <= i < |args| ==>
              regv[i] == if Final(args, i).Some? then Some(Pending(Final(args, i).value, Native(i))) else None
    ensures simple == SimpleMoves(args, |args|)
  {
    regv, simple := new Option<Pending>[|args|](_ => None), [];
    var k := 0;
    while k < |args|
      invariant 0 <= k <= |args| && simple == SimpleMoves(args, k) && Filed(args, regv[..], k)
    {
      simple := ClassifyOne(args, regv, simple, k);
      k := k + 1;
    }
  }

  // The table after the first k arguments.
  ghost predicate Filed(args: seq<Arg>, regv: seq<Option<Pending>>, k: nat)
    requires |args| <= MAXARGS && k <= |args|
  {
    |regv| == |args| && forall i :: 0 <= i < |args| ==> regv[i] == Entry(args, i, k)
  }

  function Entry(args: seq<Arg>, i: nat, k: nat): Option<Pending>
    requires |args| <= MAXARGS && i < |args| && k <= |args|
  {
    var d := Dest(args, i, k);
    if d.Some? then Some(Pending(d.value, Native(i))) else None
  }

  method ClassifyOne(args: seq<Arg>, regv: array<Option<Pending>>, simple: seq<(nat, Arg)>, didx: nat) returns (simple': seq<(nat, Arg)>)
    requires |args| <= MAXARGS && didx < |args| && simple == SimpleMoves(args, didx) && Filed(args, regv[..], didx)
    modifies regv
    ensures simple' == SimpleMoves(args, didx + 1) && Filed(args, regv[..], didx + 1)
  {
    simple' := simple;
    var arg := args[didx];
    var regidx := if arg.Register? then NativeIndex(arg.r) else None;
    if arg == Register(Native(didx)) {
      NotUsed(args, didx);
    } else if regidx.Some? && regidx.value < |args| {
      var i := regidx.value;
      UsedOnce(args, i, didx);
      if regv[i].Some? {
        simple' := [(didx, Register(Native(regv[i].value.didx)))] + simple;
      } else {
        regv[i] := Some(Pending(didx, arg.r));
      }
    } else {
      NotUsed(args, didx);
      simple' := [(didx, arg)] + simple;
    }
  }

  // An argument that is in place, or in no argument register, adds no entry.
  lemma NotUsed(args: seq<Arg>, k: nat)
    requires |args| <= MAXARGS && k < |args|
    requires args[k].Elsewhere? || args[k] == Register(Native(k)) || NativeIndex(args[k].r).None? || NativeIndex(args[k].r).value >= |args|
    ensures forall i :: 0 <= i < |args| ==> Dest(args, i, k + 1) == Dest(args, i, k)
  {
    forall i | 0 <= i < |args| ensures !Uses(args, i, k) {
      if args[k] == Register(Native(i)) {
        NativeDistinct(i, NativeIndex(Native(i)).value);
        if args[k] == Register(Native(k)) { NativeDistinct(i, k); }
      }
    }
  }

  lemma UsedOnce(args: seq<Arg>, i: nat, k: nat)
    requires |args| <= MAXARGS && k < |args| && i < |args| && Uses(args, i, k)
    ensures forall j :: 0 <= j < |args| && j != i ==> Dest(args, j, k + 1) == Dest(args, j, k)
    ensures Dest(args, i, k + 1) == if Dest(args, i, k).Some? then Dest(args, i, k) else Some(k)
  {
    forall j | 0 <= j < |args| && j != i ensures !Uses(args, j, k) {
      if args[k] == Register(Native(j)) { NativeDistinct(i, j); }
    }
  }

  // The simple moves carried out.
  function RunSimple(args: seq<Arg>, k: nat, t: State): State
    requires |args| <= MAXARGS && k <= |args|
  {
    if k == 0 then t
    else
      var src := Source(args, k - 1);
      RunSimple(args, k - 1, if src.Some? then Step(Move(src.value, Native(k - 1)), t) else t)
  }

  // No simple move overwrites the source of another.
  lemma SourceKept(args: seq<Arg>, j: nat, k: nat, t: State)
    requires |args| <= MAXARGS && j < |args| && k < |args| && j != k && Source(args, j).Some? && Source(args, k).Some?
    ensures ValueOf(Source(args, j).value, Step(Move(Source(args, k).value, Native(k)), t)) == ValueOf(Source(args, j).value, t)
  {
    var a := Source(args, j).value;
    if a == Register(Native(k)) {
      var i := NativeIndex(args[j].r);
      if i.Some? && i.value < |args| {
        var first := Dest(args, i.value, j).value;
        NativeDistinct(first, k);
        FirstIsNotSimple(args, i.value, j);
      }
    }
  }

  lemma {:induction false} DestKept(args: seq<Arg>, i: nat, m: nat, n: nat)
    requires |args| <= MAXARGS && i < |args| && m <= n <= |args|
    ensures Dest(args, i, m).Some? ==> Dest(args, i, n) == Dest(args, i, m)
    ensures Dest(args, i, n).Some? && Dest(args, i, n).value < m ==> Dest(args, i, m) == Dest(args, i, n)
  {
    if m < n { DestKept(args, i, m, n - 1); }
  }

  // The first use of a register is not a simple move.
  lemma FirstIsNotSimple(args: seq<Arg>, i: nat, n: nat)
    requires |args| <= MAXARGS && i < |args| && n <= |args| && Dest(args, i, n).Some?
    ensures Source(args, Dest(args, i, n).value).None?
  {
    var d := Dest(args, i, n).value;
    NativeDistinct(i, NativeIndex(Native(i)).value);
    if Dest(args, i, d).Some? { DestKept(args, i, d, n); }
  }

  lemma {:induction false} SimpleDone(args: seq<Arg>, k: nat, t: State, j: nat)
    requires |args| <= MAXARGS && k <= |args| && j < |args|
    ensures RunSimple(args, k, t).mem == t.mem
    ensures RunSimple(args, k, t).regs(Native(j)) ==
            if j < k && Source(args, j).Some? then ValueOf(Source(args, j).value, t) else t.regs(Native(j))
  {
    if k > 0 {
      var src := Source(args, k - 1);
      var u := if src.Some? then Step(Move(src.value, Native(k - 1)), t) else t;
      SimpleDone(args, k - 1, u, j);
      if j != k - 1 {
        if Native(j) == Native(k - 1) { NativeDistinct(j, k - 1); }
        if j < k && Source(args, j).Some? && src.Some? { SourceKept(args, j, k - 1, t); }
      }
    }
  }

  // ----- the whole -----

  // The state after the waiting moves, if none was dropped, and the simple ones.
  lemma AllAssigned(args: seq<Arg>, j: nat, s: State, t: State)
    requires |args| <= MAXARGS && j < |args| && Progress(Moves(args), {}, {}, s, t)
    ensures RunSimple(args, |args|, t).regs(Native(j)) == ValueOf(args[j], s)
  {
    SimpleDone(args, |args|, t, j);
    match args[j]
    case Elsewhere(_) =>
    case Register(r) =>
      var i := NativeIndex(r);
      if i.Some? && i.value < |args| && r != Native(j) {
        var first := Dest(args, i.value, j);
        assert Uses(args, i.value, j);
        DestKept(args, i.value, j, |args|);
        var d := Final(args, i.value);
        if first.None? { DestKept(args, i.value, j + 1, |args|); assert Dest(args, i.value, j + 1) == Some(j); }
        assert MoveState(Moves(args), false, false, i.value, s, t);
      } else {
        assert Untouched(Moves(args), r) by { OutsideUntouched(args, r, j); }
      }
  }

  lemma OutsideUntouched(args: seq<Arg>, r: Reg, j: nat)
    requires |args| <= MAXARGS && j < |args| && args[j] == Register(r)
    requires r == Native(j) || NativeIndex(r).None? || NativeIndex(r).value >= |args|
    ensures Untouched(Moves(args), r)
  {
    forall i | 0 <= i < |args| && Final(args, i).Some? ensures Native(Final(args, i).value) != r {
      var d := Final(args, i).value;
      assert Uses(args, i, d);
      if Native(d) == r && NativeIndex(r).Some? {
        NativeDistinct(d, NativeIndex(r).value);
        if r == Native(j) { NativeDistinct(d, j); NativeDistinct(i, j); }
      }
    }
  }

  // A dropped move leaves its destination wrong when all registers differ.
  lemma DroppedIsWrong(args: seq<Arg>, dropped: set<nat>, i: nat, s: State, t: State)
    requires |args| <= MAXARGS && i < |args| && Final(args, i).Some? && i in dropped && Progress(Moves(args), {}, dropped, s, t)
    requires forall r: Reg :: s.regs(r) == r
    ensures var d := Final(args, i).value;
            RunSimple(args, |args|, t).regs(Native(d)) != ValueOf(args[d], s)
  {
    var d := Final(args, i).value;
    SimpleDone(args, |args|, t, d);
    FirstIsNotSimple(args, i, |args|);
    assert MoveState(Moves(args), false, true, i, s, t);
    assert Uses(args, i, d);
    if Native(d) == Native(i) { NativeDistinct(d, i); }
  }

  lemma Outcome(args: seq<Arg>, regv: seq<Option<Pending>>, dropped: set<nat>, code: seq<Ins>, all: seq<Ins>)
    requires |args| <= MAXARGS && Moving(Moves(args), regv, {}, dropped, code)
    requires forall s: State :: Exec(all, s) == RunSimple(args, |args|, Exec(code, s))
    ensures Assigns(all, args) <==> !LongCycle(Moves(args))
  {
    if LongCycle(Moves(args)) {
      assert !Doomed(Moves(args), {});
      var i :| i in dropped;
      var s := State((r: Reg) => r, _ => 0);
      DroppedIsWrong(args, dropped, i, s, Exec(code, s));
      assert Exec(all, s).regs(Native(Final(args, i).value)) != ValueOf(args[Final(args, i).value], s);
    } else {
      assert dropped == {};
      forall s: State, j | 0 <= j < |args| ensures Exec(all, s).regs(Native(j)) == ValueOf(args[j], s) {
        AllAssigned(args, j, s, Exec(code, s));
      }
    }
  }

  // The first k arguments' simple moves remain to be made.
  ghost predicate Remaining(args: seq<Arg>, k: nat, all: seq<Ins>, code: seq<Ins>)
    requires |args| <= MAXARGS && k <= |args|
  {
    forall s: State :: RunSimple(args, k, Exec(all, s)) == RunSimple(args, |args|, Exec(code, s))
  }

  lemma RemainingStep(args: seq<Arg>, k: nat, k': nat, all: seq<Ins>, code: seq<Ins>)
    requires |args| <= MAXARGS && 0 < k' <= k <= |args| && Remaining(args, k, all, code) && Source(args, k' - 1).Some?
    requires forall t: State :: RunSimple(args, k', t) == RunSimple(args, k, t)
    ensures Remaining(args, k' - 1, all + [Move(Source(args, k' - 1).value, Native(k' - 1))], code)
  {
    var ins := Move(Source(args, k' - 1).value, Native(k' - 1));
    forall s: State ensures RunSimple(args, k' - 1, Exec(all + [ins], s)) == RunSimple(args, |args|, Exec(code, s)) {
      ExecAppend(all, ins, s);
      assert RunSimple(args, k', Exec(all, s)) == RunSimple(args, k, Exec(all, s));
    }
  }

  // The simple moves as code.
  method AppendSimple(args: seq<Arg>, simple: seq<(nat, Arg)>, code: seq<Ins>) returns (all: seq<Ins>)
    requires |args| <= MAXARGS && simple == SimpleMoves(args, |args|)
    ensures forall s: State :: Exec(all, s) == RunSimple(args, |args|, Exec(code, s))
  {
    hide Exec, RunSimple;
    all := code;
    var m := 0;
    ghost var k: nat := |args|;
    while m < |simple|
      invariant 0 <= m <= |simple| && k <= |args| && simple[m..] == SimpleMoves(args, k)
      invariant Remaining(args, k, all, code)
    {
      assert simple[m..] != [];
      ghost var k' := SkipInPlace(args, k);
      assert simple[m..] == [(k' - 1, Source(args, k' - 1).value)] + SimpleMoves(args, k' - 1);
      assert simple[m] == simple[m..][0] && simple[m + 1..] == simple[m..][1..];
      RemainingStep(args, k, k', all, code);
      all := all + [Move(simple[m].1, Native(simple[m].0))];
      m, k := m + 1, k' - 1;
    }
    forall s: State ensures Exec(all, s) == RunSimple(args, |args|, Exec(code, s)) {
      NothingLeft(args, k, Exec(all, s));
      assert RunSimple(args, k, Exec(all, s)) == RunSimple(args, |args|, Exec(code, s));
    }
  }

  // The next simple move is the one of argument k' - 1.
  lemma {:induction false} SkipInPlace(args: seq<Arg>, k: nat) returns (k': nat)
    requires |args| <= MAXARGS && k <= |args| && SimpleMoves(args, k) != []
    ensures 0 < k' <= k && Source(args, k' - 1).Some? && SimpleMoves(args, k') == SimpleMoves(args, k)
    ensures forall t: State :: RunSimple(args, k', t) == RunSimple(args, k, t)
  {
    if Source(args, k - 1).Some? {
      k' := k;
    } else {
      assert SimpleMoves(args, k) == SimpleMoves(args, k - 1);
      k' := SkipInPlace(args, k - 1);
    }
  }

  lemma {:induction false} NothingLeft(args: seq<Arg>, k: nat, t: State)
    requires |args| <= MAXARGS && k <= |args| && SimpleMoves(args, k) == []
    ensures RunSimple(args, k, t) == t
  {
    if k > 0 { NothingLeft(args, k - 1, t); }
  }

  // Which registers those are: rdi, rsi, rdx, rcx, r8 and r9 are 7, 6, 2, 1, 8 and 9.
  lemma AssignsRegisters(code: seq<Ins>, args: seq<Arg>)
    requires |args| <= 6
    ensures Assigns(code, args) <==>
            forall s: State ::
              && (|args| > 0 ==> Exec(code, s).regs(7) == ValueOf(args[0], s))
              && (|args| > 1 ==> Exec(code, s).regs(6) == ValueOf(args[1], s))
              && (|args| > 2 ==> Exec(code, s).regs(2) == ValueOf(args[2], s))
              && (|args| > 3 ==> Exec(code, s).regs(1) == ValueOf(args[3], s))
              && (|args| > 4 ==> Exec(code, s).regs(8) == ValueOf(args[4], s))
              && (|args| > 5 ==> Exec(code, s).regs(9) == ValueOf(args[5], s))
  {
    hide Exec, ValueOf;
    assert Native(0) == 7 && Native(1) == 6 && Native(2) == 2 && Native(3) == 1 && Native(4) == 8 && Native(5) == 9;
  }

  /** Moves the arguments into place. The emitted code assigns them simultaneously if and
      only if the registers' moves contain no cycle of more than two. */
  method MoveNativeArgs(code: seq<Ins>, args: seq<Arg>) returns (code': seq<Ins>)
    requires |args| <= MAXARGS
    ensures code <= code'
    ensures Assigns(code'[|code|..], args) <==> !LongCycle(Moves(args))
    ensures !LongCycle(Moves(args)) <==>
            forall s: State ::
              && (|args| > 0 ==> Exec(code'[|code|..], s).regs(7) == ValueOf(args[0], s))
              && (|args| > 1 ==> Exec(code'[|code|..], s).regs(6) == ValueOf(args[1], s))
              && (|args| > 2 ==> Exec(code'[|code|..], s).regs(2) == ValueOf(args[2], s))
              && (|args| > 3 ==> Exec(code'[|code|..], s).regs(1) == ValueOf(args[3], s))
              && (|args| > 4 ==> Exec(code'[|code|..], s).regs(8) == ValueOf(args[4], s))
              && (|args| > 5 ==> Exec(code'[|code|..], s).regs(9) == ValueOf(args[5], s))
  {
    hide Exec, ValueOf, LongCycle, Assigns;
    var all := AllMoves(args);
    code' := code + all;
    assert code'[|code|..] == all;
    AssignsRegisters(all, args);
  }

  // The code for all arguments: the pending moves, then the others.
  method AllMoves(args: seq<Arg>) returns (all: seq<Ins>)
    requires |args| <= MAXARGS
    ensures Assigns(all, args) <==> !LongCycle(Moves(args))
  {
    var regv, simple := Classify(args);
    ghost var waiting := set i | 0 <= i < |args| && Final(args, i).Some?;
    assert Moving(Moves(args), regv[..], waiting, {}, []) by {
      if LongCycle(Moves(args)) { LongIsDoomed(Moves(args), waiting); }
    }
    var moves;
    ghost var dropped;
    moves, dropped := MovePending(Moves(args), regv, waiting);
    all := AppendSimple(args, simple, moves);
    Outcome(args, regv[..], dropped, moves, all);
  }

  // rdi and rsi never hold a variable.
  ghost predicate AllocatedRegisters(args: seq<Arg>) {
    forall k :: 0 <= k < |args| ==> args[k] != Register(7) && args[k] != Register(6)
  }

  /** With at most four arguments there is never a cycle of more than two. */
  lemma FourArgumentsAreSafe(args: seq<Arg>)
    requires |args| <= 4 && AllocatedRegisters(args)
    ensures !LongCycle(Moves(args))
  {
    forall c: seq<nat> | |c| > 2 && MoveCycle(Moves(args), c) ensures false {
      OnlyTwo(args, c, 0);
      OnlyTwo(args, c, 1);
      OnlyTwo(args, c, 2);
    }
  }

  lemma OnlyTwo(args: seq<Arg>, c: seq<nat>, k: nat)
    requires |args| <= 4 && AllocatedRegisters(args) && MoveCycle(Moves(args), c) && k < |c|
    ensures c[k] == 2 || c[k] == 3
  {
    assert Moves(args)[c[k]] == Some(if k < |c| - 1 then c[k + 1] else c[0]);
    assert Uses(args, c[k], Final(args, c[k]).value);
  }

  /** Five arguments in rdx, rcx and r8 that each belong in the next make a cycle of three. */
  lemma FiveArgumentsCanFail()
    ensures var args := [Elsewhere(0), Elsewhere(1), Register(1), Register(8), Register(2)];
            AllocatedRegisters(args) && LongCycle(Moves(args))
  {
    var args := [Elsewhere(0), Elsewhere(1), Register(1), Register(8), Register(2)];
    assert Uses(args, 2, 4) && Uses(args, 3, 2) && Uses(args, 4, 3);
    Only(args, 2, 4);
    Only(args, 3, 2);
    Only(args, 4, 3);
    assert MoveCycle(Moves(args), [2, 4, 3]);
  }

  // The only use of a register is where it moves to.
  lemma Only(args: seq<Arg>, i: nat, k: nat)
    requires |args| <= MAXARGS && i < |args| && k < |args| && Uses(args, i, k)
    requires forall j :: 0 <= j < |args| && j != k ==> !Uses(args, i, j)
    ensures Final(args, i) == Some(k)
  {
  }
}
