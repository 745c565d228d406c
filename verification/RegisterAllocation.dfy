/** The register allocator of phase4.mud: interference graph, grouping of
    variables by the registers each instruction clobbers, colouring by
    simplify and select, and spilling. */
module RegisterAllocation {
  import opened FlowGraph
  import opened Prelude

  // Kinds of register, by who saves them.
  datatype RegKind = RegScratch | RegCaller | RegCallee

  /** Where a variable is kept. While the graph is being coloured the number of a
      register is its place in the removal order; select_colors replaces it. */
  datatype Location =
    | Register(kind: RegKind, number: nat)
    | SpillSlot(slot: nat)
    | ArgumentSlot(arg: Var)
    | ClosureSlot(cvar: Var)

  /** What the allocator needs of a function: its flow graph, the closure
      variables other than the function itself, its local variables, and its
      arguments, the first nfixed of which the caller always pushes. */
  datatype Function = Function(g: Graph, closures: seq<Var>, locals: seq<Var>, args: seq<Var>, nfixed: nat) {
    ghost predicate Valid() {
      && g.Valid()
      && nfixed <= |args|
      && Distinct(Vars())
      && forall v :: v in Vars() ==> v !in g.globals
    }

    function Vars(): seq<Var> {
      closures + locals
    }

    predicate AlreadySpilt(v: Var)
      requires nfixed <= |args|
    {
      v in closures || v in args[..nfixed]
    }
  }

  predicate Distinct<T(==)>(s: seq<T>) {
    forall i, j :: 0 <= i < j < |s| ==> s[i] != s[j]
  }

  function Elems<T>(s: seq<T>): set<T> {
    set x | x in s
  }

  lemma {:induction false} ElemsCard<T>(s: seq<T>)
    ensures |Elems(s)| <= |s|
  {
    if s != [] {
      ElemsCard(s[1..]);
      assert Elems(s) == {s[0]} + Elems(s[1..]);
    }
  }

  // The elements from position i on.
  function From<T>(s: seq<T>, i: nat): set<T> {
    set j | i <= j < |s| :: s[j]
  }

  lemma FromStep<T>(s: seq<T>, i: nat)
    requires i < |s|
    ensures From(s, i) == From(s, i + 1) + {s[i]}
  {
  }

  lemma FromAppend<T>(s: seq<T>, x: T, i: nat)
    requires i <= |s|
    ensures From(s + [x], i) == From(s, i) + {x}
  {
    forall y | y in From(s, i) + {x} ensures y in From(s + [x], i) {
      if y in From(s, i) {
        var j :| i <= j < |s| && s[j] == y;
        assert (s + [x])[j] == y;
      } else {
        assert (s + [x])[|s|] == y;
      }
    }
  }

  lemma FromWithin<T>(s: seq<T>, i: nat, all: set<T>)
    requires forall k :: i <= k < |s| ==> s[k] in all
    ensures From(s, i) <= all && forall k :: i <= k < |s| ==> s[k] in From(s, i)
  {
  }

  function Nbrs(neighbors: map<Var, set<Var>>, v: Var): set<Var> {
    if v in neighbors then neighbors[v] else {}
  }

  // ----- scanning all program points -----

  // What f reports at the instructions from k on of one block.
  function Scan<T>(f: (seq<Instr>, nat, set<Var>) -> set<T>, code: seq<Instr>, k: nat, out: set<Var>): set<T>
    decreases |code| - k
  {
    if k >= |code| then {} else Scan(f, code, k + 1, out) + f(code, k, out)
  }

  function ScanBlocks<T>(f: (seq<Instr>, nat, set<Var>) -> set<T>, g: Graph, outs: seq<set<Var>>, n: nat): set<T>
    requires n <= |g.blocks| == |outs|
  {
    if n == 0 then {}
    else ScanBlocks(f, g, outs, n - 1) + Scan(f, g.blocks[n-1].code, 0, outs[n-1])
  }

  lemma {:induction false} ScanMember<T>(f: (seq<Instr>, nat, set<Var>) -> set<T>, code: seq<Instr>, k: nat, out: set<Var>, x: T)
    ensures x in Scan(f, code, k, out) <==> exists j :: k <= j < |code| && x in f(code, j, out)
    decreases |code| - k
  {
    if k < |code| {
      ScanMember(f, code, k + 1, out, x);
    }
  }

  lemma {:induction false} ScanBlocksMember<T>(f: (seq<Instr>, nat, set<Var>) -> set<T>, g: Graph, outs: seq<set<Var>>, n: nat, x: T)
    requires n <= |g.blocks| == |outs|
    ensures x in ScanBlocks(f, g, outs, n) <==>
            exists b, k :: 0 <= b < n && 0 <= k < |g.blocks[b].code| && x in f(g.blocks[b].code, k, outs[b])
  {
    if n > 0 {
      ScanBlocksMember(f, g, outs, n - 1, x);
      ScanMember(f, g.blocks[n-1].code, 0, outs[n-1], x);
    }
  }

  // ----- interference -----

  function CliqueAt(code: seq<Instr>, k: nat, out: set<Var>): set<set<Var>> {
    if k < |code| then {LiveAfter(code, k, out)} else {}
  }

  // All sets of variables that are live at the same time.
  function Cliques(g: Graph, ins: seq<set<Var>>, outs: seq<set<Var>>, n: nat): set<set<Var>>
    requires n <= |g.blocks| == |ins| == |outs|
  {
    ScanBlocks(CliqueAt, g, outs, n) + set b | 0 <= b < n :: ins[b]
  }

  lemma CliquesStep(g: Graph, ins: seq<set<Var>>, outs: seq<set<Var>>, b: nat)
    requires b < |g.blocks| == |ins| == |outs|
    ensures Cliques(g, ins, outs, b) + Scan(CliqueAt, g.blocks[b].code, 0, outs[b]) + {ins[b]}
            == Cliques(g, ins, outs, b + 1)
  {
  }

  ghost predicate InClique(cliques: set<set<Var>>, u: Var, v: Var) {
    exists c :: c in cliques && u in c && v in c
  }

  // u and v are live together at some point of the program.
  ghost predicate Together(g: Graph, ins: seq<set<Var>>, outs: seq<set<Var>>, u: Var, v: Var)
    requires |g.blocks| == |ins| == |outs|
  {
    || (exists b :: 0 <= b < |ins| && u in ins[b] && v in ins[b])
    || (exists b, k :: 0 <= b < |outs| && 0 <= k < |g.blocks[b].code|
                       && u in LiveAfter(g.blocks[b].code, k, outs[b])
                       && v in LiveAfter(g.blocks[b].code, k, outs[b]))
  }

  lemma TogetherIsClique(g: Graph, ins: seq<set<Var>>, outs: seq<set<Var>>, u: Var, v: Var)
    requires |g.blocks| == |ins| == |outs|
    ensures Together(g, ins, outs, u, v) <==> InClique(Cliques(g, ins, outs, |ins|), u, v)
  {
    var n := |ins|;
    var all := Cliques(g, ins, outs, n);
    if b, k :| 0 <= b < n && 0 <= k < |g.blocks[b].code|
               && u in LiveAfter(g.blocks[b].code, k, outs[b]) && v in LiveAfter(g.blocks[b].code, k, outs[b]) {
      var c := LiveAfter(g.blocks[b].code, k, outs[b]);
      assert c in CliqueAt(g.blocks[b].code, k, outs[b]);
      ScanBlocksMember(CliqueAt, g, outs, n, c);
      assert c in all;
    }
    if c :| c in all && u in c && v in c {
      ScanBlocksMember(CliqueAt, g, outs, n, c);
    }
  }

  // ----- survivors -----

  // Variables that must outlive the call at instruction k.
  function CallSurvivors(code: seq<Instr>, k: nat, out: set<Var>): set<Var> {
    if k < |code| && code[k].regs == Caller then LiveAfter(code, k, out) - DefSet(code[k]) else {}
  }

  // Variables that must outlive the scratch registers at instruction k.
  function ScratchSurvivors(code: seq<Instr>, k: nat, out: set<Var>): set<Var> {
    if k >= |code| then {}
    else match code[k].regs
      case EarlyScratch => LiveBefore(code, k, out)
      case Scratch => LiveBefore(code, k, out) * LiveAfter(code, k, out) - DefSet(code[k])
      case _ => {}
  }

  /** Which variables survive: those that a call with caller-saved registers must leave
      alone, its result aside; inputs of instructions that use scratch registers early; and
      what lives through other instructions that use them. */
  lemma SurvivorsMeaning(g: Graph, outs: seq<set<Var>>, v: Var)
    requires |g.blocks| == |outs|
    ensures v in ScanBlocks(CallSurvivors, g, outs, |outs|) <==>
            exists b, k :: 0 <= b < |outs| && 0 <= k < |g.blocks[b].code| && g.blocks[b].code[k].regs == Caller
                           && v in LiveAfter(g.blocks[b].code, k, outs[b]) && g.blocks[b].code[k].def != Some(v)
    ensures v in ScanBlocks(ScratchSurvivors, g, outs, |outs|) <==>
            exists b, k :: 0 <= b < |outs| && 0 <= k < |g.blocks[b].code|
                           && v in LiveBefore(g.blocks[b].code, k, outs[b])
                           && (g.blocks[b].code[k].regs == EarlyScratch
                               || (g.blocks[b].code[k].regs == Scratch
                                   && v in LiveAfter(g.blocks[b].code, k, outs[b]) && g.blocks[b].code[k].def != Some(v)))
  {
    ScanBlocksMember(CallSurvivors, g, outs, |outs|, v);
    ScanBlocksMember(ScratchSurvivors, g, outs, |outs|, v);
    forall b, k | 0 <= b < |outs| && 0 <= k < |g.blocks[b].code|
      ensures v in CallSurvivors(g.blocks[b].code, k, outs[b]) <==>
              g.blocks[b].code[k].regs == Caller && v in LiveAfter(g.blocks[b].code, k, outs[b]) && g.blocks[b].code[k].def != Some(v)
      ensures v in ScratchSurvivors(g.blocks[b].code, k, outs[b]) <==>
              v in LiveBefore(g.blocks[b].code, k, outs[b])
              && (g.blocks[b].code[k].regs == EarlyScratch
                  || (g.blocks[b].code[k].regs == Scratch
                      && v in LiveAfter(g.blocks[b].code, k, outs[b]) && g.blocks[b].code[k].def != Some(v)))
    {
      hide LiveAfter, LiveBefore, ScanBlocks;
    }
  }

  // ----- removal order -----

  /** While variables leave the graph, a register's number is its place in the
      removal order of its kind; spilled variables sit in the slot they came in,
      or else in slot 0 until select_spill. */
  ghost predicate InOrder(fn: Function, colorOrder: map<RegKind, nat>, removed: map<RegKind, seq<Var>>, location: map<Var, Location>) {
    && fn.nfixed <= |fn.args|
    && (forall kind :: kind in colorOrder && kind in removed && colorOrder[kind] == |removed[kind]|)
    && (forall kind, i :: 0 <= i < |removed[kind]| ==>
          removed[kind][i] in location && location[removed[kind][i]] == Register(kind, i))
    && (forall v :: v in location ==> Placed(fn, removed, v, location[v]))
  }

  ghost predicate Placed(fn: Function, removed: map<RegKind, seq<Var>>, v: Var, loc: Location)
    requires fn.nfixed <= |fn.args|
  {
    match loc
    case Register(kind, i) => kind in removed && i < |removed[kind]| && removed[kind][i] == v
    case SpillSlot(slot) => slot == 0 && !fn.AlreadySpilt(v)
    case ArgumentSlot(w) => w == v && fn.AlreadySpilt(v) && v !in fn.closures
    case ClosureSlot(w) => w == v && v in fn.closures
  }

  // The number of neighbours of v among some variables.
  function Degree(neighbors: map<Var, set<Var>>, v: Var, among: set<Var>): nat {
    |Nbrs(neighbors, v) * among|
  }

  // What is left of the graph when the first i variables are gone.
  function Remaining(order: seq<Var>, i: nat, pending: set<Var>): set<Var> {
    From(order, i) + pending
  }

  /** Each removed variable has fewer neighbours among the later removals and
      the pending variables than there are registers. */
  ghost predicate FewLater(neighbors: map<Var, set<Var>>, order: seq<Var>, pending: set<Var>, n: nat) {
    forall i :: 0 <= i < |order| ==> Degree(neighbors, order[i], Remaining(order, i + 1, pending)) < n
  }

  lemma FewLaterRemove(neighbors: map<Var, set<Var>>, order: seq<Var>, pending: set<Var>, n: nat, v: Var)
    requires v in pending && v !in Nbrs(neighbors, v)
    requires FewLater(neighbors, order, pending, n) && Degree(neighbors, v, pending) < n
    ensures FewLater(neighbors, order + [v], pending - {v}, n)
  {
    var order' := order + [v];
    forall i | 0 <= i < |order'|
      ensures Degree(neighbors, order'[i], Remaining(order', i + 1, pending - {v})) < n
    {
      LaterRemove(order, pending, v, i + 1);
      if i == |order| {
        DegreeSelf(neighbors, v, pending);
      }
    }
  }

  lemma LaterRemove(order: seq<Var>, pending: set<Var>, v: Var, i: nat)
    requires v in pending && i <= |order| + 1
    ensures Remaining(order + [v], i, pending - {v}) == if i <= |order| then Remaining(order, i, pending) else pending - {v}
  {
    if i <= |order| {
      FromAppend(order, v, i);
    }
  }

  lemma DegreeSelf(neighbors: map<Var, set<Var>>, v: Var, among: set<Var>)
    requires v !in Nbrs(neighbors, v)
    ensures Degree(neighbors, v, among - {v}) == Degree(neighbors, v, among)
  {
    assert Nbrs(neighbors, v) * (among - {v}) == Nbrs(neighbors, v) * among;
  }

  // What select needs to know of the i-th removal.
  ghost predicate Selectable(neighbors: map<Var, set<Var>>, order: seq<Var>, n: nat, i: nat)
    requires i < |order|
  {
    && Degree(neighbors, order[i], From(order, i + 1)) < n
    && From(order, i) == From(order, i + 1) + {order[i]}
    && forall k :: i < k < |order| ==> order[k] != order[i]
  }

  lemma FewLaterSelectable(neighbors: map<Var, set<Var>>, order: seq<Var>, n: nat, location: map<Var, Location>, kind: RegKind)
    requires FewLater(neighbors, order, {}, n) && KindInOrder(location, order, kind)
    ensures forall i :: 0 <= i < |order| ==> Selectable(neighbors, order, n, i)
  {
    forall i | 0 <= i < |order| ensures Selectable(neighbors, order, n, i) {
      assert Remaining(order, i + 1, {}) == From(order, i + 1);
      FromStep(order, i);
      forall k | i < k < |order| ensures order[k] != order[i] {
        assert location[order[k]] == Register(kind, k) && location[order[i]] == Register(kind, i);
      }
    }
  }

  lemma FewLaterShrink(neighbors: map<Var, set<Var>>, order: seq<Var>, pending: set<Var>, n: nat, pending': set<Var>)
    requires FewLater(neighbors, order, pending, n) && pending' <= pending
    ensures FewLater(neighbors, order, pending', n)
  {
    forall i | 0 <= i < |order|
      ensures Degree(neighbors, order[i], Remaining(order, i + 1, pending')) < n
    {
      SubsetCard(Nbrs(neighbors, order[i]) * Remaining(order, i + 1, pending'), Nbrs(neighbors, order[i]) * Remaining(order, i + 1, pending));
    }
  }

  lemma InOrderRemove(fn: Function, colorOrder: map<RegKind, nat>, removed: map<RegKind, seq<Var>>, location: map<Var, Location>,
                      v: Var, kind: RegKind)
    requires InOrder(fn, colorOrder, removed, location) && v !in location
    ensures InOrder(fn, colorOrder[kind := colorOrder[kind] + 1], removed[kind := removed[kind] + [v]],
                    location[v := Register(kind, colorOrder[kind])])
  {
  }

  // ----- colours -----

  function Number(loc: Location): nat {
    match loc
    case Register(_, n) => n
    case SpillSlot(n) => n
    case _ => 0
  }

  predicate IsKind(loc: Location, kind: RegKind) {
    loc.Register? && loc.kind == kind
  }

  function Numbers(location: map<Var, Location>, vars: set<Var>): set<nat>
    requires vars <= location.Keys
  {
    set v | v in vars :: Number(location[v])
  }

  lemma {:induction false} NumbersCard(location: map<Var, Location>, vars: set<Var>)
    requires vars <= location.Keys
    ensures |Numbers(location, vars)| <= |vars|
    decreases |vars|
  {
    if v :| v in vars {
      NumbersCard(location, vars - {v});
      assert Numbers(location, vars) == Numbers(location, vars - {v}) + {Number(location[v])};
    }
  }

  // bitset_ffs minus one: the first bit below nbits that is not cleared, or -1.
  method FirstClear(cleared: set<nat>, nbits: nat) returns (bit: int)
    ensures bit >= 0 ==> bit < nbits && bit !in cleared && bit <= |cleared| && forall j :: 0 <= j < bit ==> j in cleared
    ensures bit < 0 ==> |cleared| >= nbits
  {
    ghost var seen: set<nat> := {};
    for i := 0 to nbits
      invariant seen <= cleared && |seen| == i && forall j :: j in seen <==> 0 <= j < i
    {
      SubsetCard(seen, cleared);
      if i !in cleared { return i; }
      seen := seen + {i};
    }
    SubsetCard(seen, cleared);
    bit := -1;
  }

  function AnyIn(list: seq<Var>, s: set<Var>): bool {
    list != [] && (AnyIn(list[..|list|-1], s) || list[|list|-1] in s)
  }

  // The elements of the list that come after some element of s.
  function Behind(list: seq<Var>, s: set<Var>): set<Var> {
    if list == [] then {}
    else Behind(list[..|list|-1], s) + if AnyIn(list[..|list|-1], s) then {list[|list|-1]} else {}
  }

  // Of the elements of s in the list all but the first are behind one.
  lemma {:induction false} BehindAllButFirst(list: seq<Var>, s: set<Var>)
    ensures forall v :: v in Behind(list, s) ==> v in list
    ensures !AnyIn(list, s) ==> forall v :: v in list ==> v !in s
    ensures forall u, v :: u in list && v in list && u in s - Behind(list, s) && v in s - Behind(list, s) ==> u == v
  {
    if list != [] {
      var front, last := list[..|list|-1], list[|list|-1];
      BehindAllButFirst(front, s);
      forall v | v in list ensures v in front || v == last {
        assert list == front + [last];
      }
    }
  }

  ghost predicate Symmetric(neighbors: map<Var, set<Var>>) {
    forall u, v :: u in neighbors && v in neighbors && u in neighbors[v] ==> v in neighbors[u]
  }

  ghost predicate KindInOrder(location: map<Var, Location>, order: seq<Var>, kind: RegKind) {
    && (forall i :: 0 <= i < |order| ==> order[i] in location && location[order[i]] == Register(kind, i))
    && (forall v :: v in location && IsKind(location[v], kind) ==> location[v].number < |order| && order[location[v].number] == v)
  }

  // Only the numbers of registers of one kind differ.
  ghost predicate OnlyNumbers(kind: RegKind, was: map<Var, Location>, now: map<Var, Location>) {
    && was.Keys == now.Keys
    && forall v :: v in was ==> if IsKind(was[v], kind) then IsKind(now[v], kind) else now[v] == was[v]
  }

  // Colours of one kind are below used, and neighbours have different ones.
  ghost predicate Proper(neighbors: map<Var, set<Var>>, location: map<Var, Location>, kind: RegKind, used: nat) {
    && (forall v :: v in location && IsKind(location[v], kind) ==> location[v].number < used)
    && (forall u, v :: u in location && v in location && u in Nbrs(neighbors, v) ==>
          IsKind(location[u], kind) && IsKind(location[v], kind) ==> location[u].number != location[v].number)
  }

  ghost predicate ColoredFrom(neighbors: map<Var, set<Var>>, location: map<Var, Location>, order: seq<Var>, i: nat, kind: RegKind, used: nat)
  {
    && (forall j :: i <= j < |order| ==> order[j] in location && IsKind(location[order[j]], kind) && location[order[j]].number < used)
    && (forall j, k :: i <= j < k < |order| && order[k] in Nbrs(neighbors, order[j]) ==>
                         location[order[j]].number != location[order[k]].number)
  }

  lemma ColoredStep(neighbors: map<Var, set<Var>>, location: map<Var, Location>, order: seq<Var>, i: nat, kind: RegKind,
                    used: nat, color: nat)
    requires i < |order| && forall k :: i < k < |order| ==> order[k] != order[i]
    requires ColoredFrom(neighbors, location, order, i + 1, kind, used)
    requires forall k :: i < k < |order| && order[k] in Nbrs(neighbors, order[i]) ==> location[order[k]].number != color
    ensures ColoredFrom(neighbors, location[order[i] := Register(kind, color)], order, i, kind, if color < used then used else color + 1)
  {
  }

  lemma ColoredIsProper(neighbors: map<Var, set<Var>>, location: map<Var, Location>, was: map<Var, Location>,
                        order: seq<Var>, kind: RegKind, used: nat)
    requires Symmetric(neighbors) && location.Keys == neighbors.Keys
    requires forall v :: v in neighbors ==> v !in neighbors[v]
    requires KindInOrder(was, order, kind) && OnlyNumbers(kind, was, location)
    requires ColoredFrom(neighbors, location, order, 0, kind, used)
    ensures Proper(neighbors, location, kind, used)
  {
    forall u, v | u in location && v in location && IsKind(location[u], kind) && IsKind(location[v], kind)
                  && u in Nbrs(neighbors, v)
      ensures location[u].number != location[v].number
    {
      var i, j := was[u].number, was[v].number;
      assert order[i] == u && order[j] == v;
    }
  }

  /** First fit: all numbers below a variable's are those of neighbours of the same kind, and
      the greatest number is used. */
  ghost predicate FirstFit(neighbors: map<Var, set<Var>>, location: map<Var, Location>, kind: RegKind, used: nat) {
    && (forall v, c: nat :: v in location && IsKind(location[v], kind) && c < location[v].number ==>
          TakenBy(neighbors, location, v, Register(kind, c)))
    && (used > 0 ==> exists v :: v in location && location[v] == Register(kind, used - 1))
  }

  // A neighbour of v has the location.
  ghost predicate TakenBy(neighbors: map<Var, set<Var>>, location: map<Var, Location>, v: Var, loc: Location) {
    exists u :: u in Nbrs(neighbors, v) && u in location && location[u] == loc
  }

  // First fit among the variables from position i on.
  ghost predicate FitFrom(neighbors: map<Var, set<Var>>, location: map<Var, Location>, order: seq<Var>, i: nat, kind: RegKind, used: nat) {
    && (forall j, c: nat :: i <= j < |order| && order[j] in location && c < Number(location[order[j]]) ==>
          TakenLater(neighbors, location, order, j, Register(kind, c)))
    && (used > 0 ==> exists j :: i <= j < |order| && order[j] in location && location[order[j]] == Register(kind, used - 1))
  }

  ghost predicate TakenLater(neighbors: map<Var, set<Var>>, location: map<Var, Location>, order: seq<Var>, j: nat, loc: Location)
    requires j < |order|
  {
    exists k :: j < k < |order| && order[k] in Nbrs(neighbors, order[j]) && order[k] in location && location[order[k]] == loc
  }

  lemma FitStep(neighbors: map<Var, set<Var>>, location: map<Var, Location>, order: seq<Var>, i: nat, kind: RegKind, used: nat, color: nat, near: set<Var>)
    requires i < |order| && near == Nbrs(neighbors, order[i]) * From(order, i + 1) && near <= location.Keys && forall k :: i < k < |order| ==> order[k] != order[i]
    requires FitFrom(neighbors, location, order, i + 1, kind, used)
    requires forall k :: i < k < |order| ==> order[k] in location && IsKind(location[order[k]], kind)
    requires forall c: nat :: c < color ==> c in Numbers(location, near)
    ensures FitFrom(neighbors, location[order[i] := Register(kind, color)], order, i, kind, if color < used then used else color + 1)
  {
    var location' := location[order[i] := Register(kind, color)];
    forall j, c: nat | i <= j < |order| && order[j] in location' && c < Number(location'[order[j]])
      ensures TakenLater(neighbors, location', order, j, Register(kind, c))
    {
      if j == i {
        assert c in Numbers(location, near);
        var u :| u in near && Number(location[u]) == c;
        var k :| i + 1 <= k < |order| && order[k] == u;
        assert location'[order[k]] == Register(kind, c);
      } else {
        assert TakenLater(neighbors, location, order, j, Register(kind, c));
        var k :| j < k < |order| && order[k] in Nbrs(neighbors, order[j]) && order[k] in location && location[order[k]] == Register(kind, c);
        assert location'[order[k]] == Register(kind, c);
      }
    }
    if used > 0 {
      var j :| i + 1 <= j < |order| && order[j] in location && location[order[j]] == Register(kind, used - 1);
      assert location'[order[j]] == Register(kind, used - 1);
    }
    assert location'[order[i]] == Register(kind, color);
  }

  lemma FitIsFirst(neighbors: map<Var, set<Var>>, location: map<Var, Location>, was: map<Var, Location>, order: seq<Var>, kind: RegKind, used: nat)
    requires KindInOrder(was, order, kind) && OnlyNumbers(kind, was, location) && FitFrom(neighbors, location, order, 0, kind, used)
    ensures FirstFit(neighbors, location, kind, used)
  {
    forall v, c: nat | v in location && IsKind(location[v], kind) && c < location[v].number
      ensures TakenBy(neighbors, location, v, Register(kind, c))
    {
      var j := was[v].number;
      assert order[j] == v;
      assert TakenLater(neighbors, location, order, j, Register(kind, c));
      var k :| j < k < |order| && order[k] in Nbrs(neighbors, order[j]) && order[k] in location && location[order[k]] == Register(kind, c);
    }
    if used > 0 {
      var j :| 0 <= j < |order| && order[j] in location && location[order[j]] == Register(kind, used - 1);
    }
  }

  lemma FirstFitKeeps(neighbors: map<Var, set<Var>>, was: map<Var, Location>, now: map<Var, Location>, kind: RegKind, used: nat)
    requires FirstFit(neighbors, was, kind, used) && SameOf(was, now, kind)
    ensures FirstFit(neighbors, now, kind, used)
  {
    forall v, c: nat | v in now && IsKind(now[v], kind) && c < now[v].number ensures TakenBy(neighbors, now, v, Register(kind, c)) {
      assert TakenBy(neighbors, was, v, Register(kind, c));
      var u :| u in Nbrs(neighbors, v) && u in was && was[u] == Register(kind, c);
      assert now[u] == Register(kind, c);
    }
  }

  ghost predicate AllFirstFit(neighbors: map<Var, set<Var>>, location: map<Var, Location>, scratch: nat, caller: nat, callee: nat) {
    && FirstFit(neighbors, location, RegScratch, scratch) && FirstFit(neighbors, location, RegCaller, caller)
    && FirstFit(neighbors, location, RegCallee, callee)
  }

  lemma AllFirstFitKeeps(neighbors: map<Var, set<Var>>, was: map<Var, Location>, now: map<Var, Location>, scratch: nat, caller: nat, callee: nat)
    requires AllFirstFit(neighbors, was, scratch, caller, callee) && OnlySlots(was, now)
    ensures AllFirstFit(neighbors, now, scratch, caller, callee)
  {
    hide FirstFit, OnlySlots, SameOf;
    SlotsSameOf(was, now, RegScratch);
    SlotsSameOf(was, now, RegCaller);
    SlotsSameOf(was, now, RegCallee);
    FirstFitKeeps(neighbors, was, now, RegScratch, scratch);
    FirstFitKeeps(neighbors, was, now, RegCaller, caller);
    FirstFitKeeps(neighbors, was, now, RegCallee, callee);
  }

  // The registers of one kind are the same.
  ghost predicate SameOf(was: map<Var, Location>, now: map<Var, Location>, kind: RegKind) {
    was.Keys == now.Keys && forall v :: v in was && (IsKind(was[v], kind) || IsKind(now[v], kind)) ==> now[v] == was[v]
  }

  lemma OnlyNumbersSameOf(kind: RegKind, was: map<Var, Location>, now: map<Var, Location>, other: RegKind)
    requires OnlyNumbers(kind, was, now) && kind != other
    ensures SameOf(was, now, other)
  {
  }

  // Only the offsets of spill slots differ.
  ghost predicate OnlySlots(was: map<Var, Location>, now: map<Var, Location>) {
    && was.Keys == now.Keys
    && forall v :: v in was ==> if was[v].SpillSlot? then now[v].SpillSlot? else now[v] == was[v]
  }

  ghost predicate ProperSlots(neighbors: map<Var, set<Var>>, location: map<Var, Location>, vars: set<Var>, used: nat)
    requires vars <= location.Keys
  {
    && (forall v :: v in vars && location[v].SpillSlot? ==> location[v].slot < used)
    && (forall u, v :: u in vars && v in vars && u in Nbrs(neighbors, v) ==>
          location[u].SpillSlot? && location[v].SpillSlot? ==> location[u].slot != location[v].slot)
  }

  // First fit among the spill slots of vars.
  ghost predicate FirstSlots(neighbors: map<Var, set<Var>>, location: map<Var, Location>, vars: set<Var>, used: nat)
    requires vars <= location.Keys
  {
    && (forall v, c: nat :: v in vars && location[v].SpillSlot? && c < location[v].slot ==> SlotTaken(neighbors, location, vars, v, c))
    && (used > 0 ==> exists v :: v in vars && location[v] == SpillSlot(used - 1))
  }

  ghost predicate SlotTaken(neighbors: map<Var, set<Var>>, location: map<Var, Location>, vars: set<Var>, v: Var, c: nat)
    requires vars <= location.Keys
  {
    exists u :: u in Nbrs(neighbors, v) && u in vars && location[u] == SpillSlot(c)
  }

  lemma FirstSlotsStep(neighbors: map<Var, set<Var>>, location: map<Var, Location>, vars: set<Var>, used: nat, v: Var, color: nat, near: set<Var>)
    requires vars <= location.Keys && v !in vars && near == Nbrs(neighbors, v) * vars && FirstSlots(neighbors, location, vars, used)
    requires forall u :: u in vars ==> location[u].SpillSlot?
    requires forall c: nat :: c < color ==> c in Numbers(location, near)
    ensures FirstSlots(neighbors, location[v := SpillSlot(color)], vars + {v}, if color < used then used else color + 1)
  {
    var location' := location[v := SpillSlot(color)];
    forall w, c: nat | w in vars + {v} && location'[w].SpillSlot? && c < location'[w].slot
      ensures SlotTaken(neighbors, location', vars + {v}, w, c)
    {
      if w == v {
        assert c in Numbers(location, near);
        var u :| u in near && Number(location[u]) == c;
        assert location'[u] == SpillSlot(c);
      } else {
        assert SlotTaken(neighbors, location, vars, w, c);
        var u :| u in Nbrs(neighbors, w) && u in vars && location[u] == SpillSlot(c);
        assert location'[u] == SpillSlot(c);
      }
    }
    assert location'[v] == SpillSlot(color);
    if used > 0 {
      var u :| u in vars && location[u] == SpillSlot(used - 1);
      assert location'[u] == SpillSlot(used - 1);
    }
  }

  lemma FirstSlotsAll(neighbors: map<Var, set<Var>>, location: map<Var, Location>, vars: set<Var>, used: nat)
    requires vars <= location.Keys && FirstSlots(neighbors, location, vars, used)
    requires forall v :: v in location && location[v].SpillSlot? ==> v in vars
    ensures FirstSlots(neighbors, location, location.Keys, used)
    ensures ProperSlots(neighbors, location, vars, used) ==> ProperSlots(neighbors, location, location.Keys, used)
  {
    forall v, c: nat | v in location && location[v].SpillSlot? && c < location[v].slot
      ensures SlotTaken(neighbors, location, location.Keys, v, c)
    {
      assert SlotTaken(neighbors, location, vars, v, c);
    }
  }

  lemma NoSlots(neighbors: map<Var, set<Var>>, location: map<Var, Location>)
    ensures ProperSlots(neighbors, location, {}, 0) && FirstSlots(neighbors, location, {}, 0)
  {
  }

  lemma SlotsSameOf(was: map<Var, Location>, now: map<Var, Location>, kind: RegKind)
    requires OnlySlots(was, now)
    ensures SameOf(was, now, kind)
  {
  }

  lemma ProperSlotsStep(neighbors: map<Var, set<Var>>, location: map<Var, Location>, vars: set<Var>, used: nat, v: Var, color: nat)
    requires vars <= location.Keys == neighbors.Keys && v in location && v !in vars
    requires Symmetric(neighbors) && v !in neighbors[v]
    requires ProperSlots(neighbors, location, vars, used)
    requires forall u :: u in vars * neighbors[v] ==> Number(location[u]) != color
    ensures ProperSlots(neighbors, location[v := SpillSlot(color)], vars + {v}, if color < used then used else color + 1)
  {
    var location' := location[v := SpillSlot(color)];
    forall u, w | u in vars + {v} && w in vars + {v} && u in Nbrs(neighbors, w)
                  && location'[u].SpillSlot? && location'[w].SpillSlot?
      ensures location'[u].slot != location'[w].slot
    {
      if u == v {
        assert w in vars * neighbors[v];
      } else if w == v {
        assert u in vars * neighbors[v];
      }
    }
  }

  lemma SpillsFit(locals: seq<Var>, spilled: set<Var>, neighbors: map<Var, set<Var>>, v: Var)
    requires spilled <= Elems(locals) && v in locals && v !in spilled
    ensures Degree(neighbors, v, spilled) < |locals|
  {
    ElemsCard(locals);
    SubsetCard(Nbrs(neighbors, v) * spilled, spilled);
    SubsetCard(spilled, Elems(locals) - {v});
  }

  // ----- what an allocation must provide -----

  // Each variable is kept where nothing it outlives can clobber it.
  ghost predicate SafeKinds(fn: Function, calls: set<Var>, scratch: set<Var>, location: map<Var, Location>) {
    forall v :: v in location ==>
      match location[v]
      case Register(RegScratch, _) => v !in scratch && v !in calls
      case Register(RegCaller, _) => v !in calls
      case Register(RegCallee, _) => true
      case SpillSlot(_) => v in fn.locals
      case ArgumentSlot(w) => v == w
      case ClosureSlot(w) => v == w
  }

  /** Every variable has a location, variables live together have different
      ones, and what an instruction clobbers holds nothing that outlives it. */
  ghost predicate Allocated(fn: Function, ins: seq<set<Var>>, outs: seq<set<Var>>, location: map<Var, Location>)
    requires |fn.g.blocks| == |ins| == |outs|
  {
    && location.Keys == Elems(fn.Vars())
    && (forall u, v :: u in location && v in location && u != v && Together(fn.g, ins, outs, u, v) ==>
          location[u] != location[v])
    && SafeKinds(fn, ScanBlocks(CallSurvivors, fn.g, outs, |outs|), ScanBlocks(ScratchSurvivors, fn.g, outs, |outs|), location)
  }

  // Where a colouring loop starts: the located variables, the removal orders, and the variables to locate.
  datatype Start = Start(keys: set<Var>, removed: map<RegKind, seq<Var>>, vars: set<Var>)

  /** How far a colouring loop has come: of start.vars the variables in left
      have no location yet, and only the removal order of kind has changed. */
  ghost predicate Progress(start: Start, kind: RegKind, left: set<Var>, removed: map<RegKind, seq<Var>>, located: set<Var>) {
    && kind in removed && removed.Keys == start.removed.Keys
    && left <= start.vars && located == start.keys + (start.vars - left)
    && (forall k :: k in removed && k != kind ==> removed[k] == start.removed[k])
    && (forall v :: v in removed[kind] ==> v in start.removed[kind] || v in start.vars)
  }

  lemma ProgressRemove(start: Start, kind: RegKind, left: set<Var>, removed: map<RegKind, seq<Var>>, located: set<Var>, v: Var)
    requires Progress(start, kind, left, removed, located) && v in left
    ensures Progress(start, kind, left - {v}, removed[kind := removed[kind] + [v]], located + {v})
  {
  }

  lemma AfterRemove(fn: Function, neighbors: map<Var, set<Var>>, start: Start, kind: RegKind, n: nat, v: Var, left: set<Var>,
                    order0: map<RegKind, nat>, removed0: map<RegKind, seq<Var>>, location0: map<Var, Location>,
                    order1: map<RegKind, nat>, removed1: map<RegKind, seq<Var>>, location1: map<Var, Location>)
    requires InOrder(fn, order0, removed0, location0) && FewLater(neighbors, removed0[kind], left, n)
    requires Progress(start, kind, left, removed0, location0.Keys) && location0.Keys <= neighbors.Keys
    requires v in left && v in neighbors && v !in location0 && v !in Nbrs(neighbors, v) && Degree(neighbors, v, left) < n
    requires order1 == order0[kind := order0[kind] + 1] && removed1 == removed0[kind := removed0[kind] + [v]]
    requires location1 == location0[v := Register(kind, order0[kind])]
    ensures InOrder(fn, order1, removed1, location1) && FewLater(neighbors, removed1[kind], left - {v}, n)
    ensures location1.Keys == location0.Keys + {v} && location1.Keys <= neighbors.Keys
    ensures Progress(start, kind, left - {v}, removed1, location1.Keys)
  {
    assert kind in removed0 && kind in order0;
    hide InOrder, FewLater, Progress, Degree;
    FewLaterRemove(neighbors, removed0[kind], left, n, v);
    InOrderRemove(fn, order0, removed0, location0, v, kind);
    ProgressRemove(start, kind, left, removed0, location0.Keys, v);
    assert location1.Keys == location0.Keys + {v};
  }

  // The variables that have left are among the removed.
  ghost predicate AlsoRemoved(before: map<RegKind, seq<Var>>, after: map<RegKind, seq<Var>>, kind: RegKind, left: set<Var>, left': set<Var>) {
    && kind in before && kind in after
    && (forall v :: v in before[kind] ==> v in after[kind])
    && (forall v :: v in left && v !in left' ==> v in after[kind])
  }

  lemma OneRemoved(before: map<RegKind, seq<Var>>, after: map<RegKind, seq<Var>>, kind: RegKind, v: Var, left: set<Var>)
    requires kind in before && after == before[kind := before[kind] + [v]]
    ensures AlsoRemoved(before, after, kind, left, left - {v})
  {
  }

  lemma OnlyNumbersStep(kind: RegKind, was: map<Var, Location>, now: map<Var, Location>, v: Var, color: nat)
    requires OnlyNumbers(kind, was, now) && v in now && IsKind(now[v], kind)
    ensures OnlyNumbers(kind, was, now[v := Register(kind, color)])
  {
  }

  /** v lies in some set of variables of the group each of which has at least n neighbours
      in that set. */
  ghost predicate Crowded(neighbors: map<Var, set<Var>>, group: set<Var>, n: nat, v: Var) {
    exists s: set<Var> :: v in s && s <= group && forall u :: u in s ==> |Nbrs(neighbors, u) * s| >= n
  }

  // Nobody is crowded in a group whose variables all have fewer neighbours in it.
  lemma FewNeighbors(neighbors: map<Var, set<Var>>, group: set<Var>, n: nat)
    requires forall u :: u in group ==> |Nbrs(neighbors, u) * group| < n
    ensures forall v :: !Crowded(neighbors, group, n, v)
  {
    forall v ensures !Crowded(neighbors, group, n, v) {
      if s: set<Var> :| v in s && s <= group && forall u :: u in s ==> |Nbrs(neighbors, u) * s| >= n {
        SubsetCard(Nbrs(neighbors, v) * s, Nbrs(neighbors, v) * group);
      }
    }
  }

  // A group that cannot be simplified any further is crowded.
  lemma StuckIsCrowded(neighbors: map<Var, set<Var>>, group: set<Var>, n: nat, left: set<Var>)
    requires left <= group && forall v :: v in left ==> Degree(neighbors, v, left) >= n
    ensures forall v :: v in left ==> Crowded(neighbors, group, n, v)
  {
    forall v | v in left ensures Crowded(neighbors, group, n, v) {
      forall u | u in left ensures |Nbrs(neighbors, u) * left| >= n {
        assert Degree(neighbors, u, left) >= n;
      }
    }
  }

  // What has left the group has been removed with a register to come, or was crowded.
  ghost predicate WithRegister(neighbors: map<Var, set<Var>>, group: set<Var>, n: nat, taken: seq<Var>, left: set<Var>) {
    forall v :: v in group && v !in left ==> v in taken || Crowded(neighbors, group, n, v)
  }

  lemma WithRegisterStep(neighbors: map<Var, set<Var>>, group: set<Var>, n: nat, taken: seq<Var>, left: set<Var>,
                         taken': seq<Var>, left': set<Var>)
    requires WithRegister(neighbors, group, n, taken, left) && forall v :: v in taken ==> v in taken'
    requires forall v :: v in left && v !in left' ==> v in taken' || Crowded(neighbors, group, n, v)
    ensures WithRegister(neighbors, group, n, taken', left')
  {
  }

  // Every register stays one of its kind.
  ghost predicate SameKinds(was: map<Var, Location>, now: map<Var, Location>) {
    was.Keys == now.Keys && forall v, kind :: v in was && IsKind(was[v], kind) ==> IsKind(now[v], kind)
  }

  lemma SameKindsStart(location: map<Var, Location>)
    ensures SameKinds(location, location)
  {
  }

  lemma OnlyNumbersSameKinds(first: map<Var, Location>, kind: RegKind, was: map<Var, Location>, now: map<Var, Location>)
    requires SameKinds(first, was) && OnlyNumbers(kind, was, now)
    ensures SameKinds(first, now)
  {
  }

  datatype Groups = Groups(notspilt: set<Var>, spilt: set<Var>, locals: set<Var>, temps: set<Var>)

  // Temps and locals after some temps were moved to the locals.
  ghost predicate Split(gr: Groups, temps: set<Var>, locals: set<Var>) {
    temps <= gr.temps && temps !! locals && temps + locals == gr.temps + gr.locals
  }

  /** All temps but the demoted ones have scratch registers, the others and the locals
      caller-saved ones, and survivors of calls callee-saved ones; all except variables that
      are crowded in their group. */
  ghost predicate Used(neighbors: map<Var, set<Var>>, location: map<Var, Location>, gr: Groups, demoted: set<Var>,
                       nscratch: nat, ncaller: nat, ncallee: nat) {
    && demoted <= gr.temps && gr.temps + gr.locals + gr.notspilt + gr.spilt <= location.Keys
    && (forall v :: v in gr.temps - demoted ==> IsKind(location[v], RegScratch))
    && (forall v :: v in demoted ==> Crowded(neighbors, gr.temps, nscratch, v))
    && (forall v :: v in gr.locals + demoted ==>
          IsKind(location[v], RegCaller) || Crowded(neighbors, gr.locals + demoted, ncaller, v))
    && (forall v :: v in gr.notspilt + gr.spilt ==>
          IsKind(location[v], RegCallee) || Crowded(neighbors, gr.notspilt + gr.spilt, ncallee, v))
  }

  lemma UsedKeeps(neighbors: map<Var, set<Var>>, was: map<Var, Location>, now: map<Var, Location>, gr: Groups, demoted: set<Var>,
                  nscratch: nat, ncaller: nat, ncallee: nat)
    requires Used(neighbors, was, gr, demoted, nscratch, ncaller, ncallee) && SameKinds(was, now)
    ensures Used(neighbors, now, gr, demoted, nscratch, ncaller, ncallee)
  {
  }

  lemma UsedFromRemoved(fn: Function, neighbors: map<Var, set<Var>>, order: map<RegKind, nat>, removed: map<RegKind, seq<Var>>,
                        location: map<Var, Location>, gr: Groups, demoted: set<Var>, nscratch: nat, ncaller: nat, ncallee: nat)
    requires InOrder(fn, order, removed, location)
    requires demoted <= gr.temps && gr.temps + gr.locals + gr.notspilt + gr.spilt <= location.Keys
    requires forall v :: v in gr.temps - demoted ==> v in removed[RegScratch]
    requires forall v :: v in demoted ==> Crowded(neighbors, gr.temps, nscratch, v)
    requires forall v :: v in gr.locals + demoted ==> v in removed[RegCaller] || Crowded(neighbors, gr.locals + demoted, ncaller, v)
    requires forall v :: v in gr.notspilt + gr.spilt ==>
               v in removed[RegCallee] || Crowded(neighbors, gr.notspilt + gr.spilt, ncallee, v)
    ensures Used(neighbors, location, gr, demoted, nscratch, ncaller, ncallee)
  {
    hide Crowded;
    forall kind, v | v in removed[kind] ensures v in location && IsKind(location[v], kind) {
      var i :| 0 <= i < |removed[kind]| && removed[kind][i] == v;
    }
    hide InOrder;
  }

  lemma SlotsSameKinds(first: map<Var, Location>, was: map<Var, Location>, now: map<Var, Location>)
    requires SameKinds(first, was) && OnlySlots(was, now)
    ensures SameKinds(first, now)
  {
  }

  lemma SplitStep(gr: Groups, temps: set<Var>, locals: set<Var>, v: Var)
    requires Split(gr, temps, locals) && v in temps
    ensures Split(gr, temps - {v}, locals + {v})
  {
    assert temps - {v} + (locals + {v}) == temps + locals;
  }

  lemma InOrderKind(fn: Function, colorOrder: map<RegKind, nat>, removed: map<RegKind, seq<Var>>, location: map<Var, Location>, kind: RegKind)
    requires InOrder(fn, colorOrder, removed, location)
    ensures KindInOrder(location, removed[kind], kind)
  {
    forall v | v in location && IsKind(location[v], kind)
      ensures location[v].number < |removed[kind]| && removed[kind][location[v].number] == v
    {
      assert Placed(fn, removed, v, location[v]);
    }
  }

  lemma SafeFromOrder(fn: Function, colorOrder: map<RegKind, nat>, removed: map<RegKind, seq<Var>>, location: map<Var, Location>,
                      calls: set<Var>, scratch: set<Var>)
    requires InOrder(fn, colorOrder, removed, location) && location.Keys == Elems(fn.Vars())
    requires forall v :: v in removed[RegScratch] ==> v !in scratch && v !in calls
    requires forall v :: v in removed[RegCaller] ==> v !in calls
    ensures SafeKinds(fn, calls, scratch, location)
  {
    forall v | v in location
      ensures match location[v]
              case Register(RegScratch, _) => v !in scratch && v !in calls
              case Register(RegCaller, _) => v !in calls
              case Register(RegCallee, _) => true
              case SpillSlot(_) => v in fn.locals
              case ArgumentSlot(w) => v == w
              case ClosureSlot(w) => v == w
    {
      assert Placed(fn, removed, v, location[v]);
      assert v in fn.Vars();
    }
  }

  lemma InitialOrder(fn: Function)
    requires fn.nfixed <= |fn.args|
    ensures InOrder(fn, map[RegScratch := 0, RegCaller := 0, RegCallee := 0],
                    map[RegScratch := [], RegCaller := [], RegCallee := []], map[])
  {
    var zero := map[RegScratch := 0, RegCaller := 0, RegCallee := 0];
    var none: map<RegKind, seq<Var>> := map[RegScratch := [], RegCaller := [], RegCallee := []];
    forall kind ensures kind in zero && kind in none && zero[kind] == |none[kind]| {
      match kind case RegScratch => case RegCaller => case RegCallee =>
    }
  }

  // Choosing colours for one kind leaves the other kinds and the safety of every kind alone.
  lemma OnlyNumbersKeeps(fn: Function, neighbors: map<Var, set<Var>>, was: map<Var, Location>, now: map<Var, Location>,
                         kind: RegKind, other: RegKind, order: seq<Var>, used: nat, calls: set<Var>, scratch: set<Var>)
    requires OnlyNumbers(kind, was, now) && kind != other
    ensures KindInOrder(was, order, other) ==> KindInOrder(now, order, other)
    ensures Proper(neighbors, was, other, used) ==> Proper(neighbors, now, other, used)
    ensures SafeKinds(fn, calls, scratch, was) ==> SafeKinds(fn, calls, scratch, now)
  {
    assert forall v :: v in was ==> (IsKind(was[v], other) <==> IsKind(now[v], other));
  }

  lemma OnlySlotsKeeps(fn: Function, neighbors: map<Var, set<Var>>, was: map<Var, Location>, now: map<Var, Location>,
                       kind: RegKind, used: nat, calls: set<Var>, scratch: set<Var>)
    requires OnlySlots(was, now)
    ensures Proper(neighbors, was, kind, used) ==> Proper(neighbors, now, kind, used)
    ensures SafeKinds(fn, calls, scratch, was) ==> SafeKinds(fn, calls, scratch, now)
  {
    assert forall v :: v in was ==> (IsKind(was[v], kind) <==> IsKind(now[v], kind));
  }

  lemma AllocatedFrom(fn: Function, ins: seq<set<Var>>, outs: seq<set<Var>>, neighbors: map<Var, set<Var>>,
                      location: map<Var, Location>, scratch: nat, caller: nat, callee: nat, spill: nat)
    requires |fn.g.blocks| == |ins| == |outs| && location.Keys == Elems(fn.Vars()) == neighbors.Keys
    requires forall v, u :: v in neighbors ==> (u in neighbors[v] <==> u != v && Together(fn.g, ins, outs, u, v))
    requires SafeKinds(fn, ScanBlocks(CallSurvivors, fn.g, outs, |outs|), ScanBlocks(ScratchSurvivors, fn.g, outs, |outs|), location)
    requires Proper(neighbors, location, RegScratch, scratch) && Proper(neighbors, location, RegCaller, caller)
    requires Proper(neighbors, location, RegCallee, callee) && ProperSlots(neighbors, location, location.Keys, spill)
    ensures Allocated(fn, ins, outs, location)
  {
    forall u, v | u in location && v in location && u != v && Together(fn.g, ins, outs, u, v)
      ensures location[u] != location[v]
    {
      assert u in Nbrs(neighbors, v);
      match location[u]
      case Register(kind, n) =>
        if IsKind(location[v], kind) {
          match kind case RegScratch => case RegCaller => case RegCallee =>
        }
      case _ =>
    }
  }

  class Allocator {
    const fn: Function
    const ins: seq<set<Var>>
    const outs: seq<set<Var>>
    const nscratch: nat
    const ncaller: nat
    const ncallee: nat

    var neighbors: map<Var, set<Var>>
    var location: map<Var, Location>
    var colorOrder: map<RegKind, nat>
    var changes: bool
    ghost var removed: map<RegKind, seq<Var>>

    constructor (fn: Function, ins: seq<set<Var>>, outs: seq<set<Var>>, nscratch: nat, ncaller: nat, ncallee: nat)
      ensures this.fn == fn && this.ins == ins && this.outs == outs
      ensures this.nscratch == nscratch && this.ncaller == ncaller && this.ncallee == ncallee
      ensures location == map[] && colorOrder == map[RegScratch := 0, RegCaller := 0, RegCallee := 0]
      ensures removed == map[RegScratch := [], RegCaller := [], RegCallee := []]
    {
      this.fn, this.ins, this.outs := fn, ins, outs;
      this.nscratch, this.ncaller, this.ncallee := nscratch, ncaller, ncallee;
      neighbors, location, changes := map[], map[], false;
      colorOrder := map[RegScratch := 0, RegCaller := 0, RegCallee := 0];
      removed := map[RegScratch := [], RegCaller := [], RegCallee := []];
    }

    ghost predicate Flow() {
      fn.Valid() && LiveSolution(fn.g, ins, outs)
    }

    ghost predicate Shape() {
      |fn.g.blocks| == |ins| == |outs|
    }

    function Registers(kind: RegKind): nat {
      match kind
      case RegScratch => nscratch
      case RegCaller => ncaller
      case RegCallee => ncallee
    }

    ghost predicate NeighborsAre(cliques: set<set<Var>>)
      reads this`neighbors
    {
      && neighbors.Keys == Elems(fn.Vars())
      && forall v, u :: v in neighbors ==> (u in neighbors[v] <==> InClique(cliques, u, v))
    }

    // Adds edges between all variables of one live set.
    method AddInterferences(live: set<Var>, ghost cliques: set<set<Var>>)
      requires NeighborsAre(cliques)
      modifies this`neighbors
      ensures NeighborsAre(cliques + {live})
    {
      neighbors := map v | v in neighbors :: if v in live then neighbors[v] + live else neighbors[v];
      forall v, u | v in neighbors
        ensures u in neighbors[v] <==> InClique(cliques + {live}, u, v)
      {
        if InClique(cliques + {live}, u, v) {
          var c :| c in cliques + {live} && u in c && v in c;
          if c != live { assert c in cliques; }
        }
        if InClique(cliques, u, v) {
          var c :| c in cliques && u in c && v in c;
          assert c in cliques + {live};
        }
        assert live in cliques + {live};
      }
    }

    // Edges of the interference graph: distinct variables live together somewhere.
    ghost predicate Interference()
      requires Shape()
      reads this`neighbors
    {
      && neighbors.Keys == Elems(fn.Vars())
      && forall v, u :: v in neighbors ==> (u in neighbors[v] <==> u != v && Together(fn.g, ins, outs, u, v))
    }

    // Scans one block in reverse, then adds the variables live on entry to it.
    method BlockInterferences(b: nat)
      requires Shape() && b < |ins| && NeighborsAre(Cliques(fn.g, ins, outs, b))
      modifies this`neighbors
      ensures NeighborsAre(Cliques(fn.g, ins, outs, b + 1))
    {
      var code := fn.g.blocks[b].code;
      var out := outs[b];
      ghost var before := Cliques(fn.g, ins, outs, b);
      assert before + Scan(CliqueAt, code, |code|, outs[b]) == before;
      for k := |code| downto 0
        invariant out == LiveBefore(code, k, outs[b])
        invariant NeighborsAre(before + Scan(CliqueAt, code, k, outs[b]))
      {
        var live := out + DefSet(code[k]);
        ghost var cliques := before + Scan(CliqueAt, code, k + 1, outs[b]);
        AddInterferences(live, cliques);
        assert cliques + {live} == before + Scan(CliqueAt, code, k, outs[b]);
        out := (out - DefSet(code[k])) + code[k].args;
      }
      AddInterferences(ins[b], before + Scan(CliqueAt, code, 0, outs[b]));
      CliquesStep(fn.g, ins, outs, b);
    }

    method MakeIgraph()
      requires Shape()
      modifies this`neighbors
      ensures Interference()
    {
      neighbors := map v | v in fn.Vars() :: {};
      assert Cliques(fn.g, ins, outs, 0) == {};
      for b := 0 to |fn.g.blocks|
        invariant NeighborsAre(Cliques(fn.g, ins, outs, b))
      {
        BlockInterferences(b);
      }
      forall v, u | v in neighbors
        ensures u in neighbors[v] <==> Together(fn.g, ins, outs, u, v)
      {
        TogetherIsClique(fn.g, ins, outs, u, v);
      }
      neighbors := map v | v in neighbors :: neighbors[v] - {v};
    }

    // ----- grouping -----

    function SurviveCalls(): set<Var>
      requires |fn.g.blocks| == |outs|
    {
      ScanBlocks(CallSurvivors, fn.g, outs, |outs|)
    }

    function SurviveScratch(): set<Var>
      requires |fn.g.blocks| == |outs|
    {
      ScanBlocks(ScratchSurvivors, fn.g, outs, |outs|)
    }

    // The groups once the survivors in calls and scratch have been seen.
    ghost predicate Sorted(gr: Groups, calls: set<Var>, scratch: set<Var>)
      requires fn.nfixed <= |fn.args|
    {
      && gr.temps == Elems(fn.Vars()) - calls - scratch
      && gr.locals == Elems(fn.Vars()) * scratch - calls
      && gr.notspilt + gr.spilt == calls
      && gr.notspilt !! gr.spilt
      && (forall v :: v in gr.spilt ==> fn.AlreadySpilt(v))
      && (forall v :: v in gr.notspilt ==> !fn.AlreadySpilt(v))
    }

    method GroupInstruction(code: seq<Instr>, k: nat, liveIn: set<Var>, liveOut: set<Var>, gr: Groups,
                            ghost out: set<Var>, ghost calls: set<Var>, ghost scratch: set<Var>)
      returns (gr': Groups)
      requires fn.nfixed <= |fn.args| && k < |code| && Sorted(gr, calls, scratch)
      requires liveIn == LiveBefore(code, k, out) && liveOut == LiveAfter(code, k, out)
      ensures Sorted(gr', calls + CallSurvivors(code, k, out), scratch + ScratchSurvivors(code, k, out))
    {
      match code[k].regs
      case NoRegs =>
        gr' := gr;
      case Caller =>
        var survive := liveOut - DefSet(code[k]);
        gr' := Groups(gr.notspilt + (set v | v in survive && !fn.AlreadySpilt(v)),
                      gr.spilt + (set v | v in survive && fn.AlreadySpilt(v)),
                      gr.locals - survive, gr.temps - survive);
      case EarlyScratch =>
        gr' := gr.(locals := gr.locals + (gr.temps * liveIn), temps := gr.temps - liveIn);
      case Scratch =>
        var survives := liveIn * liveOut - DefSet(code[k]);
        gr' := gr.(locals := gr.locals + (gr.temps * survives), temps := gr.temps - survives);
    }

    method GroupBlock(b: nat, gr: Groups, ghost calls: set<Var>, ghost scratch: set<Var>) returns (gr': Groups)
      requires Shape() && fn.nfixed <= |fn.args| && b < |outs| && Sorted(gr, calls, scratch)
      ensures Sorted(gr', calls + Scan(CallSurvivors, fn.g.blocks[b].code, 0, outs[b]),
                     scratch + Scan(ScratchSurvivors, fn.g.blocks[b].code, 0, outs[b]))
    {
      var code := fn.g.blocks[b].code;
      var out := outs[b];
      gr' := gr;
      assert calls + {} == calls && scratch + {} == scratch;
      for k := |code| downto 0
        invariant out == LiveBefore(code, k, outs[b])
        invariant Sorted(gr', calls + Scan(CallSurvivors, code, k, outs[b]), scratch + Scan(ScratchSurvivors, code, k, outs[b]))
      {
        ghost var calls', scratch' := calls + Scan(CallSurvivors, code, k + 1, outs[b]), scratch + Scan(ScratchSurvivors, code, k + 1, outs[b]);
        var liveOut := out + DefSet(code[k]);
        out := (out - DefSet(code[k])) + code[k].args;
        gr' := GroupInstruction(code, k, out, liveOut, gr', outs[b], calls', scratch');
        assert calls' + CallSurvivors(code, k, outs[b]) == calls + Scan(CallSurvivors, code, k, outs[b]);
        assert scratch' + ScratchSurvivors(code, k, outs[b]) == scratch + Scan(ScratchSurvivors, code, k, outs[b]);
      }
    }

    // The first argument or closure variable among the temps is the only one that stays a temp.
    method Migrate(gr: Groups) returns (gr': Groups)
      ensures gr'.notspilt == gr.notspilt && gr'.spilt == gr.spilt
      ensures gr'.temps <= gr.temps && gr'.locals == gr.locals + (gr.temps - gr'.temps)
      ensures gr'.temps == gr.temps - Behind(fn.args + fn.closures, gr.temps)
      ensures forall v :: v in gr.temps - gr'.temps ==> v in fn.args + fn.closures
      ensures forall u, v :: u in gr'.temps && v in gr'.temps && u in fn.args + fn.closures && v in fn.args + fn.closures ==> u == v
    {
      var starts := fn.args + fn.closures;
      var any := false;
      gr' := gr;
      for i := 0 to |starts|
        invariant gr'.notspilt == gr.notspilt && gr'.spilt == gr.spilt
        invariant gr'.temps == gr.temps - Behind(starts[..i], gr.temps) && gr'.locals == gr.locals + (gr.temps - gr'.temps)
        invariant any <==> AnyIn(starts[..i], gr.temps)
      {
        var v := starts[i];
        assert starts[..i + 1][..i] == starts[..i];
        if v in gr'.temps {
          if !any {
            any := true;
          } else {
            gr' := gr'.(temps := gr'.temps - {v}, locals := gr'.locals + {v});
          }
        } else if v in gr.temps {
          BehindAllButFirst(starts[..i], gr.temps);
        }
      }
      assert starts[..|starts|] == starts;
      BehindAllButFirst(starts, gr.temps);
    }

    /** The four groups: survivors of calls, already spilt or not; the other
        variables that survive use of the scratch registers; and the rest, except
        that migration may move an argument or closure variable from temps to locals. */
    ghost predicate Grouped(gr: Groups)
      requires fn.nfixed <= |fn.args| && |fn.g.blocks| == |outs|
    {
      var vars := Elems(fn.Vars());
      && gr.notspilt + gr.spilt == vars * SurviveCalls() && gr.notspilt !! gr.spilt
      && (forall v :: v in gr.spilt ==> fn.AlreadySpilt(v))
      && (forall v :: v in gr.notspilt ==> !fn.AlreadySpilt(v))
      && gr.locals + gr.temps == vars - SurviveCalls() && gr.locals !! gr.temps
      && gr.temps !! SurviveScratch()
      && (forall v :: v in gr.locals ==> v in SurviveScratch() || v in fn.args + fn.closures)
    }

    method GroupVariables() returns (gr: Groups)
      requires Shape() && fn.nfixed <= |fn.args|
      ensures Grouped(gr)
    {
      gr := Groups({}, {}, {}, Elems(fn.Vars()));
      for b := 0 to |outs|
        invariant Sorted(gr, ScanBlocks(CallSurvivors, fn.g, outs, b), ScanBlocks(ScratchSurvivors, fn.g, outs, b))
      {
        gr := GroupBlock(b, gr, ScanBlocks(CallSurvivors, fn.g, outs, b), ScanBlocks(ScratchSurvivors, fn.g, outs, b));
      }
      gr := Migrate(gr);
      var vars := Elems(fn.Vars());
      gr := gr.(notspilt := gr.notspilt * vars, spilt := gr.spilt * vars);
    }

    // ----- simplify -----

    ghost predicate Ordered()
      reads this
    {
      && neighbors.Keys == Elems(fn.Vars())
      && location.Keys <= neighbors.Keys
      && InOrder(fn, colorOrder, removed, location)
    }

    ghost predicate Simplified(kind: RegKind, pending: set<Var>)
      requires kind in removed
      reads this`removed, this`neighbors
    {
      FewLater(neighbors, removed[kind], pending, Registers(kind))
    }

    // The variables of vars that have no location yet are those of the bitset bvars.
    ghost predicate Pending(vars: seq<Var>, bvars: set<Var>)
      reads this`location
    {
      forall v :: v in bvars <==> v in vars && v !in location
    }

    method FindColorable(vars: seq<Var>, bvars: set<Var>, nregs: nat) returns (v: Option<Var>)
      requires forall u :: u in vars ==> u in neighbors
      ensures v.Some? ==> v.value in vars && v.value !in location && Degree(neighbors, v.value, bvars) < nregs
      ensures v.None? ==> forall u :: u in vars && u !in location ==> Degree(neighbors, u, bvars) >= nregs
    {
      for i := 0 to |vars|
        invariant forall j :: 0 <= j < i && vars[j] !in location ==> Degree(neighbors, vars[j], bvars) >= nregs
      {
        if vars[i] !in location && Degree(neighbors, vars[i], bvars) < nregs {
          return Some(vars[i]);
        }
      }
      v := None;
    }

    ghost predicate Since(start: Start, kind: RegKind, left: set<Var>)
      reads this
    {
      && Ordered() && kind in removed && Simplified(kind, left)
      && Progress(start, kind, left, removed, location.Keys)
    }

    // One removal: v takes the next number of its kind.
    method Remove(v: Var, left: set<Var>, kind: RegKind, ghost start: Start) returns (left': set<Var>)
      requires Since(start, kind, left) && v in left && v in neighbors && v !in location
      requires Degree(neighbors, v, left) < Registers(kind) && v !in neighbors[v]
      modifies this`location, this`colorOrder, this`removed, this`changes
      ensures Since(start, kind, left') && left' == left - {v} && changes && location.Keys == old(location.Keys) + {v}
      ensures kind in old(removed) && removed == old(removed)[kind := old(removed)[kind] + [v]]
    {
      hide FewLater, Progress, Degree, Elems;
      ghost var order0, removed0, location0 := colorOrder, removed, location;
      assert kind in colorOrder;
      hide InOrder;
      changes := true;
      location := location[v := Register(kind, colorOrder[kind])];
      left' := left - {v};
      removed := removed[kind := removed[kind] + [v]];
      colorOrder := colorOrder[kind := colorOrder[kind] + 1];
      AfterRemove(fn, neighbors, start, kind, Registers(kind), v, left, order0, removed0, location0, colorOrder, removed, location);
    }

    // Removes one variable with fewer neighbours than there are registers, if there is one.
    method ColorOne(vars: seq<Var>, left: set<Var>, kind: RegKind, ghost start: Start) returns (left': set<Var>, found: bool)
      requires Since(start, kind, left) && Pending(vars, left)
      requires forall v :: v in vars ==> v in neighbors && v !in neighbors[v]
      modifies this`location, this`colorOrder, this`removed, this`changes
      ensures Since(start, kind, left') && Pending(vars, left') && left' <= left
      ensures found <==> left' != left
      ensures !found ==> forall v :: v in left' ==> Degree(neighbors, v, left') >= Registers(kind)
      ensures changes <==> old(changes) || found
      ensures AlsoRemoved(old(removed), removed, kind, left, left')
    {
      var v := FindColorable(vars, left, Registers(kind));
      left', found := left, v.Some?;
      if found {
        ghost var before := removed;
        left' := Remove(v.value, left, kind, start);
        OneRemoved(before, removed, kind, v.value, left);
      }
    }

    /** Colours what it can of vars: returns whether nothing is left. */
    method ColorGraph(vars: seq<Var>, left: set<Var>, kind: RegKind, ghost start: Start) returns (left': set<Var>, done: bool)
      requires Since(start, kind, left) && Pending(vars, left)
      requires forall v :: v in vars ==> v in neighbors && v !in neighbors[v]
      modifies this`location, this`colorOrder, this`removed, this`changes
      ensures Since(start, kind, left') && Pending(vars, left') && left' <= left && done == (left' == {})
      ensures forall v :: v in left' ==> Degree(neighbors, v, left') >= Registers(kind)
      ensures changes <==> old(changes) || left' != left
      ensures AlsoRemoved(old(removed), removed, kind, left, left')
    {
      left' := left;
      var found := true;
      while found
        invariant Since(start, kind, left') && Pending(vars, left') && left' <= left
        invariant !found ==> forall v :: v in left' ==> Degree(neighbors, v, left') >= Registers(kind)
        invariant changes <==> old(changes) || left' != left
        invariant AlsoRemoved(old(removed), removed, kind, left, left')
        decreases found, left'
      {
        left', found := ColorOne(vars, left', kind, start);
      }
      done := left' == {};
    }

    // ----- spilling -----

    // Spills the first unallocated variable of vars that came in a stack or closure slot.
    method EasySpill(vars: seq<Var>, bvars: set<Var>) returns (bvars': set<Var>, spilt: Option<Var>)
      requires Ordered() && forall v :: v in vars ==> v in neighbors
      modifies this`location
      ensures Ordered()
      ensures spilt.None? ==> location == old(location) && bvars' == bvars
                              && forall v :: v in vars && v !in location ==> !fn.AlreadySpilt(v)
      ensures spilt.Some? ==> bvars' == bvars - {spilt.value} && spilt.value in vars && spilt.value !in old(location)
                              && location.Keys == old(location).Keys + {spilt.value}
                              && forall v :: v in old(location) ==> location[v] == old(location)[v]
      ensures spilt.Some? ==> location[spilt.value] == if spilt.value in fn.closures then ClosureSlot(spilt.value) else ArgumentSlot(spilt.value)
      ensures spilt.Some? ==> exists i :: 0 <= i < |vars| && vars[i] == spilt.value && fn.AlreadySpilt(vars[i])
                                          && forall j :: 0 <= j < i && vars[j] !in old(location) ==> !fn.AlreadySpilt(vars[j])
    {
      bvars', spilt := bvars, None;
      for i := 0 to |vars|
        invariant forall j :: 0 <= j < i && vars[j] !in location ==> !fn.AlreadySpilt(vars[j])
      {
        var v := vars[i];
        if v !in location && fn.AlreadySpilt(v) {
          location := location[v := if v in fn.closures then ClosureSlot(v) else ArgumentSlot(v)];
          return bvars - {v}, Some(v);
        }
      }
    }

    // Spills the unallocated variable of vars with most neighbours in bvars.
    method Spill(vars: seq<Var>, bvars: set<Var>) returns (bvars': set<Var>, spilt: Option<Var>)
      requires Ordered() && forall v :: v in vars ==> v in neighbors
      requires forall v :: v in vars && v !in location ==> !fn.AlreadySpilt(v)
      modifies this`location
      ensures Ordered()
      ensures spilt.None? ==> location == old(location) && bvars' == bvars && forall v :: v in vars ==> v in location
      ensures spilt.Some? ==> bvars' == bvars - {spilt.value} && spilt.value in vars && spilt.value !in old(location)
                              && location == old(location)[spilt.value := SpillSlot(0)]
      ensures spilt.Some? ==> forall v :: v in vars && v !in old(location) ==>
                                Degree(neighbors, v, bvars) <= Degree(neighbors, spilt.value, bvars)
    {
      hide Degree;
      spilt := None;
      var maxneigh: int := -1;
      for i := 0 to |vars|
        invariant spilt.None? ==> maxneigh == -1 && forall j :: 0 <= j < i ==> vars[j] in location
        invariant spilt.Some? ==> spilt.value in vars && spilt.value !in location && maxneigh == Degree(neighbors, spilt.value, bvars)
        invariant spilt.Some? ==> forall j :: 0 <= j < i && vars[j] !in location ==> Degree(neighbors, vars[j], bvars) <= maxneigh
      {
        if vars[i] !in location {
          var n := Degree(neighbors, vars[i], bvars);
          if n > maxneigh {
            maxneigh, spilt := n, Some(vars[i]);
          }
        }
      }
      if spilt.None? { return bvars, None; }
      location := location[spilt.value := SpillSlot(0)];
      bvars' := bvars - {spilt.value};
    }

    // ----- select -----

    /** The smallest colour colour no coloured neighbour of v has. The bitset of free
        colours has a whole number of bytes. */
    method GetFreeColor(coloured: set<Var>, v: Var, ncolors: nat) returns (color: nat)
      requires v in neighbors && coloured <= location.Keys
      requires Degree(neighbors, v, coloured) < ncolors
      ensures color < ncolors
      ensures forall u :: u in coloured * neighbors[v] ==> Number(location[u]) != color
      ensures forall c: nat :: c < color ==> c in Numbers(location, neighbors[v] * coloured)
    {
      var used := Numbers(location, neighbors[v] * coloured);
      NumbersCard(location, neighbors[v] * coloured);
      var bit := FirstClear(used, 8 * ((ncolors + 7) / 8));
      assert bit >= 0;
      color := bit;
    }

    // The variables of one kind, in removal order.
    method RemovalOrder(kind: RegKind) returns (ovars: seq<Var>)
      requires Elems(fn.Vars()) == location.Keys
      requires kind in colorOrder && kind in removed && colorOrder[kind] == |removed[kind]|
      requires KindInOrder(location, removed[kind], kind)
      ensures ovars == removed[kind]
    {
      var vars := fn.Vars();
      ovars := seq(colorOrder[kind], _ => 0);
      for j := 0 to |vars|
        invariant |ovars| == |removed[kind]|
        invariant forall i :: 0 <= i < j && IsKind(location[vars[i]], kind) ==> ovars[location[vars[i]].number] == vars[i]
      {
        assert vars[j] in location;
        var loc := location[vars[j]];
        if IsKind(loc, kind) {
          ovars := ovars[loc.number := vars[j]];
        }
      }
      forall i | 0 <= i < |ovars| ensures ovars[i] == removed[kind][i] {
        assert removed[kind][i] in Elems(vars);
      }
    }

    method SelectColors(kind: RegKind) returns (used: nat)
      requires neighbors.Keys == Elems(fn.Vars()) == location.Keys
      requires Symmetric(neighbors) && forall v :: v in neighbors ==> v !in neighbors[v]
      requires kind in colorOrder && kind in removed && colorOrder[kind] == |removed[kind]|
      requires KindInOrder(location, removed[kind], kind) && FewLater(neighbors, removed[kind], {}, Registers(kind))
      modifies this`location
      ensures OnlyNumbers(kind, old(location), location)
      ensures used <= Registers(kind) && Proper(neighbors, location, kind, used) && FirstFit(neighbors, location, kind, used)
    {
      ghost var was := location;
      var ovars := RemovalOrder(kind);
      FewLaterSelectable(neighbors, ovars, Registers(kind), location, kind);
      used := SelectInReverse(kind, ovars);
      ColoredIsProper(neighbors, location, was, ovars, kind, used);
      FitIsFirst(neighbors, location, was, ovars, kind, used);
    }

    // Colours the variables of one kind from the last removed to the first.
    method SelectInReverse(kind: RegKind, ovars: seq<Var>) returns (used: nat)
      requires location.Keys == neighbors.Keys
      requires forall i :: 0 <= i < |ovars| ==> ovars[i] in location && IsKind(location[ovars[i]], kind)
      requires forall i :: 0 <= i < |ovars| ==> Selectable(neighbors, ovars, Registers(kind), i)
      modifies this`location
      ensures OnlyNumbers(kind, old(location), location)
      ensures used <= Registers(kind) && ColoredFrom(neighbors, location, ovars, 0, kind, used)
      ensures FitFrom(neighbors, location, ovars, 0, kind, used)
    {
      var nused := -1;
      var coloured: set<Var> := {};
      ghost var was := location;
      for i := |ovars| downto 0
        invariant -1 <= nused < Registers(kind)
        invariant coloured == From(ovars, i)
        invariant OnlyNumbers(kind, was, location)
        invariant ColoredFrom(neighbors, location, ovars, i, kind, nused + 1)
        invariant FitFrom(neighbors, location, ovars, i, kind, nused + 1)
      {
        assert Selectable(neighbors, ovars, Registers(kind), i);
        assert ovars[i] in location && IsKind(location[ovars[i]], kind);
        hide ColoredFrom, Degree, OnlyNumbers, FitFrom;
        ghost var before := location;
        var color;
        nused, color := SelectColor(kind, ovars, i, coloured, nused);
        OnlyNumbersStep(kind, was, before, ovars[i], color);
        coloured := coloured + {ovars[i]};
      }
      used := nused + 1;
    }

    // Gives a colour to the variable removed i-th.
    method SelectColor(kind: RegKind, ovars: seq<Var>, i: nat, coloured: set<Var>, nused: int) returns (nused': int, color: nat)
      requires i < |ovars| && coloured == From(ovars, i + 1) && -1 <= nused < Registers(kind)
      requires forall k :: i < k < |ovars| ==> ovars[k] != ovars[i]
      requires ovars[i] in neighbors && Degree(neighbors, ovars[i], coloured) < Registers(kind)
      requires ColoredFrom(neighbors, location, ovars, i + 1, kind, nused + 1)
      requires FitFrom(neighbors, location, ovars, i + 1, kind, nused + 1)
      modifies this`location
      ensures location == old(location)[ovars[i] := Register(kind, color)]
      ensures nused <= nused' < Registers(kind) && nused' >= 0
      ensures ColoredFrom(neighbors, location, ovars, i, kind, nused' + 1)
      ensures FitFrom(neighbors, location, ovars, i, kind, nused' + 1)
    {
      hide FitFrom, From, Degree;
      FromWithin(ovars, i + 1, location.Keys);
      var v := ovars[i];
      color := GetFreeColor(coloured, v, Registers(kind));
      ColoredStep(neighbors, location, ovars, i, kind, nused + 1, color);
      FitStep(neighbors, location, ovars, i, kind, nused + 1, color, neighbors[v] * coloured);
      location := location[v := Register(kind, color)];
      nused' := if color > nused then color else nused;
    }

    // Gives offsets to the variables spilled by the allocator.
    method SelectSpill(maxspill: nat) returns (used: nat)
      requires neighbors.Keys == Elems(fn.Vars()) == location.Keys && Distinct(fn.Vars())
      requires Symmetric(neighbors) && forall v :: v in neighbors ==> v !in neighbors[v]
      requires maxspill == |fn.locals| && forall v :: v in location && location[v].SpillSlot? ==> v in fn.locals
      modifies this`location
      ensures OnlySlots(old(location), location)
      ensures used <= maxspill && ProperSlots(neighbors, location, location.Keys, used)
      ensures FirstSlots(neighbors, location, location.Keys, used)
    {
      hide ProperSlots, FirstSlots, Symmetric;
      var vars := fn.Vars();
      assert forall j :: 0 <= j < |vars| ==> vars[j] in Elems(vars) && vars[j] in location;
      NoSlots(neighbors, location);
      used := 0;
      var coloured: set<Var> := {};
      ghost var was := location;
      for i := 0 to |vars|
        invariant used <= maxspill && OnlySlots(was, location)
        invariant coloured <= location.Keys && forall v :: v in coloured ==> location[v].SpillSlot?
        invariant forall j :: 0 <= j < i && location[vars[j]].SpillSlot? ==> vars[j] in coloured
        invariant forall j :: i <= j < |vars| ==> vars[j] !in coloured
        invariant ProperSlots(neighbors, location, coloured, used) && FirstSlots(neighbors, location, coloured, used)
      {
        ghost var before := location;
        used := SpillOne(vars[i], coloured, used);
        assert forall j :: 0 <= j < |vars| && j != i ==> vars[j] != vars[i] && location[vars[j]] == before[vars[j]];
        if location[vars[i]].SpillSlot? {
          coloured := coloured + {vars[i]};
        }
      }
      forall v | v in location && location[v].SpillSlot? ensures v in coloured {
        assert v in Elems(vars);
      }
      FirstSlotsAll(neighbors, location, coloured, used);
    }

    method SpillOne(v: Var, coloured: set<Var>, used: nat) returns (used': nat)
      requires v in location && v in neighbors && v !in coloured && coloured <= location.Keys == neighbors.Keys
      requires Symmetric(neighbors) && v !in neighbors[v]
      requires forall u :: u in coloured + {v} && location[u].SpillSlot? ==> u in fn.locals
      requires forall u :: u in coloured ==> location[u].SpillSlot?
      requires used <= |fn.locals| && ProperSlots(neighbors, location, coloured, used) && FirstSlots(neighbors, location, coloured, used)
      modifies this`location
      ensures location.Keys == old(location.Keys) && used' <= |fn.locals|
      ensures if old(location)[v].SpillSlot? then location[v].SpillSlot? && location == old(location)[v := location[v]]
              else location == old(location)
      ensures ProperSlots(neighbors, location, if location[v].SpillSlot? then coloured + {v} else coloured, used')
      ensures FirstSlots(neighbors, location, if location[v].SpillSlot? then coloured + {v} else coloured, used')
    {
      hide ProperSlots, FirstSlots, Symmetric, Degree;
      used' := used;
      if location[v].SpillSlot? {
        SpillsFit(fn.locals, coloured, neighbors, v);
        var color := GetFreeColor(coloured, v, |fn.locals|);
        ProperSlotsStep(neighbors, location, coloured, used, v, color);
        FirstSlotsStep(neighbors, location, coloured, used, v, color, neighbors[v] * coloured);
        location := location[v := SpillSlot(color)];
        if color >= used { used' := color + 1; }
      }
    }

    // ----- the allocation loops -----

    method ListOf(vars: set<Var>) returns (list: seq<Var>)
      requires vars <= Elems(fn.Vars()) && Distinct(fn.Vars())
      ensures (forall v :: v in list <==> v in vars) && Distinct(list)
    {
      var all := fn.Vars();
      list := [];
      for i := 0 to |all|
        invariant (forall v :: v in list <==> v in all[..i] && v in vars) && Distinct(list)
      {
        assert all[i] !in all[..i];
        if all[i] in vars { list := list + [all[i]]; }
      }
      assert all[..|all|] == all;
    }

    method Unallocated(vars: seq<Var>) returns (list: seq<Var>)
      requires Distinct(vars)
      ensures (forall v :: v in list <==> v in vars && v !in location) && Distinct(list)
    {
      list := [];
      for i := 0 to |vars|
        invariant (forall v :: v in list <==> v in vars[..i] && v !in location) && Distinct(list)
      {
        assert vars[i] !in vars[..i];
        if vars[i] !in location { list := list + [vars[i]]; }
      }
      assert vars[..|vars|] == vars;
    }

    ghost predicate Graph()
      reads this`neighbors
    {
      && neighbors.Keys == Elems(fn.Vars())
      && Symmetric(neighbors) && forall v :: v in neighbors ==> v !in neighbors[v]
    }

    /** Gives scratch registers to temps; a temp that cannot be coloured becomes
        a local and the rest are tried again. */
    method AllocateTemps(gr: Groups) returns (locals: seq<Var>, localsb: set<Var>, ghost start: Start)
      requires Graph() && Ordered() && removed[RegScratch] == [] && Distinct(fn.Vars())
      requires location.Keys !! gr.temps && location.Keys !! gr.locals && gr.temps !! gr.locals
      requires gr.temps + gr.locals <= neighbors.Keys
      modifies this`location, this`colorOrder, this`removed, this`changes
      ensures Pending(locals, localsb) && Split(gr, start.vars, localsb)
      ensures start.keys == old(location.Keys) && start.removed == old(removed) && Since(start, RegScratch, {})
      ensures forall v :: v in start.vars ==> v in removed[RegScratch]
      ensures forall v :: v in gr.temps - start.vars ==> Crowded(neighbors, gr.temps, nscratch, v)
    {
      start := Start(location.Keys, removed, gr.temps);
      var temps := ListOf(gr.temps);
      var tempsb := gr.temps;
      locals := ListOf(gr.locals);
      localsb := gr.locals;
      var done := false;
      while temps != [] && !done
        invariant start.keys == old(location.Keys) && start.removed == old(removed) && Split(gr, start.vars, localsb)
        invariant Since(start, RegScratch, tempsb) && Pending(temps, tempsb) && Distinct(temps) && Pending(locals, localsb)
        invariant done ==> tempsb == {}
        invariant forall v :: v in start.vars && v !in tempsb ==> v in removed[RegScratch]
        invariant forall v :: v in gr.temps && v !in start.vars ==> Crowded(neighbors, gr.temps, nscratch, v)
        decreases !done, tempsb
      {
        tempsb, done := ColorGraph(temps, tempsb, RegScratch, start);
        assert Pending(locals, localsb);
        if !done {
          var first;
          StuckIsCrowded(neighbors, gr.temps, nscratch, tempsb);
          temps, first := TakeFirst(temps, tempsb);
          SplitStep(gr, start.vars, localsb, first);
          start := Demote(start, tempsb, first);
          tempsb := tempsb - {first};
          locals, localsb := [first] + locals, localsb + {first};
        }
      }
    }

    // Splits the temps that have no location yet into the first and the others.
    method TakeFirst(temps: seq<Var>, tempsb: set<Var>) returns (rest: seq<Var>, first: Var)
      requires Pending(temps, tempsb) && Distinct(temps) && tempsb != {}
      ensures first in tempsb && Pending(rest, tempsb - {first}) && Distinct(rest)
      ensures forall v :: v in rest ==> v != first && v in temps
    {
      var left := Unallocated(temps);
      assert exists v :: v in tempsb && v in left;
      first := left[0];
      assert first in left && forall v :: v in left <==> v in left[1..] || v == first;
      rest := left[1..];
    }

    // The temp that is moved to the locals has no location and never gets one here.
    ghost method Demote(start: Start, left: set<Var>, first: Var) returns (start': Start)
      requires Since(start, RegScratch, left) && first in left && first !in location
      ensures start' == start.(vars := start.vars - {first})
      ensures Since(start', RegScratch, left - {first})
    {
      start' := start.(vars := start.vars - {first});
      FewLaterShrink(neighbors, removed[RegScratch], left, nscratch, left - {first});
    }

    /** Colours vars with registers of one kind, spilling somebody whenever
        colouring is stuck: easy is tried first, then hard. */
    method AllocateGroup(vars: seq<Var>, bvars: set<Var>, kind: RegKind, easy: seq<Var>, hard: seq<Var>)
      requires Graph() && Ordered() && Pending(vars, bvars) && kind in removed && removed[kind] == []
      requires forall v :: v in vars ==> v in neighbors
      requires SpillOrder(vars, easy, hard)
      modifies this`location, this`colorOrder, this`removed, this`changes
      ensures Since(Start(old(location.Keys), old(removed), bvars), kind, {})
      ensures forall v :: v in bvars ==> v in removed[kind] || Crowded(neighbors, bvars, Registers(kind), v)
    {
      ghost var start := Start(location.Keys, removed, bvars);
      var left := bvars;
      var done := false;
      while !done
        invariant Since(start, kind, left) && Pending(vars, left) && left <= bvars
        invariant WithRegister(neighbors, bvars, Registers(kind), removed[kind], left)
        invariant done ==> left == {}
        decreases !done, left
      {
        left, done := GroupStep(vars, bvars, left, kind, easy, hard, start);
      }
    }

    // Colours what it can; when nothing can be coloured, spills somebody.
    method GroupStep(vars: seq<Var>, bvars: set<Var>, left: set<Var>, kind: RegKind, easy: seq<Var>, hard: seq<Var>, ghost start: Start)
      returns (left': set<Var>, done: bool)
      requires Graph() && Since(start, kind, left) && Pending(vars, left) && left <= bvars
      requires forall v :: v in vars ==> v in neighbors
      requires SpillOrder(vars, easy, hard)
      requires WithRegister(neighbors, bvars, Registers(kind), removed[kind], left)
      modifies this`location, this`colorOrder, this`removed, this`changes
      ensures Since(start, kind, left') && Pending(vars, left') && left' <= left && (done ==> left' == {}) && (!done ==> left' < left)
      ensures WithRegister(neighbors, bvars, Registers(kind), removed[kind], left')
    {
      hide InOrder, FewLater, Symmetric, Elems, Crowded, WithRegister, Progress;
      ghost var taken := removed[kind];
      changes := false;
      left', done := ColorGraph(vars, left, kind, start);
      StuckIsCrowded(neighbors, bvars, Registers(kind), left');
      WithRegisterStep(neighbors, bvars, Registers(kind), taken, left, removed[kind], left');
      if !done && !changes {
        ghost var stuck := left';
        taken := removed[kind];
        left' := SpillSomebody(vars, left', kind, easy, hard, start);
        WithRegisterStep(neighbors, bvars, Registers(kind), taken, stuck, removed[kind], left');
      }
    }

    // Variables that came in a stack or closure slot can always be spilled first.
    ghost predicate SpillOrder(vars: seq<Var>, easy: seq<Var>, hard: seq<Var>)
      requires fn.nfixed <= |fn.args|
    {
      && (forall v :: v in vars <==> v in easy || v in hard)
      && (forall v :: v in easy && v !in hard ==> fn.AlreadySpilt(v))
      && (forall v :: v in hard && v !in easy ==> !fn.AlreadySpilt(v))
    }

    // Spills one variable of left, preferably one that came in a stack or closure slot.
    method SpillSomebody(vars: seq<Var>, left: set<Var>, kind: RegKind, easy: seq<Var>, hard: seq<Var>, ghost start: Start)
      returns (left': set<Var>)
      requires Since(start, kind, left) && Pending(vars, left) && left != {}
      requires forall v :: v in vars ==> v in neighbors
      requires SpillOrder(vars, easy, hard)
      modifies this`location
      ensures Since(start, kind, left') && Pending(vars, left') && left' < left
    {
      hide InOrder, FewLater, Symmetric, Elems, Degree;
      var spilt;
      left', spilt := EasySpill(easy, left);
      if spilt.None? {
        left', spilt := Spill(hard, left);
        assert exists v :: v in left;
      }
      FewLaterShrink(neighbors, removed[kind], left, Registers(kind), left');
    }

    // Everything is located, and each kind of register is still numbered by removal order.
    ghost predicate Located()
      requires Shape()
      reads this
    {
      && Graph() && Ordered() && location.Keys == Elems(fn.Vars())
      && Simplified(RegScratch, {}) && Simplified(RegCaller, {}) && Simplified(RegCallee, {})
      && SafeKinds(fn, SurviveCalls(), SurviveScratch(), location)
    }

    // Temps go to scratch registers, except for those that are demoted to locals.
    method LocateTemps(gr: Groups) returns (locals: seq<Var>, localsb: set<Var>, ghost demoted: set<Var>)
      requires Graph() && Ordered() && Distinct(fn.Vars()) && location == map[] && forall kind :: removed[kind] == []
      requires gr.temps !! gr.locals && gr.temps + gr.locals <= neighbors.Keys
      modifies this`location, this`colorOrder, this`removed, this`changes
      ensures Ordered() && location.Keys == gr.temps - demoted && Pending(locals, localsb)
      ensures removed[RegCaller] == [] && removed[RegCallee] == []
      ensures Simplified(RegScratch, {}) && forall v :: v in removed[RegScratch] <==> v in gr.temps - demoted
      ensures demoted <= gr.temps && localsb == gr.locals + demoted
      ensures forall v :: v in demoted ==> Crowded(neighbors, gr.temps, nscratch, v)
    {
      assert RegScratch in removed && RegCaller in removed && RegCallee in removed;
      assert removed[RegScratch] == [] && removed[RegCaller] == [] && removed[RegCallee] == [];
      hide InOrder, FewLater, Symmetric, Distinct, Crowded, Degree;
      ghost var start;
      locals, localsb, start := AllocateTemps(gr);
      demoted := gr.temps - start.vars;
      assert gr.temps - demoted == start.vars;
    }

    // Locals go to caller-saved registers.
    method LocateLocals(locals: seq<Var>, localsb: set<Var>)
      requires Graph() && Ordered() && Pending(locals, localsb) && RegCaller in removed && removed[RegCaller] == []
      requires fn.nfixed <= |fn.args| && forall v :: v in locals ==> v in neighbors
      modifies this`location, this`colorOrder, this`removed, this`changes
      ensures Ordered() && location.Keys == old(location.Keys) + localsb
      ensures Simplified(RegCaller, {}) && forall v :: v in removed[RegCaller] ==> v in localsb
      ensures forall kind :: kind != RegCaller ==> removed[kind] == old(removed[kind])
      ensures forall v :: v in localsb ==> v in removed[RegCaller] || Crowded(neighbors, localsb, ncaller, v)
    {
      assert forall kind :: kind in removed;
      AllocateGroup(locals, localsb, RegCaller, locals, locals);
      assert forall kind :: kind in removed;
    }

    // Temps go to scratch registers, locals to caller-saved registers.
    method LocateRegisters(gr: Groups) returns (ghost demoted: set<Var>)
      requires Graph() && Ordered() && Distinct(fn.Vars()) && location == map[] && forall kind :: removed[kind] == []
      requires gr.temps !! gr.locals && gr.temps + gr.locals <= neighbors.Keys
      modifies this`location, this`colorOrder, this`removed, this`changes
      ensures Ordered() && location.Keys == gr.temps + gr.locals && removed[RegCallee] == []
      ensures Simplified(RegScratch, {}) && forall v :: v in removed[RegScratch] ==> v in gr.temps
      ensures Simplified(RegCaller, {}) && forall v :: v in removed[RegCaller] ==> v in gr.temps + gr.locals
      ensures demoted <= gr.temps && (forall v :: v in gr.temps - demoted ==> v in removed[RegScratch])
      ensures forall v :: v in demoted ==> Crowded(neighbors, gr.temps, nscratch, v)
      ensures forall v :: v in gr.locals + demoted ==> v in removed[RegCaller] || Crowded(neighbors, gr.locals + demoted, ncaller, v)
    {
      var locals, localsb;
      locals, localsb, demoted := LocateTemps(gr);
      assert RegCaller in removed && RegScratch in removed && RegCallee in removed;
      hide InOrder, FewLater, Symmetric, Distinct, Crowded, Degree;
      LocateLocals(locals, localsb);
    }

    // Variables that outlive calls go to callee-saved registers.
    method LocateOthers(gr: Groups)
      requires Graph() && Ordered() && Distinct(fn.Vars()) && removed[RegCallee] == []
      requires location.Keys !! gr.notspilt + gr.spilt && gr.notspilt + gr.spilt <= neighbors.Keys && gr.notspilt !! gr.spilt
      requires forall v :: v in gr.spilt ==> fn.AlreadySpilt(v)
      requires forall v :: v in gr.notspilt ==> !fn.AlreadySpilt(v)
      modifies this`location, this`colorOrder, this`removed, this`changes
      ensures Ordered() && location.Keys == old(location.Keys) + gr.notspilt + gr.spilt
      ensures Simplified(RegCallee, {}) && forall kind :: kind != RegCallee ==> removed[kind] == old(removed[kind])
      ensures forall v :: v in gr.notspilt + gr.spilt ==>
                v in removed[RegCallee] || Crowded(neighbors, gr.notspilt + gr.spilt, ncallee, v)
    {
      hide FewLater, Symmetric, Crowded, Degree, Distinct, Elems;
      var notspilt := ListOf(gr.notspilt);
      var spilt := ListOf(gr.spilt);
      assert forall kind :: kind in removed;
      hide InOrder;
      AllocateGroup(notspilt + spilt, gr.notspilt + gr.spilt, RegCallee, spilt, notspilt);
    }

    // The variables that get no register of their group's kind are crowded in the group.
    ghost predicate RegistersUsed(gr: Groups, demoted: set<Var>)
      reads this`location, this`neighbors
    {
      Used(neighbors, location, gr, demoted, nscratch, ncaller, ncallee)
    }

    method LocateAll() returns (ghost gr: Groups, ghost demoted: set<Var>)
      requires Flow() && Interference()
      requires location == map[] && colorOrder == map[RegScratch := 0, RegCaller := 0, RegCallee := 0]
      requires removed == map[RegScratch := [], RegCaller := [], RegCallee := []]
      modifies this`location, this`colorOrder, this`removed, this`changes
      ensures Located() && Grouped(gr) && RegistersUsed(gr, demoted)
    {
      InitialOrder(fn);
      var groups := GroupVariables();
      gr := groups;
      demoted := LocateRegisters(groups);
      LocateOthers(groups);
      GroupedCover(gr);
      UsedFromRemoved(fn, neighbors, colorOrder, removed, location, gr, demoted, nscratch, ncaller, ncallee);
      hide Crowded, Used;
      SafeFromOrder(fn, colorOrder, removed, location, SurviveCalls(), SurviveScratch());
    }

    lemma GroupedCover(gr: Groups)
      requires Shape() && fn.nfixed <= |fn.args| && Grouped(gr)
      ensures gr.temps + gr.locals + gr.notspilt + gr.spilt == Elems(fn.Vars())
      ensures gr.temps + gr.locals !! gr.notspilt + gr.spilt
      ensures forall v :: v in gr.temps ==> v !in SurviveScratch() && v !in SurviveCalls()
      ensures forall v :: v in gr.temps + gr.locals ==> v !in SurviveCalls()
    {
    }

    /** Allocates registers and spill slots for every variable of the function.
        Returns how many of each were used. */
    method AllocateRegisters() returns (scratch: nat, caller: nat, callee: nat, spill: nat, ghost gr: Groups, ghost demoted: set<Var>)
      requires Flow()
      requires location == map[] && colorOrder == map[RegScratch := 0, RegCaller := 0, RegCallee := 0]
      requires removed == map[RegScratch := [], RegCaller := [], RegCallee := []]
      modifies this
      ensures Allocated(fn, ins, outs, location)
      ensures scratch <= nscratch && caller <= ncaller && callee <= ncallee && spill <= |fn.locals|
      ensures forall v :: v in location ==>
        match location[v]
        case Register(RegScratch, n) => n < scratch
        case Register(RegCaller, n) => n < caller
        case Register(RegCallee, n) => n < callee
        case SpillSlot(n) => n < spill && v in fn.locals
        case _ => true
      ensures Interference() && Grouped(gr) && RegistersUsed(gr, demoted)
      ensures AllFirstFit(neighbors, location, scratch, caller, callee) && FirstSlots(neighbors, location, location.Keys, spill)
    {
      MakeIgraph();
      hide Used, Grouped, SameKinds, Crowded, SafeKinds, InOrder, FewLater, Symmetric, AllFirstFit, FirstSlots;
      gr, demoted := LocateAll();
      ghost var was := location;
      scratch, caller, callee, spill := SelectLocations();
      UsedKeeps(neighbors, was, location, gr, demoted, nscratch, ncaller, ncallee);
    }

    // Chooses colours for all registers and offsets for the spill slots.
    method SelectLocations() returns (scratch: nat, caller: nat, callee: nat, spill: nat)
      requires Flow() && Located() && Interference()
      modifies this`location
      ensures Allocated(fn, ins, outs, location) && SameKinds(old(location), location)
      ensures AllFirstFit(neighbors, location, scratch, caller, callee) && FirstSlots(neighbors, location, location.Keys, spill)
      ensures scratch <= nscratch && caller <= ncaller && callee <= ncallee && spill <= |fn.locals|
      ensures forall v :: v in location ==>
        match location[v]
        case Register(RegScratch, n) => n < scratch
        case Register(RegCaller, n) => n < caller
        case Register(RegCallee, n) => n < callee
        case SpillSlot(n) => n < spill && v in fn.locals
        case _ => true
    {
      hide SameKinds, AllFirstFit, FirstSlots;
      ghost var first := location;
      scratch, caller, callee := SelectAll();
      ghost var was := location;
      spill := SelectSpill(|fn.locals|);
      SlotsSameKinds(first, was, location);
      AllFirstFitKeeps(neighbors, was, location, scratch, caller, callee);
      OnlySlotsKeeps(fn, neighbors, was, location, RegScratch, scratch, SurviveCalls(), SurviveScratch());
      OnlySlotsKeeps(fn, neighbors, was, location, RegCaller, caller, SurviveCalls(), SurviveScratch());
      OnlySlotsKeeps(fn, neighbors, was, location, RegCallee, callee, SurviveCalls(), SurviveScratch());
      AllocatedFrom(fn, ins, outs, neighbors, location, scratch, caller, callee, spill);
    }

    // Chooses colours for the three kinds of register in turn.
    method SelectAll() returns (scratch: nat, caller: nat, callee: nat)
      requires Shape() && Located()
      modifies this`location
      ensures location.Keys == old(location.Keys) && SafeKinds(fn, SurviveCalls(), SurviveScratch(), location)
      ensures SameKinds(old(location), location)
      ensures scratch <= nscratch && Proper(neighbors, location, RegScratch, scratch)
      ensures caller <= ncaller && Proper(neighbors, location, RegCaller, caller)
      ensures callee <= ncallee && Proper(neighbors, location, RegCallee, callee)
      ensures AllFirstFit(neighbors, location, scratch, caller, callee)
    {
      ghost var calls, survivors, was := SurviveCalls(), SurviveScratch(), location;
      ghost var first := location;
      hide SameKinds, FirstFit, SameOf;
      SameKindsStart(first);
      InOrderKind(fn, colorOrder, removed, location, RegScratch);
      InOrderKind(fn, colorOrder, removed, location, RegCaller);
      InOrderKind(fn, colorOrder, removed, location, RegCallee);
      scratch := SelectColors(RegScratch);
      OnlyNumbersKeeps(fn, neighbors, was, location, RegScratch, RegCaller, removed[RegCaller], 0, calls, survivors);
      OnlyNumbersKeeps(fn, neighbors, was, location, RegScratch, RegCallee, removed[RegCallee], 0, calls, survivors);
      OnlyNumbersSameKinds(first, RegScratch, was, location);
      was := location;
      caller := SelectColors(RegCaller);
      OnlyNumbersKeeps(fn, neighbors, was, location, RegCaller, RegScratch, [], scratch, calls, survivors);
      OnlyNumbersKeeps(fn, neighbors, was, location, RegCaller, RegCallee, removed[RegCallee], 0, calls, survivors);
      OnlyNumbersSameKinds(first, RegCaller, was, location);
      OnlyNumbersSameOf(RegCaller, was, location, RegScratch);
      FirstFitKeeps(neighbors, was, location, RegScratch, scratch);
      was := location;
      callee := SelectColors(RegCallee);
      OnlyNumbersSameKinds(first, RegCallee, was, location);
      OnlyNumbersSameOf(RegCallee, was, location, RegScratch);
      OnlyNumbersSameOf(RegCallee, was, location, RegCaller);
      FirstFitKeeps(neighbors, was, location, RegScratch, scratch);
      FirstFitKeeps(neighbors, was, location, RegCaller, caller);
      OnlyNumbersKeeps(fn, neighbors, was, location, RegCallee, RegScratch, [], scratch, calls, survivors);
      OnlyNumbersKeeps(fn, neighbors, was, location, RegCallee, RegCaller, [], caller, calls, survivors);
    }
  }
}
