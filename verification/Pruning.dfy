/** Dead-function pruning: reachability from the entry, renumbering, and why a pruned
    module runs exactly as the original. */
module Pruning {
  import opened Ir
  import opened Machine

  // ----- reachability -----

  predicate Calls(body: Body, target: nat) { exists i :: i in body && IsCall(i.op) && i.imm == target }

  /** A set of function numbers that no call leaves. */
  ghost predicate Closed(bodies: seq<Body>, keep: set<nat>) {
    && (forall f :: f in keep ==> f < |bodies|)
    && (forall f: nat, t: nat :: f in keep && t < |bodies| && f < |bodies| && Calls(bodies[f], t) ==> t in keep)
  }

  /** The functions reachable from `entry`: the least closed set that contains it. */
  ghost predicate IsReachable(bodies: seq<Body>, entry: nat, keep: set<nat>) {
    && entry in keep && Closed(bodies, keep)
    && forall other: set<nat> :: entry in other && Closed(bodies, other) ==> keep <= other
  }

  // ----- renumbering -----

  /** How many of the kept functions come before `f`. */
  function Rank(keep: set<nat>, f: nat): nat {
    if f == 0 then 0 else Rank(keep, f - 1) + (if f - 1 in keep then 1 else 0)
  }

  /** The kept functions among the first `n`, in their order. */
  function Kept(keep: set<nat>, n: nat): (s: seq<nat>)
    ensures |s| == Rank(keep, n)
  {
    if n == 0 then [] else Kept(keep, n - 1) + (if n - 1 in keep then [n - 1] else [])
  }

  lemma {:induction false} RankMonotone(keep: set<nat>, a: nat, b: nat)
    requires a <= b
    ensures Rank(keep, a) <= Rank(keep, b) <= Rank(keep, a) + (b - a)
    ensures a < b && a in keep ==> Rank(keep, a) < Rank(keep, b)
    decreases b
  {
    if a < b {
      RankMonotone(keep, a, b - 1);
    }
  }

  /** Renumbering is a bijection onto an initial segment. */
  lemma {:induction false} KeptAtRank(keep: set<nat>, n: nat, f: nat)
    requires f in keep && f < n
    ensures Rank(keep, f) < Rank(keep, n) && Kept(keep, n)[Rank(keep, f)] == f
  {
    RankMonotone(keep, f, n);
    if f < n - 1 {
      KeptAtRank(keep, n - 1, f);
    }
  }

  lemma {:induction false} RankOfKept(keep: set<nat>, n: nat, k: nat)
    requires k < Rank(keep, n)
    ensures Kept(keep, n)[k] in keep && Kept(keep, n)[k] < n && Rank(keep, Kept(keep, n)[k]) == k
  {
    if k < Rank(keep, n - 1) {
      RankOfKept(keep, n - 1, k);
    }
  }

  function Renumber(i: Instruction, keep: set<nat>, n: nat): Instruction {
    if IsCall(i.op) && i.imm < n && i.imm in keep then
      RankMonotone(keep, 0, i.imm);
      i.(imm := Rank(keep, i.imm))
    else i
  }

  function RenumberBody(body: Body, keep: set<nat>, n: nat): (r: Body)
    ensures |r| == |body|
    ensures forall k :: 0 <= k < |body| ==> r[k] == Renumber(body[k], keep, n)
  {
    if body == [] then [] else [Renumber(body[0], keep, n)] + RenumberBody(body[1..], keep, n)
  }

  /** What remains of the functions: the kept ones, in order, with calls renumbered. */
  function PruneFunctions(functions: seq<Function>, keep: set<nat>): (r: seq<Function>)
    ensures |r| == Rank(keep, |functions|)
  {
    var kept := Kept(keep, |functions|);
    seq(|kept|, k requires 0 <= k < |kept| =>
      RankOfKept(keep, |functions|, k);
      functions[kept[k]].(instructions := RenumberBody(functions[kept[k]].instructions, keep, |functions|)))
  }

  /** The pruned module. The schema version is not copied: it is the current one. */
  function PruneTo(m: Module, keep: set<nat>): Module
    requires HasEntry(m)
  {
    RankMonotone(keep, 0, m.entryIndex);
    Module(SCHEMA_VERSION, PruneFunctions(m.functions, keep), Rank(keep, m.entryIndex),
           m.stringTable, m.structLayouts, m.sourceMap)
  }

  // ----- meaning -----

  lemma {:induction false} RenumberedFrame(body: Body, keep: set<nat>, n: nat)
    ensures LocalCount(RenumberBody(body, keep, n)) == LocalCount(body)
  {
    if body != [] {
      RenumberedFrame(body[1..], keep, n);
      assert RenumberBody(body, keep, n)[1..] == RenumberBody(body[1..], keep, n);
    }
  }

  ghost predicate PrunedBodies(bodies: seq<Body>, keep: set<nat>, pruned: seq<Body>) {
    && Closed(bodies, keep) && |pruned| == Rank(keep, |bodies|) <= |bodies|
    && forall f :: f in keep ==> Rank(keep, f) < |pruned| && pruned[Rank(keep, f)] == RenumberBody(bodies[f], keep, |bodies|)
  }

  /** A call goes to the renumbered target, or stays out of range. */
  lemma {:induction false} TargetRenumbered(bodies: seq<Body>, keep: set<nat>, pruned: seq<Body>, f: nat, pc: nat)
    requires PrunedBodies(bodies, keep, pruned) && f in keep && pc < |bodies[f]| && IsCall(bodies[f][pc].op)
    ensures var i, i' := bodies[f][pc], pruned[Rank(keep, f)][pc];
            && i'.op == i.op
            && (i.imm < |bodies| ==> i.imm in keep && i'.imm == Rank(keep, i.imm) < |pruned|)
            && (i.imm >= |bodies| ==> i'.imm >= |pruned|)
  {
    assert bodies[f][pc] in bodies[f];
    if bodies[f][pc].imm < |bodies| {
      assert Calls(bodies[f], bodies[f][pc].imm);
    }
  }

  lemma {:induction false} SameStep<W>(host: Host<W>, bodies: seq<Body>, keep: set<nat>, pruned: seq<Body>, f: nat, pc: nat, d: Data<W>)
    requires PrunedBodies(bodies, keep, pruned) && f in keep
    requires pc >= |bodies[f]| || !IsCall(bodies[f][pc].op)
    ensures Execute(host, pruned[Rank(keep, f)], pc, d) == Execute(host, bodies[f], pc, d)
  {
    hide DataStep;
  }

  /** Every run of a kept function, however it ends, is the run of its renumbered copy. */
  lemma {:induction false} PrunedRun<W>(
    host: Host<W>, bodies: seq<Body>, keep: set<nat>, pruned: seq<Body>, f: nat, depth: nat, pc: nat, d: Data<W>, fuel: nat)
    requires PrunedBodies(bodies, keep, pruned) && f in keep && f < |bodies| && Rank(keep, f) < |pruned|
    ensures Run(host, Unguarded, pruned, Rank(keep, f), depth, pc, d, fuel) ==
            Run(host, Unguarded, bodies, f, depth, pc, d, fuel)
    decreases fuel
  {
    hide Permitted, PrunedBodies, DataStep, Rank;
    var f' := Rank(keep, f);
    UnguardedPermitsAll(f, depth, bodies[f], pc, d.stack);
    UnguardedPermitsAll(f', depth, pruned[f'], pc, d.stack);
    if fuel > 0 {
      if pc < |bodies[f]| && IsCall(bodies[f][pc].op) {
        PrunedCall(host, bodies, keep, pruned, f, depth, pc, d, fuel);
      } else {
        SameStep(host, bodies, keep, pruned, f, pc, d);
        match Execute(host, bodies[f], pc, d)
        case Stuck =>
        case Leave(_, _, _) =>
        case Next(pc', d') => PrunedRun(host, bodies, keep, pruned, f, depth, pc', d', fuel - 1);
      }
    }
  }

  lemma {:induction false} PrunedCall<W>(
    host: Host<W>, bodies: seq<Body>, keep: set<nat>, pruned: seq<Body>, f: nat, depth: nat, pc: nat, d: Data<W>, fuel: nat)
    requires PrunedBodies(bodies, keep, pruned) && f in keep && f < |bodies| && Rank(keep, f) < |pruned|
    requires fuel > 0 && pc < |bodies[f]| && IsCall(bodies[f][pc].op)
    ensures Run(host, Unguarded, pruned, Rank(keep, f), depth, pc, d, fuel) ==
            Run(host, Unguarded, bodies, f, depth, pc, d, fuel)
    decreases fuel, 0
  {
    hide Permitted, DataStep, Rank, LocalCount;
    var f', i := Rank(keep, f), bodies[f][pc];
    UnguardedPermitsAll(f, depth, bodies[f], pc, d.stack);
    UnguardedPermitsAll(f', depth, pruned[f'], pc, d.stack);
    TargetRenumbered(bodies, keep, pruned, f, pc);
    if i.imm < |bodies| && depth < host.maxCallDepth {
      RenumberedFrame(bodies[i.imm], keep, |bodies|);
      PrunedRun(host, bodies, keep, pruned, i.imm, depth + 1, 0,
                Data(d.stack, Zeros(LocalCount(bodies[i.imm])), d.world), fuel - 1);
      var called := Invoke(host, Unguarded, bodies, i.imm, depth + 1, d.stack, d.world, fuel - 1);
      if called.Returned? {
        PrunedRun(host, bodies, keep, pruned, f, depth, pc + 1,
                  Data(if i.op == CALL then called.stack + [called.value] else called.stack, d.locals, called.world), fuel - 1);
      }
    }
  }

  lemma {:induction false} PrunedBodiesOf(functions: seq<Function>, keep: set<nat>)
    requires Closed(Bodies(functions), keep)
    ensures PrunedBodies(Bodies(functions), keep, Bodies(PruneFunctions(functions, keep)))
  {
    var n := |functions|;
    RankMonotone(keep, 0, n);
    forall f | f in keep
      ensures Rank(keep, f) < Rank(keep, n)
      ensures Bodies(PruneFunctions(functions, keep))[Rank(keep, f)] == RenumberBody(Bodies(functions)[f], keep, n)
    {
      KeptAtRank(keep, n, f);
    }
  }

  /** Pruning preserves meaning: for every interpretation of the uninterpreted opcodes, every
      starting stack and world and every bound on the run, the entry of the pruned module ends
      exactly as the entry of the original, whether it returns, faults or is still running. */
  lemma {:induction false} PruningPreservesMeaning<W>(
    host: Host<W>, m: Module, keep: set<nat>, depth: nat, stack: seq<u64>, world: W, fuel: nat)
    requires HasEntry(m) && m.entryIndex in keep && Closed(Bodies(m.functions), keep)
    ensures HasEntry(PruneTo(m, keep))
    ensures Invoke(host, Unguarded, Bodies(PruneTo(m, keep).functions), PruneTo(m, keep).entryIndex, depth, stack, world, fuel) ==
            Invoke(host, Unguarded, Bodies(m.functions), m.entryIndex, depth, stack, world, fuel)
  {
    hide Run;
    var bodies := Bodies(m.functions);
    PrunedBodiesOf(m.functions, keep);
    RenumberedFrame(bodies[m.entryIndex], keep, |bodies|);
    PrunedRun(host, bodies, keep, Bodies(PruneFunctions(m.functions, keep)), m.entryIndex, depth, 0,
              Data(stack, Zeros(LocalCount(bodies[m.entryIndex])), world), fuel);
  }

  // ----- pruning what is already pruned -----

  lemma {:induction false} RankOfAll(keep: set<nat>, n: nat)
    requires forall k: nat :: k < n ==> k in keep
    ensures Rank(keep, n) == n && forall k :: 0 <= k < n ==> Kept(keep, n)[k] == k
  {
    if n > 0 {
      RankOfAll(keep, n - 1);
    }
  }

  lemma {:induction false} CallsCarryOver(bodies: seq<Body>, keep: set<nat>, pruned: seq<Body>, f: nat, t: nat)
    requires PrunedBodies(bodies, keep, pruned) && f in keep && f < |bodies| && t < |bodies| && Calls(bodies[f], t)
    ensures t in keep && Rank(keep, f) < |pruned| && Rank(keep, t) < |pruned| && Calls(pruned[Rank(keep, f)], Rank(keep, t))
  {
    hide Rank;
    var i: Instruction :| i in bodies[f] && IsCall(i.op) && i.imm == t;
    var pc :| 0 <= pc < |bodies[f]| && bodies[f][pc] == i;
    TargetRenumbered(bodies, keep, pruned, f, pc);
    assert pruned[Rank(keep, f)][pc] in pruned[Rank(keep, f)];
  }

  /** The functions whose copies are in a closed set are closed themselves. */
  lemma {:induction false} BackIsClosed(bodies: seq<Body>, keep: set<nat>, pruned: seq<Body>, keep': set<nat>, back: set<nat>)
    requires PrunedBodies(bodies, keep, pruned) && Closed(pruned, keep') && Closed(bodies, keep)
    requires back == set f | f in keep && Rank(keep, f) in keep'
    ensures Closed(bodies, back)
  {
    hide Rank, Calls, PrunedBodies;
    forall f: nat, t: nat | f in back && t < |bodies| && f < |bodies| && Calls(bodies[f], t)
      ensures t in back
    {
      CallsCarryOver(bodies, keep, pruned, f, t);
    }
  }

  /** Everything that is left after pruning is reachable. */
  lemma {:induction false} PrunedIsReachable(m: Module, keep: set<nat>, keep': set<nat>)
    requires HasEntry(m) && IsReachable(Bodies(m.functions), m.entryIndex, keep)
    requires IsReachable(Bodies(PruneTo(m, keep).functions), PruneTo(m, keep).entryIndex, keep')
    ensures forall k: nat :: k < |PruneTo(m, keep).functions| ==> k in keep'
  {
    hide Rank, Kept, Calls, PrunedBodies, Closed;
    var bodies, pruned := Bodies(m.functions), Bodies(PruneTo(m, keep).functions);
    PrunedBodiesOf(m.functions, keep);
    var back := set f | f in keep && Rank(keep, f) in keep';
    BackIsClosed(bodies, keep, pruned, keep', back);
    forall k: nat | k < |pruned|
      ensures k in keep'
    {
      RankOfKept(keep, |bodies|, k);
      assert Kept(keep, |bodies|)[k] in back;
    }
  }

  lemma {:induction false} RenumberByAll(body: Body, keep: set<nat>, n: nat)
    requires forall k: nat :: k < n ==> k in keep
    ensures RenumberBody(body, keep, n) == body
  {
    forall k | 0 <= k < |body|
      ensures RenumberBody(body, keep, n)[k] == body[k]
    {
      if body[k].imm < n {
        RankOfAll(keep, body[k].imm);
      }
    }
  }

  /** Pruning twice is pruning once. */
  lemma {:induction false} PruningIsIdempotent(m: Module, keep: set<nat>, keep': set<nat>)
    requires HasEntry(m) && IsReachable(Bodies(m.functions), m.entryIndex, keep) && HasEntry(PruneTo(m, keep))
    requires IsReachable(Bodies(PruneTo(m, keep).functions), PruneTo(m, keep).entryIndex, keep')
    ensures PruneTo(PruneTo(m, keep), keep') == PruneTo(m, keep)
  {
    hide IsReachable, Closed, Rank, Kept;
    var once := PruneTo(m, keep);
    var n := |once.functions|;
    PrunedIsReachable(m, keep, keep');
    RankOfAll(keep', n);
    RankOfAll(keep', once.entryIndex);
    forall k | 0 <= k < n
      ensures PruneFunctions(once.functions, keep')[k] == once.functions[k]
    {
      RenumberByAll(once.functions[k].instructions, keep', n);
    }
    assert PruneFunctions(once.functions, keep') == once.functions;
  }

  // ----- the algorithm -----

  function Marked(marks: seq<bool>): set<nat> { set f | 0 <= f < |marks| && marks[f] }

  function Unmarked(marks: seq<bool>): nat {
    if marks == [] then 0 else (if marks[0] then 0 else 1) + Unmarked(marks[1..])
  }

  lemma {:induction false} MarkOne(marks: seq<bool>, f: nat)
    requires f < |marks| && !marks[f]
    ensures Unmarked(marks[f := true]) < Unmarked(marks)
    ensures Marked(marks[f := true]) == Marked(marks) + {f}
  {
    if f > 0 {
      assert marks[f := true][1..] == marks[1..][f - 1 := true];
      MarkOne(marks[1..], f - 1);
    } else {
      assert marks[f := true][1..] == marks[1..];
    }
  }

  /** Everything marked is reachable by any account. */
  ghost predicate OnlyReachable(bodies: seq<Body>, entry: nat, marks: seq<bool>) {
    forall other: set<nat> :: entry in other && Closed(bodies, other) ==> Marked(marks) <= other
  }

  /** A marked function waits in `pending` or has had all its callees marked. */
  ghost predicate Explored(bodies: seq<Body>, marks: seq<bool>, pending: seq<nat>, f: nat)
    requires f < |bodies| && |marks| == |bodies|
  {
    f in pending || forall t: nat :: t < |bodies| && Calls(bodies[f], t) ==> marks[t]
  }

  ghost predicate WorklistInvariant(bodies: seq<Body>, entry: nat, marks: seq<bool>, pending: seq<nat>) {
    && |marks| == |bodies| && entry < |bodies| && marks[entry]
    && (forall f :: f in pending ==> f < |bodies| && marks[f])
    && OnlyReachable(bodies, entry, marks)
  }

  /** Marks the callees of function `f`, queueing the ones met for the first time. */
  method VisitCalls(bodies: seq<Body>, ghost entry: nat, f: nat, marks0: seq<bool>, pending0: seq<nat>)
    returns (marks: seq<bool>, pending: seq<nat>)
    requires WorklistInvariant(bodies, entry, marks0, pending0) && f < |bodies| && marks0[f]
    ensures WorklistInvariant(bodies, entry, marks, pending)
    ensures pending0 <= pending && forall g :: 0 <= g < |bodies| && marks0[g] ==> marks[g]
    ensures forall g :: 0 <= g < |bodies| && marks[g] && !marks0[g] ==> g in pending
    ensures forall t: nat :: t < |bodies| && Calls(bodies[f], t) ==> marks[t]
    ensures (marks == marks0 && pending == pending0) || Unmarked(marks) < Unmarked(marks0)
  {
    marks, pending := marks0, pending0;
    var body := bodies[f];
    for j := 0 to |body|
      invariant WorklistInvariant(bodies, entry, marks, pending)
      invariant pending0 <= pending && forall g :: 0 <= g < |bodies| && marks0[g] ==> marks[g]
      invariant forall g :: 0 <= g < |bodies| && marks[g] && !marks0[g] ==> g in pending
      invariant forall k :: 0 <= k < j && IsCall(body[k].op) && body[k].imm < |bodies| ==> marks[body[k].imm]
      invariant (marks == marks0 && pending == pending0) || Unmarked(marks) < Unmarked(marks0)
    {
      if !IsCall(body[j].op) {
        continue;
      }
      var target := body[j].imm;
      if target >= |bodies| || marks[target] {
        continue;
      }
      MarkOne(marks, target);
      assert OnlyReachable(bodies, entry, marks[target := true]) by {
        assert body[j] in body && Calls(body, target);
        assert f in Marked(marks);
      }
      marks, pending := marks[target := true], pending + [target];
    }
  }

  /** The breadth-first worklist: exactly the reachable functions end up marked. */
  method FindReachable(bodies: seq<Body>, entry: nat) returns (marks: seq<bool>)
    requires entry < |bodies|
    ensures |marks| == |bodies| && IsReachable(bodies, entry, Marked(marks))
  {
    var unmarked := seq(|bodies|, _ => false);
    MarkOne(unmarked, entry);
    marks := unmarked[entry := true];
    var pending := [entry];
    while pending != []
      invariant WorklistInvariant(bodies, entry, marks, pending)
      invariant forall g :: 0 <= g < |bodies| && marks[g] ==> Explored(bodies, marks, pending, g)
      decreases Unmarked(marks), |pending|
    {
      var f := pending[0];
      ghost var marks0, pending0 := marks, pending;
      assert pending0 == [f] + pending0[1..];
      assert f in pending0 && forall g :: g in pending0[1..] ==> g in pending0;
      marks, pending := VisitCalls(bodies, entry, f, marks, pending[1..]);
      forall g | 0 <= g < |bodies| && marks[g]
        ensures Explored(bodies, marks, pending, g)
      {
        if marks0[g] && g != f {
          assert Explored(bodies, marks0, pending0, g);
          assert g in pending0 ==> g in pending0[1..];
          assert g in pending0[1..] ==> g in pending;
        }
      }
    }
    forall f: nat, t: nat | f in Marked(marks) && t < |bodies| && f < |bodies| && Calls(bodies[f], t)
      ensures t in Marked(marks)
    {
      assert Explored(bodies, marks, pending, f);
    }
  }

  // ----- renumbering by a table of 32-bit numbers -----

  /** The 32-bit number a size is stored as. */
  function AsI32(n: nat): i32 {
    var low := n % TWO32;
    if low < TWO31 then low else low - TWO32
  }

  /** The table of new numbers; -1 marks a function that is dropped. */
  function Table(keep: set<nat>, n: nat): (t: seq<i32>)
    ensures |t| == n
    ensures forall g :: 0 <= g < n ==> t[g] == if g in keep then AsI32(Rank(keep, g)) else -1
  {
    if n == 0 then [] else Table(keep, n - 1) + [if n - 1 in keep then AsI32(Rank(keep, n - 1)) else -1]
  }

  function RenumberBy(i: Instruction, table: seq<i32>): Instruction {
    if IsCall(i.op) && i.imm < |table| && table[i.imm] >= 0 then i.(imm := table[i.imm]) else i
  }

  function RenumberBodyBy(body: Body, table: seq<i32>): (r: Body)
    ensures |r| == |body|
    ensures forall k :: 0 <= k < |body| ==> r[k] == RenumberBy(body[k], table)
  {
    if body == [] then [] else [RenumberBy(body[0], table)] + RenumberBodyBy(body[1..], table)
  }

  /** The pruned module as the table gives it, however many functions there are. */
  function PruneBy(m: Module, keep: set<nat>): Module
    requires HasEntry(m)
  {
    var n := |m.functions|;
    var kept := Kept(keep, n);
    Module(SCHEMA_VERSION,
           seq(|kept|, k requires 0 <= k < |kept| =>
             RankOfKept(keep, n, k);
             m.functions[kept[k]].(instructions := RenumberBodyBy(m.functions[kept[k]].instructions, Table(keep, n)))),
           AsI32(Rank(keep, m.entryIndex)), m.stringTable, m.structLayouts, m.sourceMap)
  }

  /** A size is stored as the signed number of its last 32 bits. */
  lemma {:induction false} StoredModulo(n: nat)
    ensures -0x8000_0000 <= AsI32(n) < 0x8000_0000 && (n - AsI32(n)) % 0x1_0000_0000 == 0
  {
  }

  lemma {:induction false} SmallIsExact(n: nat)
    requires n < TWO31
    ensures AsI32(n) == n
  {
  }

  lemma {:induction false} TableIsExact(body: Body, keep: set<nat>, n: nat)
    requires Rank(keep, n) <= TWO31
    ensures RenumberBodyBy(body, Table(keep, n)) == RenumberBody(body, keep, n)
  {
    forall k | 0 <= k < |body|
      ensures RenumberBy(body[k], Table(keep, n)) == Renumber(body[k], keep, n)
    {
      var i := body[k];
      if IsCall(i.op) && i.imm < n && i.imm in keep {
        KeptAtRank(keep, n, i.imm);
        SmallIsExact(Rank(keep, i.imm));
      }
    }
  }

  /** The table holds the new numbers exactly, as long as at most 2^31 functions are kept. */
  lemma {:induction false} PruneByIsExact(m: Module, keep: set<nat>)
    requires HasEntry(m) && Rank(keep, |m.functions|) <= TWO31
    ensures PruneBy(m, keep) == PruneTo(m, keep)
  {
    hide Table, AsI32, RenumberBodyBy, RenumberBody, Kept, Rank;
    var n := |m.functions|;
    RankMonotone(keep, 0, m.entryIndex);
    RankOfNone(keep);
    SmallIsExact(Rank(keep, m.entryIndex));
    forall k | 0 <= k < Rank(keep, n)
      ensures PruneBy(m, keep).functions[k] == PruneFunctions(m.functions, keep)[k]
    {
      RankOfKept(keep, n, k);
      TableIsExact(m.functions[Kept(keep, n)[k]].instructions, keep, n);
    }
    assert PruneBy(m, keep).functions == PruneFunctions(m.functions, keep);
  }

  lemma {:induction false} RankOfNone(keep: set<nat>)
    ensures Rank(keep, 0) == 0
  {
  }

  /** Function `k` that is left is function `Kept(keep, n)[k]` with the same name, metadata,
      parameters and slots, and as many instructions, each the same but for the immediate of a call. */
  predicate KeepsAllButCalls(functions: seq<Function>, keep: set<nat>, left: seq<Function>) {
    var kept := Kept(keep, |functions|);
    && |left| == |kept|
    && forall k :: 0 <= k < |left| ==>
         kept[k] < |functions| && KeepsButCalls(functions[kept[k]], left[k])
  }

  predicate KeepsButCalls(f: Function, g: Function) {
    && g.name == f.name && g.metadata == f.metadata && g.parameterCount == f.parameterCount
    && g.localDebugSlots == f.localDebugSlots && |g.instructions| == |f.instructions|
    && forall j :: 0 <= j < |f.instructions| ==>
         && g.instructions[j].op == f.instructions[j].op && g.instructions[j].debugId == f.instructions[j].debugId
         && (!IsCall(f.instructions[j].op) ==> g.instructions[j].imm == f.instructions[j].imm)
  }

  lemma {:induction false} RenumberedKeeps(f: Function, table: seq<i32>)
    ensures KeepsButCalls(f, f.(instructions := RenumberBodyBy(f.instructions, table)))
  {
  }

  lemma {:induction false} KeptButForCalls(m: Module, keep: set<nat>)
    requires HasEntry(m)
    ensures KeepsAllButCalls(m.functions, keep, PruneBy(m, keep).functions)
  {
    hide Table, RenumberBodyBy, Kept, Rank, KeepsButCalls;
    var kept := Kept(keep, |m.functions|);
    forall k | 0 <= k < |kept|
      ensures kept[k] < |m.functions| && KeepsButCalls(m.functions[kept[k]], PruneBy(m, keep).functions[k])
    {
      RankOfKept(keep, |m.functions|, k);
      RenumberedKeeps(m.functions[kept[k]], Table(keep, |m.functions|));
    }
  }

  /** `pruneIrModuleToReachableFunctions`. */
  method Prune(m: Module) returns (r: Module, ghost keep: set<nat>)
    ensures !HasEntry(m) ==> r == m
    ensures HasEntry(m) ==> IsReachable(Bodies(m.functions), m.entryIndex, keep) && r == PruneBy(m, keep)
    ensures HasEntry(m) && Rank(keep, |m.functions|) <= TWO31 ==> r == PruneTo(m, keep)
    ensures HasEntry(m) ==>
              && r.schemaVersion == 23 && r.stringTable == m.stringTable
              && r.structLayouts == m.structLayouts && r.sourceMap == m.sourceMap
    ensures HasEntry(m) ==> KeepsAllButCalls(m.functions, keep, r.functions)
  {
    hide IsReachable, Closed, AsI32, PruneTo, RenumberBodyBy, Kept, Rank, KeepsAllButCalls;
    keep := {};
    if !HasEntry(m) {
      return m, {};
    }
    var n := |m.functions|;
    var marks := FindReachable(Bodies(m.functions), m.entryIndex);
    keep := Marked(marks);
    var oldToNew, functions := CopyKept(m.functions, marks);
    functions := RenumberAll(functions, oldToNew);
    EntryIsKept(m, keep);
    r := Module(SCHEMA_VERSION, functions, oldToNew[m.entryIndex], m.stringTable, m.structLayouts, m.sourceMap);
    assert functions == PruneBy(m, keep).functions;
    KeptButForCalls(m, keep);
    if Rank(keep, n) <= TWO31 {
      PruneByIsExact(m, keep);
    }
  }

  /** The kept functions in their order, and the table of their new numbers. */
  method CopyKept(functions: seq<Function>, marks: seq<bool>) returns (oldToNew: seq<i32>, kept: seq<Function>)
    requires |marks| == |functions|
    ensures var keep, n := Marked(marks), |functions|;
            && oldToNew == Table(keep, n) && |kept| == Rank(keep, n)
            && forall k :: 0 <= k < |kept| ==> Kept(keep, n)[k] < n && kept[k] == functions[Kept(keep, n)[k]]
  {
    hide AsI32;
    ghost var keep := Marked(marks);
    oldToNew, kept := [], [];
    for f := 0 to |functions|
      invariant oldToNew == Table(keep, f) && |kept| == Rank(keep, f)
      invariant forall k :: 0 <= k < |kept| ==> Kept(keep, f)[k] < |functions| && kept[k] == functions[Kept(keep, f)[k]]
    {
      if marks[f] {
        oldToNew := oldToNew + [AsI32(|kept|)];
        kept := kept + [functions[f]];
      } else {
        oldToNew := oldToNew + [-1];
      }
    }
  }

  /** Renumbers the calls of every function in place. */
  method RenumberAll(functions: seq<Function>, oldToNew: seq<i32>) returns (r: seq<Function>)
    ensures |r| == |functions|
    ensures forall k :: 0 <= k < |r| ==>
              r[k] == functions[k].(instructions := RenumberBodyBy(functions[k].instructions, oldToNew))
  {
    hide RenumberBodyBy;
    r := functions;
    for k := 0 to |functions|
      invariant |r| == |functions|
      invariant forall j :: k <= j < |functions| ==> r[j] == functions[j]
      invariant forall j :: 0 <= j < k ==>
                  r[j] == functions[j].(instructions := RenumberBodyBy(functions[j].instructions, oldToNew))
    {
      var body := RenumberCalls(r[k].instructions, oldToNew);
      r := r[k := r[k].(instructions := body)];
    }
  }

  lemma {:induction false} EntryIsKept(m: Module, keep: set<nat>)
    requires HasEntry(m) && IsReachable(Bodies(m.functions), m.entryIndex, keep)
    ensures m.entryIndex in keep
  {
  }

  method RenumberCalls(body: Body, oldToNew: seq<i32>) returns (r: Body)
    ensures r == RenumberBodyBy(body, oldToNew)
  {
    r := body;
    for j := 0 to |body|
      invariant |r| == |body|
      invariant forall k :: j <= k < |body| ==> r[k] == body[k]
      invariant forall k :: 0 <= k < j ==> r[k] == RenumberBy(body[k], oldToNew)
    {
      if !IsCall(body[j].op) {
        continue;
      }
      var target := body[j].imm;
      if target >= |oldToNew| || oldToNew[target] < 0 {
        continue;
      }
      r := r[j := r[j].(imm := oldToNew[target])];
    }
  }
}
