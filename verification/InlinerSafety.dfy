/** When inlining is safe, told by the module before it is inlined. */
module InlinerSafety {
  import opened Ir
  import opened Machine
  import opened Widths
  import opened Inliner
  import opened InlinerMeaning

  // ----- functions that never become leaves -----

  /** Each function of `never` has a jump, or a call to a function of `never`: such a call is
      not inlined, so none of them ever becomes a leaf. */
  predicate IsNever(bodies: seq<Body>, never: set<nat>) {
    forall f :: f in never ==> f < |bodies| && (HasJump(bodies[f]) || exists i :: i in bodies[f] && IsCall(i.op) && i.imm in never)
  }

  lemma {:induction false} NeverIsNoLeaf(s: State, never: set<nat>)
    requires LeavesKnown(s) && IsNever(s.bodies, never)
    ensures Leaves(s) !! never
  {
  }

  lemma {:induction false} VisitKeepsNever(s: State, f: nat, never: set<nat>)
    requires LeavesKnown(s) && f < |s.bodies| && IsNever(s.bodies, never) && VisitFunction(s, f).Ok?
    ensures IsNever(VisitFunction(s, f).value.state.bodies, never)
  {
    hide Rewrite, IsLeaf, CallCount;
    NeverIsNoLeaf(s, never);
    RewriteKeepsFlow(s, f, s.bodies[f], s.counts[f]);
    var after: seq<Body> := VisitFunction(s, f).value.state.bodies;
    forall h | h in never
      ensures HasJump(after[h]) || exists i: Instruction :: i in after[h] && IsCall(i.op) && i.imm in never
    {
      if h == f && !HasJump(s.bodies[h]) {
        var i :| i in s.bodies[h] && IsCall(i.op) && i.imm in never;
        assert !IsInlineable(s, f, i) by { assert i.imm !in Leaves(s); }
      }
    }
  }

  // ----- slots -----

  predicate ValidTargets(body: Body, count: nat) { forall i :: i in body && IsCall(i.op) ==> i.imm < count }

  predicate SlotsBelow(body: Body, bound: nat) { forall i :: i in body && IsLocalOp(i.op) ==> i.imm < bound }

  /** The slots set aside for the calls of function `f` that may be inlined. */
  function CallNeed(body: Body, f: nat, never: set<nat>, need: seq<nat>): nat {
    if body == [] then 0
    else
      var i := body[0];
      (if IsCall(i.op) && i.imm != f && i.imm !in never && i.imm < |need| then need[i.imm] else 0)
      + CallNeed(body[1..], f, never, need)
  }

  /** With `need[f]` slots function `f` has room for its own and for those of every callee. */
  predicate Suffices(bodies: seq<Body>, never: set<nat>, need: seq<nat>) {
    && |need| == |bodies|
    && forall f :: 0 <= f < |bodies| ==>
         && NoTopSlot(bodies[f]) && ValidTargets(bodies[f], |bodies|) && need[f] < TWO64
         && LocalCount(bodies[f]) + CallNeed(bodies[f], f, never, need) <= need[f]
  }

  predicate HasRoom(s: State, f: nat, never: set<nat>, need: seq<nat>)
    requires WellFormed(s) && f < |s.bodies| == |need|
  {
    && SlotsBelow(s.bodies[f], s.counts[f]) && ValidTargets(s.bodies[f], |s.bodies|) && need[f] < TWO64
    && s.counts[f] + CallNeed(s.bodies[f], f, never, need) <= need[f]
  }

  /** The same of every function on the way. */
  predicate Roomy(s: State, never: set<nat>, need: seq<nat>) {
    && LeavesKnown(s) && IsNever(s.bodies, never) && |need| == |s.bodies|
    && forall f :: 0 <= f < |s.bodies| ==> HasRoom(s, f, never, need)
  }

  lemma {:induction false} CountBoundsSlots(body: Body)
    requires NoTopSlot(body)
    ensures SlotsBelow(body, LocalCount(body))
  {
    if body != [] {
      assert body == [body[0]] + body[1..];
      CountBoundsSlots(body[1..]);
    }
  }

  lemma {:induction false} NeedConcat(a: Body, b: Body, f: nat, never: set<nat>, need: seq<nat>)
    ensures CallNeed(a + b, f, never, need) == CallNeed(a, f, never, need) + CallNeed(b, f, never, need)
  {
    if a == [] {
      assert a + b == b;
    } else {
      assert (a + b)[1..] == a[1..] + b;
      NeedConcat(a[1..], b, f, never, need);
    }
  }

  lemma {:induction false} NoCallNoNeed(body: Body, f: nat, never: set<nat>, need: seq<nat>)
    requires !HasCall(body)
    ensures CallNeed(body, f, never, need) == 0
  {
    if body != [] {
      assert body[0] in body;
      NoCallNoNeed(body[1..], f, never, need);
    }
  }

  /** Code with room for its slots is spliced without overflow. */
  lemma {:induction false} SpliceFits(callee: Body, base: u64, keepsValue: bool, count: nat)
    requires SlotsBelow(callee, count) && base + count < TWO64
    ensures SpliceAll(callee, base, keepsValue).Ok?
    ensures SlotsBelow(SpliceAll(callee, base, keepsValue).value, base + count)
  {
    if callee != [] {
      assert callee[0] in callee;
      SpliceFits(callee[1..], base, keepsValue, count);
    }
  }

  lemma {:induction false} LeafFits(callee: Body, base: u64, keepsValue: bool, count: nat)
    requires IsLeaf(callee) && SlotsBelow(callee, count) && base + count < TWO64
    ensures Splice(callee, base, keepsValue).Ok?
    ensures SlotsBelow(Splice(callee, base, keepsValue).value, base + count) && !HasCall(Splice(callee, base, keepsValue).value)
  {
    hide SpliceAll;
    SpliceFits(callee, base, keepsValue, count);
    SplicedCodeIsPlain(callee, base, keepsValue);
  }

  lemma {:induction false} RewriteFits(s: State, f: nat, body: Body, next: u64, never: set<nat>, need: seq<nat>)
    requires Roomy(s, never, need) && ValidTargets(body, |s.bodies|) && SlotsBelow(body, next)
    requires next + CallNeed(body, f, never, need) < TWO64
    ensures Rewrite(s, f, body, next).Ok?
    ensures var r := Rewrite(s, f, body, next).value;
            && next <= r.next && SlotsBelow(r.body, r.next) && ValidTargets(r.body, |s.bodies|)
            && r.next + CallNeed(r.body, f, never, need) <= next + CallNeed(body, f, never, need)
    decreases |body|
  {
    hide IsNever, IsLeaf, LocalCount, Splice;
    if body != [] {
      var i := body[0];
      assert i in body && body == [i] + body[1..];
      if !IsInlineable(s, f, i) {
        RewriteFits(s, f, body[1..], next, never, need);
        var rest := Rewrite(s, f, body[1..], next).value.body;
        NeedConcat([i], rest, f, never, need);
        NeedConcat([i], body[1..], f, never, need);
      } else {
        NeverIsNoLeaf(s, never);
        assert i.imm in Leaves(s) && HasRoom(s, i.imm, never, need);
        var next' := next + s.counts[i.imm];
        LeafFits(s.bodies[i.imm], next, i.op == CALL, s.counts[i.imm]);
        RewriteFits(s, f, body[1..], next', never, need);
        RewriteFitsCallee(s, f, body, next, never, need);
      }
    }
  }

  lemma {:induction false} RewriteFitsCallee(s: State, f: nat, body: Body, next: u64, never: set<nat>, need: seq<nat>)
    requires WellFormed(s) && body != [] && IsInlineable(s, f, body[0])
    requires next + s.counts[body[0].imm] < TWO64
    requires Splice(s.bodies[body[0].imm], next, body[0].op == CALL).Ok?
    requires var code := Splice(s.bodies[body[0].imm], next, body[0].op == CALL).value;
             SlotsBelow(code, next + s.counts[body[0].imm]) && !HasCall(code)
    requires Rewrite(s, f, body[1..], next + s.counts[body[0].imm]).Ok?
    requires var r := Rewrite(s, f, body[1..], next + s.counts[body[0].imm]).value;
             next + s.counts[body[0].imm] <= r.next && SlotsBelow(r.body, r.next) && ValidTargets(r.body, |s.bodies|)
    ensures Rewrite(s, f, body, next).Ok?
    ensures var r, t := Rewrite(s, f, body, next).value, Rewrite(s, f, body[1..], next + s.counts[body[0].imm]).value;
            && r.next == t.next && SlotsBelow(r.body, r.next) && ValidTargets(r.body, |s.bodies|)
            && CallNeed(r.body, f, never, need) == CallNeed(t.body, f, never, need)
  {
    hide Splice;
    var i := body[0];
    var code := Splice(s.bodies[i.imm], next, i.op == CALL).value;
    var t := Rewrite(s, f, body[1..], next + s.counts[i.imm]).value;
    NoCallNoNeed(code, f, never, need);
    NeedConcat(code, t.body, f, never, need);
  }

  lemma {:induction false} VisitFits(s: State, f: nat, never: set<nat>, need: seq<nat>)
    requires Roomy(s, never, need) && f < |s.bodies|
    ensures VisitFunction(s, f).Ok? && Roomy(VisitFunction(s, f).value.state, never, need)
  {
    hide Rewrite, IsNever, IsLeaf, CallNeed, SlotsBelow, ValidTargets;
    assert HasRoom(s, f, never, need);
    RewriteFits(s, f, s.bodies[f], s.counts[f], never, need);
    VisitIsLater(s, f);
    VisitKeepsNever(s, f, never);
    var t := VisitFunction(s, f).value.state;
    forall h | 0 <= h < |t.bodies|
      ensures HasRoom(t, h, never, need)
    {
      assert HasRoom(s, h, never, need);
    }
  }

  lemma {:induction false} ScanFits(s: State, f: nat, never: set<nat>, need: seq<nat>)
    requires Roomy(s, never, need) && f <= |s.bodies|
    ensures Scan(s, f).Ok? && Roomy(Scan(s, f).value.state, never, need)
    decreases |s.bodies| - f
  {
    hide VisitFunction, Roomy;
    RoomyIsWellFormed(s, never, need);
    if f < |s.bodies| {
      VisitFits(s, f, never, need);
      RoomyIsWellFormed(VisitFunction(s, f).value.state, never, need);
      ScanFits(VisitFunction(s, f).value.state, f + 1, never, need);
    }
  }

  lemma {:induction false} RoomyIsWellFormed(s: State, never: set<nat>, need: seq<nat>)
    requires Roomy(s, never, need)
    ensures WellFormed(s) && LeavesKnown(s) && |need| == |s.bodies|
  {
  }

  lemma {:induction false} PassesFit(s: State, passes: nat, never: set<nat>, need: seq<nat>)
    requires Roomy(s, never, need)
    ensures WellFormed(s) && Passes(s, passes).Ok? && Roomy(Passes(s, passes).value.state, never, need)
    decreases passes
  {
    hide Scan, Roomy;
    RoomyIsWellFormed(s, never, need);
    if passes > 0 {
      ScanFits(s, 0, never, need);
      if Scan(s, 0).value.changed {
        PassesFit(Scan(s, 0).value.state, passes - 1, never, need);
      }
    }
  }

  /** With room for all slots and only valid targets, inlining reports no error, never makes a
      function of `never` a leaf, and leaves no slot numbered 2^64 - 1. */
  lemma {:induction false} InliningSucceeds(bodies: seq<Body>, never: set<nat>, need: seq<nat>)
    requires IsNever(bodies, never) && Suffices(bodies, never, need)
    ensures InlineBodies(bodies).Ok? && InlineBodies(bodies).value.state == InlineReached(bodies)
    ensures forall f :: 0 <= f < |bodies| ==> NoTopSlot(InlineReached(bodies).bodies[f])
    ensures Leaves(InlineReached(bodies)) !! never
  {
    hide Passes, Reached, IsNever, IsLeaf, CallNeed, LocalCount;
    var s := Start(bodies);
    forall f | 0 <= f < |bodies|
      ensures HasRoom(s, f, never, need)
    {
      CountBoundsSlots(bodies[f]);
    }
    PassesFit(s, 2 * |bodies| + 1, never, need);
    PassesReach(s, 2 * |bodies| + 1);
    var t := InlineBodies(bodies).value.state;
    NeverIsNoLeaf(t, never);
    forall f | 0 <= f < |bodies|
      ensures NoTopSlot(t.bodies[f])
    {
      assert HasRoom(t, f, never, need);
    }
  }

  // ----- guards -----

  /** Functions that may turn out to be leaves. */
  function Candidates(bodies: seq<Body>, never: set<nat>): set<nat> { set h | 0 <= h < |bodies| && h !in never }

  /** The functions that may change, and those that may be inlined into another. */
  function StaticGuards(bodies: seq<Body>, never: set<nat>, top: nat): (g: Guards)
    ensures g.top == top
  {
    Guards((set f | 0 <= f < |bodies| && !AvoidsCalls(bodies[f], f, Candidates(bodies, never))),
           (set h | h in Candidates(bodies, never) && IsCalled(bodies, h)), top)
  }

  lemma {:induction false} StaticGuardsCover(bodies: seq<Body>, never: set<nat>, top: nat)
    requires Leaves(InlineReached(bodies)) !! never
    requires forall f :: 0 <= f < |bodies| ==> NoTopSlot(InlineReached(bodies).bodies[f])
    ensures Covers(StaticGuards(bodies, never, top), Start(bodies), InlineReached(bodies))
  {
    hide Reached, NoTopSlot, CallCount, IsCalled, IsLeaf, BodyLater;
    ReachedIsLater(Start(bodies), 2 * |bodies| + 1);
    var s, t := Start(bodies), InlineReached(bodies);
    var g := StaticGuards(bodies, never, top);
    assert Leaves(t) <= Candidates(bodies, never);
    forall f | 0 <= f < |bodies|
      ensures AvoidsCalls(s.bodies[f], f, Leaves(t) - g.spliced)
    {
      CalledIsCovered(s, t, g.spliced, f);
    }
  }

  /** Straight code that returns once, at its end, that reaches a slot only by LoadLocal and
      StoreLocal, and whose 32-bit return hands over a word that is known to fit. */
  predicate IsStaticLeaf(effects: Effects, bodies: seq<Body>, body: Body) {
    forall k :: 0 <= k < |body| ==>
      var op := body[k].op;
      && !IsSly(op) && !IsJump(op) && (IsReturn(op) ==> k == |body| - 1)
      && (op == RETURN_I32 ==> TopFact(FactsAt(effects, bodies, body, k)).i32)
      && (op == RETURN_F32 ==> TopFact(FactsAt(effects, bodies, body, k)).f32)
  }

  /** Guarded functions that change do not jump; those that are inlined are static leaves. */
  predicate StaticallySafe(effects: Effects, g: Guards, bodies: seq<Body>) {
    forall f :: 0 <= f < |bodies| ==>
      (f in g.rewritten ==> !HasJump(bodies[f])) && (f in g.spliced ==> IsStaticLeaf(effects, bodies, bodies[f]))
  }

  /** In a frame under the conditions on inlined functions, what the code tells is true. */
  ghost predicate Known<W>(effects: Effects, g: Guards, bodies: seq<Body>, f: nat, depth: nat, pc: nat, d: Data<W>)
    requires f < |bodies|
  {
    f in g.spliced && depth > g.top && pc <= |bodies[f]| ==> Hold(FactsAt(effects, bodies, bodies[f], pc), d.stack, d.locals)
  }

  lemma {:induction false} SafeCodeIsPermitted<W>(
    effects: Effects, g: Guards, bodies: seq<Body>, f: nat, depth: nat, pc: nat, d: Data<W>)
    requires StaticallySafe(effects, g, bodies) && f < |bodies| && Known(effects, g, bodies, f, depth, pc, d)
    ensures Permitted(g, f, depth, bodies[f], pc, d.stack)
  {
    hide FactsAt, Hold, SignExtend32;
    if pc < |bodies[f]| {
      assert bodies[f][pc] in bodies[f];
      if f in g.spliced && depth > g.top && d.stack != [] {
        TopHolds(FactsAt(effects, bodies, bodies[f], pc), d.stack, d.locals);
      }
    }
  }

  /** A data instruction keeps the facts, and such code does not jump away from them. */
  lemma {:induction false} KnownOn<W(!new)>(
    host: Host<W>, effects: Effects, g: Guards, bodies: seq<Body>, f: nat, depth: nat, pc: nat, d: Data<W>)
    requires Describes(effects, host) && StaticallySafe(effects, g, bodies) && f < |bodies|
    requires Known(effects, g, bodies, f, depth, pc, d) && Execute(host, bodies[f], pc, d).Next?
    ensures var n := Execute(host, bodies[f], pc, d); Known(effects, g, bodies, f, depth, n.pc, n.data)
  {
    hide Hold, Describes, Learn, DataStep;
    if f in g.spliced && depth > g.top {
      var i := bodies[f][pc];
      LearnHolds(host, effects, bodies, i, FactsAt(effects, bodies, bodies[f], pc), d);
    }
  }

  /** Behind a call the value returned is known to have the width of the callee's returns. */
  lemma {:induction false} KnownBehindCall<W>(
    host: Host<W>, effects: Effects, g: Guards, bodies: seq<Body>, f: nat, depth: nat, pc: nat, d: Data<W>, fuel: nat)
    requires f < |bodies| && pc < |bodies[f]| && IsCall(bodies[f][pc].op) && bodies[f][pc].imm < |bodies|
    requires Known(effects, g, bodies, f, depth, pc, d)
    requires Invoke(host, Unguarded, bodies, bodies[f][pc].imm, depth + 1, d.stack, d.world, fuel).Returned?
    ensures var r := Invoke(host, Unguarded, bodies, bodies[f][pc].imm, depth + 1, d.stack, d.world, fuel);
            Known(effects, g, bodies, f, depth, pc + 1, AfterCall(bodies[f][pc], r, d))
  {
    hide Hold, Run, LocalCount, Fits, ResultWidth;
    var i := bodies[f][pc];
    var r := Invoke(host, Unguarded, bodies, i.imm, depth + 1, d.stack, d.world, fuel);
    ResultFits(host, bodies, i.imm, depth + 1, 0, Data(d.stack, Zeros(LocalCount(bodies[i.imm])), d.world), fuel);
    if f in g.spliced && depth > g.top {
      var facts := FactsAt(effects, bodies, bodies[f], pc);
      var after := AfterCall(i, r, d);
      ForgetHolds(facts, d.stack, d.locals, after.stack, if i.op == CALL then [ResultWidth(bodies[i.imm])] else []);
    }
  }

  lemma {:induction false} KnownAtStart<W>(effects: Effects, g: Guards, bodies: seq<Body>, f: nat, depth: nat, stack: seq<u64>, world: W)
    requires f < |bodies|
    ensures Known(effects, g, bodies, f, depth, 0, Data(stack, Zeros(LocalCount(bodies[f])), world))
  {
    hide LocalCount, Hold;
    ZerosHold(stack, LocalCount(bodies[f]));
  }

  lemma {:induction false} SafeRunIsGuarded<W(!new)>(
    host: Host<W>, effects: Effects, g: Guards, bodies: seq<Body>, f: nat, depth: nat, pc: nat, d: Data<W>, fuel: nat)
    requires Describes(effects, host) && StaticallySafe(effects, g, bodies) && f < |bodies|
    requires Known(effects, g, bodies, f, depth, pc, d)
    ensures Run(host, g, bodies, f, depth, pc, d, fuel) == Run(host, Unguarded, bodies, f, depth, pc, d, fuel)
    decreases fuel, 1
  {
    hide StaticallySafe, Execute, Permitted, LocalCount, Known, Describes;
    SafeCodeIsPermitted(effects, g, bodies, f, depth, pc, d);
    UnguardedPermitsAll(f, depth, bodies[f], pc, d.stack);
    if fuel > 0 {
      match Execute(host, bodies[f], pc, d)
      case Stuck =>
      case Leave(_, _, _) =>
      case Next(pc', d') =>
        KnownOn(host, effects, g, bodies, f, depth, pc, d);
        SafeRunIsGuarded(host, effects, g, bodies, f, depth, pc', d', fuel - 1);
      case Enter(target, keepsValue) => SafeCallIsGuarded(host, effects, g, bodies, f, depth, pc, d, fuel);
    }
  }

  lemma {:induction false} SafeCallIsGuarded<W(!new)>(
    host: Host<W>, effects: Effects, g: Guards, bodies: seq<Body>, f: nat, depth: nat, pc: nat, d: Data<W>, fuel: nat)
    requires Describes(effects, host) && StaticallySafe(effects, g, bodies) && f < |bodies| && fuel > 0
    requires Known(effects, g, bodies, f, depth, pc, d) && Execute(host, bodies[f], pc, d).Enter?
    ensures Run(host, g, bodies, f, depth, pc, d, fuel) == Run(host, Unguarded, bodies, f, depth, pc, d, fuel)
    decreases fuel, 0
  {
    hide StaticallySafe, Permitted, LocalCount, Known, Describes, DataStep;
    SafeCodeIsPermitted(effects, g, bodies, f, depth, pc, d);
    UnguardedPermitsAll(f, depth, bodies[f], pc, d.stack);
    var i := bodies[f][pc];
    if i.imm < |bodies| && depth < host.maxCallDepth {
      KnownAtStart(effects, g, bodies, i.imm, depth + 1, d.stack, d.world);
      SafeRunIsGuarded(host, effects, g, bodies, i.imm, depth + 1, 0,
                       Data(d.stack, Zeros(LocalCount(bodies[i.imm])), d.world), fuel - 1);
      var called := Invoke(host, Unguarded, bodies, i.imm, depth + 1, d.stack, d.world, fuel - 1);
      if called.Returned? {
        KnownBehindCall(host, effects, g, bodies, f, depth, pc, d, fuel - 1);
        SafeRunIsGuarded(host, effects, g, bodies, f, depth, pc + 1, AfterCall(i, called, d), fuel - 1);
      }
    }
  }

  /** Everything that is asked of a module, before it is inlined: `never`, `need` and `effects` are
      what an analysis of its calls, its slots and the host's opcodes has found. */
  predicate IsSafe(bodies: seq<Body>, never: set<nat>, need: seq<nat>, effects: Effects) {
    && IsNever(bodies, never) && Suffices(bodies, never, need)
    && StaticallySafe(effects, StaticGuards(bodies, never, 0), bodies)
  }

  /** A safe module inlines without error, and no condition on the run remains but that it returns. */
  lemma {:induction false} SafeInliningPreservesMeaning<W(!new)>(
    host: Host<W>, bodies: seq<Body>, never: set<nat>, need: seq<nat>, effects: Effects,
    f: nat, depth: nat, stack: seq<u64>, world: W, fuel: nat)
    returns (fuel': nat)
    requires f < |bodies| && IsSafe(bodies, never, need, effects) && Describes(effects, host)
    requires Invoke(host, Unguarded, bodies, f, depth, stack, world, fuel).Returned?
    ensures InlineBodies(bodies).Ok?
    ensures Invoke(host, Unguarded, InlineBodies(bodies).value.state.bodies, f, depth, stack, world, fuel') ==
            Invoke(host, Unguarded, bodies, f, depth, stack, world, fuel)
  {
    hide Run, Passes, Reached, Start, StaticallySafe, StaticGuards, NoTopSlot, Covers, IsNever, Suffices, Leaves, Known, Describes;
    var g := StaticGuards(bodies, never, 0);
    InliningSucceeds(bodies, never, need);
    StaticGuardsCover(bodies, never, 0);
    KnownAtStart(effects, g, bodies, f, depth, stack, world);
    SafeRunIsGuarded(host, effects, g, bodies, f, depth, 0, Data(stack, Zeros(LocalCount(bodies[f])), world), fuel);
    fuel' := CoveredRunIsPreserved(host, g, bodies, f, depth, stack, world, fuel);
  }
}
