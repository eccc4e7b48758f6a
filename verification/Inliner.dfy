/** The call inliner: what it computes, and why its number of passes is enough. */
module Inliner {
  import opened Ir
  import opened Fallibles
  import opened Sets

  datatype Error =
    | EmptyCallee
    | CalleeWithoutReturn
    | SlotOverflow
    | InvalidTarget(target: u64, caller: nat)

  type Result<+T> = Fallible<T, Error>

  // ----- leaves -----

  predicate HasCall(body: Body) { exists i :: i in body && IsCall(i.op) }

  predicate HasJump(body: Body) { exists i :: i in body && IsJump(i.op) }

  predicate IsLeaf(body: Body) {
    !HasCall(body) && !HasJump(body) && body != [] && IsReturn(body[|body| - 1].op)
  }

  function CallCount(body: Body): nat {
    if body == [] then 0 else (if IsCall(body[0].op) then 1 else 0) + CallCount(body[1..])
  }

  // ----- splicing one callee -----

  function SpliceOne(i: Instruction, base: u64, keepsValue: bool): Result<Body> {
    if IsLocalOp(i.op) then
      if i.imm > TWO64 - 1 - base then Err(SlotOverflow)
      else Ok([Instruction(i.op, i.imm + base, 0)])
    else if i.op == RETURN_VOID then
      Ok(if keepsValue then [Instruction(PUSH_I32, 0, 0)] else [])
    else if IsValueReturn(i.op) then
      Ok(if keepsValue then [] else [Instruction(POP, 0, 0)])
    else Ok([i])
  }

  function SpliceAll(callee: Body, base: u64, keepsValue: bool): Result<Body> {
    if callee == [] then Ok([])
    else
      var here :- SpliceOne(callee[0], base, keepsValue);
      var rest :- SpliceAll(callee[1..], base, keepsValue);
      Ok(here + rest)
  }

  function Splice(callee: Body, base: u64, keepsValue: bool): Result<Body> {
    if callee == [] then Err(EmptyCallee)
    else if !IsReturn(callee[|callee| - 1].op) then Err(CalleeWithoutReturn)
    else SpliceAll(callee, base, keepsValue)
  }

  // ----- rewriting one function -----

  datatype State = State(bodies: seq<Body>, counts: seq<u64>, leaf: seq<bool>)

  predicate WellFormed(s: State) { |s.counts| == |s.bodies| && |s.leaf| == |s.bodies| }

  datatype Rewritten = Rewritten(body: Body, next: u64, changed: bool)

  predicate IsInlineable(s: State, f: nat, i: Instruction)
    requires WellFormed(s)
  {
    IsCall(i.op) && i.imm < |s.bodies| && i.imm != f && s.leaf[i.imm]
  }

  /** Rewrites `body`, giving each inlined callee its own slots from `next` on. */
  function Rewrite(s: State, f: nat, body: Body, next: u64): Result<Rewritten>
    requires WellFormed(s)
  {
    if body == [] then Ok(Rewritten([], next, false))
    else
      var i := body[0];
      if IsCall(i.op) && i.imm >= |s.bodies| then Err(InvalidTarget(i.imm, f))
      else if !IsInlineable(s, f, i) then
        var r :- Rewrite(s, f, body[1..], next);
        Ok(r.(body := [i] + r.body))
      else
        var code :- Splice(s.bodies[i.imm], next, i.op == CALL);
        var r :- Rewrite(s, f, body[1..], Add64(next, s.counts[i.imm]));
        Ok(Rewritten(code + r.body, r.next, true))
  }

  // ----- passes -----

  datatype Visit = Visit(state: State, changed: bool)

  function VisitFunction(s: State, f: nat): (r: Result<Visit>)
    requires WellFormed(s) && f < |s.bodies|
    ensures r.Ok? ==> WellFormed(r.value.state) && |r.value.state.bodies| == |s.bodies|
  {
    var r :- Rewrite(s, f, s.bodies[f], s.counts[f]);
    Ok(if r.changed
       then Visit(State(s.bodies[f := r.body], s.counts[f := r.next], s.leaf[f := IsLeaf(r.body)]), true)
       else Visit(s, false))
  }

  /** The rest of a pass, from function `f` on. */
  function Scan(s: State, f: nat): (r: Result<Visit>)
    requires WellFormed(s) && f <= |s.bodies|
    ensures r.Ok? ==> WellFormed(r.value.state) && |r.value.state.bodies| == |s.bodies|
    decreases |s.bodies| - f
  {
    if f == |s.bodies| then Ok(Visit(s, false))
    else
      var v :- VisitFunction(s, f);
      var r :- Scan(v.state, f + 1);
      Ok(r.(changed := v.changed || r.changed))
  }

  /** Where at most `passes` passes lead, and whether the last one changed nothing. */
  datatype Final = Final(state: State, settled: bool)

  function Passes(s: State, passes: nat): (r: Result<Final>)
    requires WellFormed(s)
    ensures r.Ok? ==> WellFormed(r.value.state) && |r.value.state.bodies| == |s.bodies|
    decreases passes
  {
    if passes == 0 then Ok(Final(s, false))
    else
      var v :- Scan(s, 0);
      if v.changed then Passes(v.state, passes - 1) else Ok(Final(v.state, true))
  }

  function Start(bodies: seq<Body>): (s: State)
    ensures s.bodies == bodies && |s.counts| == |bodies| && |s.leaf| == |bodies|
    ensures forall g :: 0 <= g < |bodies| ==> s.counts[g] == LocalCount(bodies[g]) && s.leaf[g] == IsLeaf(bodies[g])
    decreases |bodies|
  {
    if bodies == [] then State([], [], [])
    else
      var last := |bodies| - 1;
      var s := Start(bodies[..last]);
      State(bodies, s.counts + [LocalCount(bodies[last])], s.leaf + [IsLeaf(bodies[last])])
  }

  /** The whole transformation on instruction lists. */
  function InlineBodies(bodies: seq<Body>): Result<Final> {
    Passes(Start(bodies), 2 * |bodies| + 1)
  }

  /** The state in which the rest of a pass ends or, at an error, stops. */
  function ScanReached(s: State, f: nat): (r: State)
    requires WellFormed(s) && f <= |s.bodies|
    ensures WellFormed(r) && |r.bodies| == |s.bodies|
    decreases |s.bodies| - f
  {
    if f == |s.bodies| then s
    else match VisitFunction(s, f) case Err(_) => s case Ok(v) => ScanReached(v.state, f + 1)
  }

  /** The state in which at most `passes` passes end or stop. */
  function Reached(s: State, passes: nat): (r: State)
    requires WellFormed(s)
    ensures WellFormed(r) && |r.bodies| == |s.bodies|
    decreases passes
  {
    if passes == 0 then s
    else
      match Scan(s, 0)
      case Err(_) => ScanReached(s, 0)
      case Ok(v) => if v.changed then Reached(v.state, passes - 1) else v.state
  }

  lemma {:induction false} ScanReaches(s: State, f: nat)
    requires WellFormed(s) && f <= |s.bodies| && Scan(s, f).Ok?
    ensures ScanReached(s, f) == Scan(s, f).value.state
    decreases |s.bodies| - f
  {
    hide Rewrite;
    if f < |s.bodies| {
      ScanReaches(VisitFunction(s, f).value.state, f + 1);
    }
  }

  lemma {:induction false} PassesReach(s: State, passes: nat)
    requires WellFormed(s) && Passes(s, passes).Ok?
    ensures Reached(s, passes) == Passes(s, passes).value.state
    decreases passes
  {
    hide Scan, ScanReached;
    if passes > 0 && Scan(s, 0).value.changed {
      PassesReach(Scan(s, 0).value.state, passes - 1);
    }
  }

  // ----- what a rewrite does to the calls of a function -----

  function Leaves(s: State): set<nat> { set g | 0 <= g < |s.leaf| && s.leaf[g] }

  predicate LeavesKnown(s: State) {
    WellFormed(s) && forall g :: 0 <= g < |s.bodies| ==> s.leaf[g] == IsLeaf(s.bodies[g])
  }

  /** Function `f` calls no function of `targets` other than itself. */
  predicate AvoidsCalls(body: Body, f: nat, targets: set<nat>) {
    forall i :: i in body && IsCall(i.op) && i.imm != f ==> i.imm !in targets
  }

  lemma {:induction false} SplicedCodeIsPlain(callee: Body, base: u64, keepsValue: bool)
    requires !HasCall(callee) && SpliceAll(callee, base, keepsValue).Ok?
    ensures CallCount(SpliceAll(callee, base, keepsValue).value) == 0
    ensures !HasCall(SpliceAll(callee, base, keepsValue).value)
  {
    if callee != [] {
      assert callee[0] in callee && forall i :: i in callee[1..] ==> i in callee;
      SplicedCodeIsPlain(callee[1..], base, keepsValue);
      CallCountConcat(SpliceOne(callee[0], base, keepsValue).value, SpliceAll(callee[1..], base, keepsValue).value);
    }
  }

  lemma {:induction false} CallCountConcat(a: Body, b: Body)
    ensures CallCount(a + b) == CallCount(a) + CallCount(b)
  {
    if a == [] {
      assert a + b == b;
    } else {
      assert (a + b)[1..] == a[1..] + b;
      CallCountConcat(a[1..], b);
    }
  }

  /** A rewrite happens exactly when some call is inlineable, removes every such call, and
      loses calls whenever it changes anything. */
  lemma {:induction false} RewriteCalls(s: State, f: nat, body: Body, next: u64)
    requires LeavesKnown(s) && Rewrite(s, f, body, next).Ok?
    ensures var r := Rewrite(s, f, body, next).value;
            && (r.changed <==> exists i :: i in body && IsInlineable(s, f, i))
            && (!r.changed ==> r.body == body && r.next == next)
            && CallCount(r.body) <= CallCount(body)
            && (r.changed ==> CallCount(r.body) < CallCount(body))
            && AvoidsCalls(r.body, f, Leaves(s))
  {
    hide LocalCount, IsLeaf, Splice;
    if body != [] {
      var i := body[0];
      assert body == [i] + body[1..];
      assert forall x :: x in body <==> x == i || x in body[1..];
      if !IsInlineable(s, f, i) {
        RewriteCalls(s, f, body[1..], next);
      } else {
        var callee := s.bodies[i.imm];
        LeafHasNoCall(callee);
        var code := Splice(callee, next, i.op == CALL).value;
        var next' := Add64(next, s.counts[i.imm]);
        SpliceHasNoCall(callee, next, i.op == CALL);
        RewriteCalls(s, f, body[1..], next');
        CallCountConcat(code, Rewrite(s, f, body[1..], next').value.body);
      }
    }
  }

  /** No call is added and no jump dropped. */
  predicate KeepsFlow(a: Body, b: Body) {
    (forall i :: i in b && IsCall(i.op) ==> i in a) && (forall i :: i in a && IsJump(i.op) ==> i in b)
  }

  /** A rewrite adds no call, and drops nothing but the calls it inlines. */
  lemma {:induction false} RewriteKeepsFlow(s: State, f: nat, body: Body, next: u64)
    requires LeavesKnown(s) && Rewrite(s, f, body, next).Ok?
    ensures KeepsFlow(body, Rewrite(s, f, body, next).value.body)
    ensures forall i :: i in body && !IsInlineable(s, f, i) ==> i in Rewrite(s, f, body, next).value.body
  {
    hide CallCount, Splice, LocalCount, IsLeaf;
    if body != [] {
      var i := body[0];
      assert body == [i] + body[1..];
      if !IsInlineable(s, f, i) {
        RewriteKeepsFlow(s, f, body[1..], next);
      } else {
        RewriteKeepsFlow(s, f, body[1..], Add64(next, s.counts[i.imm]));
        LeafHasNoCall(s.bodies[i.imm]);
        SpliceHasNoCall(s.bodies[i.imm], next, i.op == CALL);
      }
    }
  }

  lemma {:induction false} LeafHasNoCall(body: Body)
    requires IsLeaf(body)
    ensures !HasCall(body)
  {
  }

  lemma {:induction false} SpliceHasNoCall(callee: Body, base: u64, keepsValue: bool)
    requires !HasCall(callee) && Splice(callee, base, keepsValue).Ok?
    ensures !HasCall(Splice(callee, base, keepsValue).value) && CallCount(Splice(callee, base, keepsValue).value) == 0
  {
    SplicedCodeIsPlain(callee, base, keepsValue);
  }

  // ----- what never goes backwards -----

  /** Calls only disappear from a body; its jumps stay, and named slots stay named. */
  predicate BodyLater(a: Body, b: Body) {
    CallCount(b) <= CallCount(a) && (NoTopSlot(b) ==> NoTopSlot(a)) && KeepsFlow(a, b)
  }

  /** `t` is reached from `s` by visits: leaves stay leaves, and only a function that calls
      another leaf has lost calls. */
  predicate Later(s: State, t: State) {
    && WellFormed(s) && WellFormed(t) && |t.bodies| == |s.bodies|
    && Leaves(s) <= Leaves(t)
    && (forall h :: 0 <= h < |s.bodies| ==> BodyLater(s.bodies[h], t.bodies[h]))
    && (forall h :: 0 <= h < |s.bodies| && CallCount(t.bodies[h]) < CallCount(s.bodies[h]) ==>
          !AvoidsCalls(s.bodies[h], h, Leaves(t)))
  }

  lemma {:induction false} LaterTransitive(s: State, t: State, u: State)
    requires Later(s, t) && Later(t, u)
    ensures Later(s, u)
  {
    hide CallCount, NoTopSlot, IsLeaf, Leaves;
    forall h | 0 <= h < |s.bodies|
      ensures BodyLater(s.bodies[h], u.bodies[h])
      ensures CallCount(u.bodies[h]) < CallCount(s.bodies[h]) ==> !AvoidsCalls(s.bodies[h], h, Leaves(u))
    {
      assert BodyLater(s.bodies[h], t.bodies[h]) && BodyLater(t.bodies[h], u.bodies[h]);
    }
  }

  lemma {:induction false} BodyLaterItself(a: Body)
    ensures BodyLater(a, a)
  {
  }

  lemma {:induction false} RewriteIsLater(s: State, f: nat)
    requires LeavesKnown(s) && f < |s.bodies| && Rewrite(s, f, s.bodies[f], s.counts[f]).Ok?
    ensures BodyLater(s.bodies[f], Rewrite(s, f, s.bodies[f], s.counts[f]).value.body)
  {
    hide CallCount, Rewrite, IsLeaf;
    RewriteCalls(s, f, s.bodies[f], s.counts[f]);
    RewriteKeepsFlow(s, f, s.bodies[f], s.counts[f]);
  }

  lemma {:induction false} VisitIsLater(s: State, f: nat)
    requires LeavesKnown(s) && f < |s.bodies| && VisitFunction(s, f).Ok?
    ensures var v := VisitFunction(s, f).value;
            && LeavesKnown(v.state) && Later(s, v.state)
            && (!v.changed ==> v.state == s)
            && (v.changed <==> exists i :: i in s.bodies[f] && IsInlineable(s, f, i))
            && (v.changed ==> CallCount(v.state.bodies[f]) < CallCount(s.bodies[f]))
            && AvoidsCalls(v.state.bodies[f], f, Leaves(s))
            && (forall h :: 0 <= h < |s.bodies| && h != f ==> v.state.bodies[h] == s.bodies[h])
  {
    hide CallCount, NoTopSlot, Rewrite, LocalCount, BodyLater, HasJump;
    RewriteCalls(s, f, s.bodies[f], s.counts[f]);
    RewriteIsLater(s, f);
    forall h | 0 <= h < |s.bodies|
      ensures BodyLater(s.bodies[h], s.bodies[h])
    {
      BodyLaterItself(s.bodies[h]);
    }
    if VisitFunction(s, f).value.changed {
      var i :| i in s.bodies[f] && IsInlineable(s, f, i);
      assert !s.leaf[f] && i.imm in Leaves(s);
    }
  }

  lemma {:induction false} ScanIsLater(s: State, f: nat)
    requires LeavesKnown(s) && f <= |s.bodies| && Scan(s, f).Ok?
    ensures var v := Scan(s, f).value;
            && LeavesKnown(v.state) && Later(s, v.state)
            && (!v.changed ==> v.state == s)
            && (forall h :: f <= h < |s.bodies| ==> AvoidsCalls(v.state.bodies[h], h, Leaves(s)))
            && (forall h :: 0 <= h < f ==> v.state.bodies[h] == s.bodies[h])
    decreases |s.bodies| - f
  {
    if f < |s.bodies| {
      VisitIsLater(s, f);
      var t := VisitFunction(s, f).value.state;
      ScanIsLater(t, f + 1);
      var u := Scan(t, f + 1).value.state;
      LaterTransitive(s, t, u);
      forall h | f <= h < |s.bodies|
        ensures AvoidsCalls(u.bodies[h], h, Leaves(s))
      {
        if h > f {
          assert AvoidsCalls(u.bodies[h], h, Leaves(t));
        }
      }
    }
  }

  /** A pass that changes something finds, already at its start, a leaf outside any
      set that the remaining functions avoid. */
  lemma {:induction false} ChangeNeedsFreshLeaf(s: State, f: nat, avoided: set<nat>)
    requires LeavesKnown(s) && f <= |s.bodies| && Scan(s, f).Ok? && Scan(s, f).value.changed
    requires forall h :: f <= h < |s.bodies| ==> AvoidsCalls(s.bodies[h], h, avoided)
    ensures exists g :: g in Leaves(s) && g !in avoided
    decreases |s.bodies| - f
  {
    VisitIsLater(s, f);
    if VisitFunction(s, f).value.changed {
      var i :| i in s.bodies[f] && IsInlineable(s, f, i);
      assert i.imm in Leaves(s) && i.imm !in avoided;
    } else {
      ChangeNeedsFreshLeaf(s, f + 1, avoided);
    }
  }

  lemma {:induction false} ScanReachedIsLater(s: State, f: nat)
    requires LeavesKnown(s) && f <= |s.bodies|
    ensures LeavesKnown(ScanReached(s, f)) && Later(s, ScanReached(s, f))
    decreases |s.bodies| - f
  {
    hide VisitFunction, IsLeaf, Leaves, CallCount, NoTopSlot;
    if f < |s.bodies| && VisitFunction(s, f).Ok? {
      VisitIsLater(s, f);
      var t := VisitFunction(s, f).value.state;
      ScanReachedIsLater(t, f + 1);
      LaterTransitive(s, t, ScanReached(t, f + 1));
    }
  }

  lemma {:induction false} ReachedIsLater(s: State, passes: nat)
    requires LeavesKnown(s)
    ensures LeavesKnown(Reached(s, passes)) && Later(s, Reached(s, passes))
    decreases passes
  {
    hide Scan, ScanReached, IsLeaf, Leaves, CallCount, NoTopSlot;
    if passes > 0 {
      ScanReachedIsLater(s, 0);
      if Scan(s, 0).Ok? {
        ScanReaches(s, 0);
        var t := Scan(s, 0).value.state;
        ReachedIsLater(t, passes - 1);
        LaterTransitive(s, t, Reached(t, passes - 1));
      }
    }
  }

  /** What inlining leaves behind, whether or not it reports an error. */
  function InlineReached(bodies: seq<Body>): (r: State)
    ensures WellFormed(r) && |r.bodies| == |bodies|
  {
    Reached(Start(bodies), 2 * |bodies| + 1)
  }

  // ----- the pass bound -----

  predicate NothingToInline(s: State)
    requires WellFormed(s)
  {
    forall f :: 0 <= f < |s.bodies| ==> AvoidsCalls(s.bodies[f], f, Leaves(s))
  }

  lemma {:induction false} BoundedSetSize(a: set<nat>, n: nat)
    requires forall g :: g in a ==> g < n
    ensures |a| <= n
  {
    if n > 0 {
      BoundedSetSize(a - {n - 1}, n - 1);
    } else {
      assert a == {};
    }
  }

  /** After `done` changing passes there are at least `done` leaves that the functions
      already avoid; each further changing pass needs one more. */
  lemma {:induction false} PassesSettle(s: State, passes: nat, done: nat, avoided: set<nat>)
    requires LeavesKnown(s) && Passes(s, passes).Ok?
    requires forall f :: 0 <= f < |s.bodies| ==> AvoidsCalls(s.bodies[f], f, avoided)
    requires avoided <= Leaves(s) && done <= |avoided|
    requires done + passes > |s.bodies|
    ensures var r := Passes(s, passes).value; r.settled && NothingToInline(r.state)
    decreases passes
  {
    hide Scan, IsLeaf, Later;
    assert passes > 0 by {
      BoundedSetSize(avoided, |s.bodies|);
    }
    var v := Scan(s, 0).value;
    ScanIsLater(s, 0);
    if v.changed {
      assert done + 1 <= |Leaves(s)| by {
        ChangeNeedsFreshLeaf(s, 0, avoided);
        SubsetSize(avoided, Leaves(s));
      }
      PassesSettle(v.state, passes - 1, done + 1, Leaves(s));
    }
  }

  lemma {:induction false} SettledStaysSettled(s: State, passes: nat, more: nat)
    requires WellFormed(s) && passes <= more
    requires Passes(s, passes).Ok? && Passes(s, passes).value.settled
    ensures Passes(s, more) == Passes(s, passes)
    decreases passes
  {
    if Scan(s, 0).value.changed {
      SettledStaysSettled(Scan(s, 0).value.state, passes - 1, more - 1);
    }
  }

  lemma {:induction false} FewerPassesSucceed(s: State, passes: nat, more: nat)
    requires WellFormed(s) && passes <= more && Passes(s, more).Ok?
    ensures Passes(s, passes).Ok?
    decreases passes
  {
    if passes > 0 && Scan(s, 0).value.changed {
      FewerPassesSucceed(Scan(s, 0).value.state, passes - 1, more - 1);
    }
  }

  lemma {:induction false} SettlesWithin(s: State, few: nat, many: nat)
    requires LeavesKnown(s) && |s.bodies| < few <= many && Passes(s, many).Ok?
    ensures Passes(s, many).value.settled
    ensures NothingToInline(Passes(s, many).value.state)
    ensures Passes(s, few) == Passes(s, many)
  {
    FewerPassesSucceed(s, few, many);
    PassesSettle(s, few, 0, {});
    SettledStaysSettled(s, few, many);
  }

  /** Whenever inlining reports no error it has stopped because a pass changed nothing,
      and no function is left with a call to another leaf. One pass per function and one
      more would have been enough: the bound of twice that is never reached. */
  lemma {:induction false} PassBoundSuffices(bodies: seq<Body>)
    requires InlineBodies(bodies).Ok?
    ensures InlineBodies(bodies).value.settled
    ensures NothingToInline(InlineBodies(bodies).value.state)
    ensures Passes(Start(bodies), |bodies| + 1) == InlineBodies(bodies)
  {
    SettlesWithin(Start(bodies), |bodies| + 1, 2 * |bodies| + 1);
  }
}
