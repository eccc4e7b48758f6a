/** Why inlining stops, and what it leaves behind when it does. */
module InlinerFailures {
  import opened Ir
  import opened Fallibles
  import opened Inliner
  import opened InlinerExact

  // ----- splicing -----

  /** Code is spliced exactly if each of its slots has a number from the base on; the largest is
      2^64 - 1. */
  lemma {:induction false} SpliceOverflowsExactly(callee: Body, base: u64, keepsValue: bool)
    ensures SpliceAll(callee, base, keepsValue).Ok? <==>
            forall i :: i in callee && (i.op == LOAD_LOCAL || i.op == STORE_LOCAL || i.op == ADDRESS_OF_LOCAL) ==>
              i.imm + base < 0x1_0000_0000_0000_0000
    ensures SpliceAll(callee, base, keepsValue).Err? ==> SpliceAll(callee, base, keepsValue) == Err(SlotOverflow)
  {
    if callee != [] {
      assert callee == [callee[0]] + callee[1..];
      assert forall i :: i in callee <==> i == callee[0] || i in callee[1..];
      SpliceOverflowsExactly(callee[1..], base, keepsValue);
    }
  }

  // ----- one function -----

  /** Function `f` calls what is no function, or a leaf that has no room for its slots. */
  predicate Explains(s: State, f: nat, body: Body, e: Error)
    requires WellFormed(s)
  {
    match e
    case InvalidTarget(target, caller) =>
      target >= |s.bodies| && caller == f && exists i :: i in body && IsCall(i.op) && i.imm == target
    case SlotOverflow => exists i :: i in body && IsInlineable(s, f, i) && NeedsSlots(s.bodies[i.imm])
    case _ => false
  }

  /** Some slot is named. */
  predicate NeedsSlots(body: Body) { exists i :: i in body && IsLocalOp(i.op) }

  lemma {:induction false} OverflowNeedsSlots(callee: Body, base: u64, keepsValue: bool)
    requires IsLeaf(callee) && Splice(callee, base, keepsValue).Err?
    ensures Splice(callee, base, keepsValue) == Err(SlotOverflow) && NeedsSlots(callee)
  {
    hide SpliceAll;
    SpliceOverflowsExactly(callee, base, keepsValue);
  }

  lemma {:induction false} RewriteFailsFor(s: State, f: nat, body: Body, next: u64)
    requires LeavesKnown(s) && Rewrite(s, f, body, next).Err?
    ensures Explains(s, f, body, Rewrite(s, f, body, next).error)
  {
    hide Splice, IsLeaf, NeedsSlots;
    if body != [] {
      var i := body[0];
      assert body == [i] + body[1..];
      if IsInlineable(s, f, i) {
        if Splice(s.bodies[i.imm], next, i.op == CALL).Err? {
          OverflowNeedsSlots(s.bodies[i.imm], next, i.op == CALL);
        } else {
          RewriteFailsFor(s, f, body[1..], Add64(next, s.counts[i.imm]));
        }
      } else if i.imm < |s.bodies| || !IsCall(i.op) {
        RewriteFailsFor(s, f, body[1..], next);
      }
    }
  }

  // ----- one pass -----

  /** A pass stops at the first function that fails, and keeps what it did before. */
  lemma {:induction false} ScanStops(s: State, f: nat) returns (e: nat)
    requires LeavesKnown(s) && f <= |s.bodies| && Scan(s, f).Err?
    ensures f <= e < |s.bodies| && LeavesKnown(ScanReached(s, f)) && Later(s, ScanReached(s, f))
    ensures var t := ScanReached(s, f);
            && Explains(t, e, t.bodies[e], Scan(s, f).error)
            && forall h :: f <= h < e ==> AvoidsCalls(t.bodies[h], h, Leaves(s))
    ensures forall h :: e <= h < |s.bodies| || h < f ==> 0 <= h < |s.bodies| ==> ScanReached(s, f).bodies[h] == s.bodies[h]
    decreases |s.bodies| - f
  {
    hide Rewrite, IsLeaf, CallCount, BodyLater, Explains;
    ScanReachedIsLater(s, f);
    var visited := VisitFunction(s, f);
    if visited.Err? {
      RewriteFailsFor(s, f, s.bodies[f], s.counts[f]);
      e := f;
    } else {
      VisitIsLater(s, f);
      var t := visited.value.state;
      e := ScanStops(t, f + 1);
      var u := ScanReached(t, f + 1);
      forall h | f <= h < e
        ensures AvoidsCalls(u.bodies[h], h, Leaves(s))
      {
        if h > f {
          assert AvoidsCalls(u.bodies[h], h, Leaves(t));
        }
      }
    }
  }

  // ----- the whole -----

  /** The code of function `h` calls no other function that was straight code with a return to
      begin with. */
  predicate IsRid(bodies: seq<Body>, body: Body, h: nat) {
    forall i :: i in body && (i.op == CALL || i.op == CALL_VOID) && i.imm < |bodies| && i.imm != h ==>
      Branches(bodies[i.imm]) || !EndsInReturn(bodies[i.imm])
  }

  lemma {:induction false} PassesStop(s: State, passes: nat) returns (e: nat)
    requires LeavesKnown(s) && Passes(s, passes).Err?
    ensures e < |s.bodies| && LeavesKnown(Reached(s, passes)) && Later(s, Reached(s, passes))
    ensures var t := Reached(s, passes);
            && Explains(t, e, t.bodies[e], Passes(s, passes).error)
            && forall h :: 0 <= h < e ==> AvoidsCalls(t.bodies[h], h, Leaves(s))
    decreases passes
  {
    hide Scan, ScanReached, IsLeaf, CallCount, BodyLater, Explains;
    if Scan(s, 0).Err? {
      e := ScanStops(s, 0);
    } else {
      ScanIsLater(s, 0);
      var v := Scan(s, 0).value;
      e := PassesStop(v.state, passes - 1);
      LaterTransitive(s, v.state, Reached(s, passes));
      var t := Reached(s, passes);
      forall h | 0 <= h < e
        ensures AvoidsCalls(t.bodies[h], h, Leaves(s))
      {
        assert AvoidsCalls(t.bodies[h], h, Leaves(v.state));
      }
    }
  }

  /** The code inlining leaves behind, be it for an error or at its end. */
  function Left(bodies: seq<Body>): (left: seq<Body>)
    ensures |left| == |bodies|
  {
    Reached(Start(bodies), 2 * |bodies| + 1).bodies
  }

  lemma {:induction false} AvoidingIsRid(bodies: seq<Body>, body: Body, h: nat)
    requires AvoidsCalls(body, h, Leaves(Start(bodies)))
    ensures IsRid(bodies, body, h)
  {
    hide IsLeaf, LocalCount, Branches, EndsInReturn;
    var s := Start(bodies);
    forall i | i in body && IsCall(i.op) && i.imm < |bodies| && i.imm != h
      ensures Branches(bodies[i.imm]) || !EndsInReturn(bodies[i.imm])
    {
      LeafInOpcodes(bodies[i.imm]);
      assert s.leaf[i.imm] ==> i.imm in Leaves(s);
    }
  }

  /** Inlining fails for one of two reasons: a call in the module given has no such target, and
      is named with its function; or a function is to be inlined whose slots do not all get a
      number. It never fails for a callee that is empty or does not return. Every function before
      the one it stops at has then been rid of its calls to functions that were, from the start,
      code without calls and jumps that ends in a return. */
  lemma {:induction false} FailureIsExplained(bodies: seq<Body>) returns (f: nat)
    requires InlineBodies(bodies).Err?
    ensures f < |bodies|
    ensures match InlineBodies(bodies).error
            case InvalidTarget(target, caller) =>
              caller == f && target >= |bodies| && exists i :: i in bodies[f] && (i.op == CALL || i.op == CALL_VOID) && i.imm == target
            case SlotOverflow =>
              exists i :: i in bodies[f] && (i.op == CALL || i.op == CALL_VOID) && i.imm < |bodies| && i.imm != f
            case _ => false
    ensures forall h :: 0 <= h < f ==> IsRid(bodies, Left(bodies)[h], h)
  {
    hide Passes, Reached, IsLeaf, CallCount, LocalCount, NeedsSlots, IsRid, AvoidsCalls, Leaves, Start;
    var s := Start(bodies);
    StartKnowsLeaves(bodies);
    f := PassesStop(s, 2 * |bodies| + 1);
    var t := Reached(s, 2 * |bodies| + 1);
    assert KeepsFlow(bodies[f], t.bodies[f]) by { assert BodyLater(s.bodies[f], t.bodies[f]); }
    forall h | 0 <= h < f
      ensures IsRid(bodies, t.bodies[h], h)
    {
      AvoidingIsRid(bodies, t.bodies[h], h);
    }
  }
}
