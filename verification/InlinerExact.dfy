/** What inlining leaves of a module, in terms of opcodes alone. */
module InlinerExact {
  import opened Ir
  import opened Inliner

  /** The code calls or jumps. */
  predicate Branches(body: Body) {
    exists i :: i in body && (i.op == CALL || i.op == CALL_VOID || i.op == JUMP || i.op == JUMP_IF_ZERO)
  }

  /** The code ends in one of the five returns. */
  predicate EndsInReturn(body: Body) {
    body != [] &&
    var op := body[|body| - 1].op;
    op == RETURN_VOID || op == RETURN_I32 || op == RETURN_I64 || op == RETURN_F32 || op == RETURN_F64
  }

  lemma {:induction false} LeafInOpcodes(body: Body)
    ensures IsLeaf(body) <==> !Branches(body) && EndsInReturn(body)
  {
  }

  // ----- calls that are left -----

  lemma {:induction false} StartKnowsLeaves(bodies: seq<Body>)
    ensures LeavesKnown(Start(bodies))
  {
  }

  lemma {:induction false} EndIsLater(bodies: seq<Body>)
    requires InlineBodies(bodies).Ok?
    ensures LeavesKnown(InlineBodies(bodies).value.state) && Later(Start(bodies), InlineBodies(bodies).value.state)
  {
    hide Passes, Reached, LeavesKnown, Later, Start;
    StartKnowsLeaves(bodies);
    PassesReach(Start(bodies), 2 * |bodies| + 1);
    ReachedIsLater(Start(bodies), 2 * |bodies| + 1);
  }

  /** What is known of the leaves says which functions are none. */
  lemma {:induction false} NoLeafInOpcodes(t: State, g: nat)
    requires LeavesKnown(t)
    ensures g in Leaves(t) <==> g < |t.bodies| && !Branches(t.bodies[g]) && EndsInReturn(t.bodies[g])
  {
    hide IsLeaf, Branches, EndsInReturn;
    if g < |t.bodies| {
      LeafInOpcodes(t.bodies[g]);
    }
  }

  lemma {:induction false} CallsComeFrom(bodies: seq<Body>, t: State, f: nat, i: Instruction)
    requires Later(Start(bodies), t) && f < |bodies| && i in t.bodies[f] && IsCall(i.op)
    ensures i in bodies[f] && |t.bodies| == |bodies|
  {
    hide Leaves, CallCount, NoTopSlot, LocalCount, IsLeaf;
    assert BodyLater(Start(bodies).bodies[f], t.bodies[f]);
  }

  /** If inlining reports no error, every call that is left, but for calls of a function to
      itself, goes to code that branches, is empty, or does not end in a return. */
  lemma {:induction false} NoLeafIsCalled(bodies: seq<Body>, f: nat, i: Instruction)
    requires InlineBodies(bodies).Ok? && f < |bodies|
    requires i in InlineBodies(bodies).value.state.bodies[f] && (i.op == CALL || i.op == CALL_VOID) && i.imm != f
    ensures i.imm < |bodies|
    ensures var callee := InlineBodies(bodies).value.state.bodies[i.imm]; Branches(callee) || !EndsInReturn(callee)
  {
    hide InlineBodies, IsLeaf, Branches, EndsInReturn, LeavesKnown, Later, Start, Leaves;
    var t := InlineBodies(bodies).value.state;
    PassBoundSuffices(bodies);
    EndIsLater(bodies);
    TargetsAreValid(bodies, f);
    CallsComeFrom(bodies, t, f, i);
    assert AvoidsCalls(t.bodies[f], f, Leaves(t));
    NoLeafInOpcodes(t, i.imm);
  }

  // ----- valid targets -----

  lemma {:induction false} RewriteChecksTargets(s: State, f: nat, body: Body, next: u64)
    requires WellFormed(s) && Rewrite(s, f, body, next).Ok?
    ensures forall i :: i in body && IsCall(i.op) ==> i.imm < |s.bodies|
  {
    hide Splice;
    if body != [] {
      assert body == [body[0]] + body[1..];
      if IsInlineable(s, f, body[0]) {
        RewriteChecksTargets(s, f, body[1..], Add64(next, s.counts[body[0].imm]));
      } else {
        RewriteChecksTargets(s, f, body[1..], next);
      }
    }
  }

  lemma {:induction false} ScanChecksTargets(s: State, f: nat, h: nat)
    requires WellFormed(s) && f <= h < |s.bodies| && Scan(s, f).Ok?
    ensures forall i :: i in s.bodies[h] && IsCall(i.op) ==> i.imm < |s.bodies|
    decreases |s.bodies| - f
  {
    hide Rewrite, IsLeaf;
    if f == h {
      RewriteChecksTargets(s, f, s.bodies[f], s.counts[f]);
    } else {
      ScanChecksTargets(VisitFunction(s, f).value.state, f + 1, h);
    }
  }

  /** Inlining reports an error if any call of the module has an invalid target. */
  lemma {:induction false} TargetsAreValid(bodies: seq<Body>, f: nat)
    requires InlineBodies(bodies).Ok? && f < |bodies|
    ensures forall i :: i in bodies[f] && (i.op == CALL || i.op == CALL_VOID) ==> i.imm < |bodies|
  {
    hide Scan, LocalCount, IsLeaf;
    ScanChecksTargets(Start(bodies), 0, f);
  }

  // ----- calls that stay -----

  /** Calls of a function to itself, and calls to what never becomes a leaf, stay. */
  predicate KeepsOthers(s: State, t: State, leaves: set<nat>)
    requires |s.bodies| == |t.bodies|
  {
    forall f, i :: 0 <= f < |s.bodies| && i in s.bodies[f] && IsCall(i.op) && (i.imm == f || i.imm !in leaves) ==> i in t.bodies[f]
  }

  lemma {:induction false} VisitKeepsOthers(s: State, f: nat, leaves: set<nat>)
    requires LeavesKnown(s) && f < |s.bodies| && VisitFunction(s, f).Ok? && Leaves(s) <= leaves
    ensures KeepsOthers(s, VisitFunction(s, f).value.state, leaves)
  {
    hide Rewrite, IsLeaf, CallCount;
    RewriteKeepsFlow(s, f, s.bodies[f], s.counts[f]);
    var t := VisitFunction(s, f).value.state;
    forall h, i | 0 <= h < |s.bodies| && i in s.bodies[h] && IsCall(i.op) && (i.imm == h || i.imm !in leaves)
      ensures i in t.bodies[h]
    {
      if h == f {
        assert !IsInlineable(s, f, i) by { assert i.imm < |s.bodies| && s.leaf[i.imm] ==> i.imm in Leaves(s); }
      }
    }
  }

  lemma {:induction false} ScanKeepsOthers(s: State, f: nat, leaves: set<nat>)
    requires LeavesKnown(s) && f <= |s.bodies| && Scan(s, f).Ok? && Leaves(Scan(s, f).value.state) <= leaves
    ensures KeepsOthers(s, Scan(s, f).value.state, leaves)
    decreases |s.bodies| - f
  {
    hide VisitFunction, IsLeaf, CallCount, Leaves;
    if f < |s.bodies| {
      var v := VisitFunction(s, f).value.state;
      VisitIsLater(s, f);
      ScanIsLater(s, f);
      ScanIsLater(v, f + 1);
      VisitKeepsOthers(s, f, leaves);
      ScanKeepsOthers(v, f + 1, leaves);
    }
  }

  lemma {:induction false} PassesKeepOthers(s: State, passes: nat, leaves: set<nat>)
    requires LeavesKnown(s) && Passes(s, passes).Ok? && Leaves(Passes(s, passes).value.state) <= leaves
    ensures KeepsOthers(s, Passes(s, passes).value.state, leaves)
    decreases passes
  {
    hide Scan, IsLeaf, CallCount, Leaves, KeepsOthers;
    if passes == 0 {
      KeepsItself(s, leaves);
    } else {
      var v := Scan(s, 0).value;
      ScanIsLater(s, 0);
      if v.changed {
        PassesReach(v.state, passes - 1);
        ReachedIsLater(v.state, passes - 1);
        ScanKeepsOthers(s, 0, leaves);
        PassesKeepOthers(v.state, passes - 1, leaves);
        KeepsOn(s, v.state, Passes(s, passes).value.state, leaves);
      } else {
        ScanKeepsOthers(s, 0, leaves);
      }
    }
  }

  lemma {:induction false} KeepsItself(s: State, leaves: set<nat>)
    ensures KeepsOthers(s, s, leaves)
  {
  }

  lemma {:induction false} KeepsOn(s: State, t: State, u: State, leaves: set<nat>)
    requires |s.bodies| == |t.bodies| == |u.bodies| && KeepsOthers(s, t, leaves) && KeepsOthers(t, u, leaves)
    ensures KeepsOthers(s, u, leaves)
  {
  }

  /** A call disappears only if its callee ends up as straight code that ends in a return, and
      never if a function calls itself. */
  lemma {:induction false} OnlyLeavesAreInlined(bodies: seq<Body>, f: nat, i: Instruction)
    requires InlineBodies(bodies).Ok? && f < |bodies| && i in bodies[f] && (i.op == CALL || i.op == CALL_VOID)
    requires i.imm == f || i.imm >= |bodies|
             || Branches(InlineBodies(bodies).value.state.bodies[i.imm]) || !EndsInReturn(InlineBodies(bodies).value.state.bodies[i.imm])
    ensures i in InlineBodies(bodies).value.state.bodies[f]
  {
    hide Passes, IsLeaf, Branches, EndsInReturn, LeavesKnown, Later, Leaves;
    var s, t := Start(bodies), InlineBodies(bodies).value.state;
    EndIsLater(bodies);
    StartKnowsLeaves(bodies);
    PassesKeepOthers(s, 2 * |bodies| + 1, Leaves(t));
    NoLeafInOpcodes(t, i.imm);
  }

  // ----- spliced instructions -----

  /** An instruction of spliced code: one of the callee's own, with its debug id; or, without
      one, a renamed slot access or what a return becomes. */
  predicate Stems(callee: Body, base: u64, j: Instruction) {
    || (j in callee && !IsLocalOp(j.op) && !IsReturn(j.op))
    || (exists i :: i in callee && (i.op == LOAD_LOCAL || i.op == STORE_LOCAL || i.op == ADDRESS_OF_LOCAL)
                    && j == Instruction(i.op, j.imm, 0) && j.imm == i.imm + base)
    || (j == Instruction(PUSH_I32, 0, 0) && exists i :: i in callee && i.op == RETURN_VOID)
    || (j == Instruction(POP, 0, 0) && exists i :: i in callee && IsValueReturn(i.op))
  }

  lemma {:induction false} SplicedInstructions(callee: Body, base: u64, keepsValue: bool)
    requires SpliceAll(callee, base, keepsValue).Ok?
    ensures forall j :: j in SpliceAll(callee, base, keepsValue).value ==> Stems(callee, base, j)
  {
    if callee != [] {
      SplicedInstructions(callee[1..], base, keepsValue);
      assert callee == [callee[0]] + callee[1..];
      var here, rest := SpliceOne(callee[0], base, keepsValue).value, SpliceAll(callee[1..], base, keepsValue).value;
      forall j | j in here + rest
        ensures Stems(callee, base, j)
      {
        if j in rest {
          assert Stems(callee[1..], base, j);
        } else {
          assert callee[0] in callee;
        }
      }
    }
  }

  // ----- frame sizes -----

  /** The frame is just large enough for the slots the code names. */
  lemma {:induction false} FrameIsLeast(body: Body)
    requires forall i :: i in body && IsLocalOp(i.op) ==> i.imm < TWO64 - 1
    ensures forall i :: i in body && (i.op == LOAD_LOCAL || i.op == STORE_LOCAL || i.op == ADDRESS_OF_LOCAL) ==> i.imm < LocalCount(body)
    ensures LocalCount(body) == 0 || exists i :: i in body && IsLocalOp(i.op) && i.imm + 1 == LocalCount(body)
  {
    if body != [] {
      assert body == [body[0]] + body[1..] && body[0] in body;
      FrameIsLeast(body[1..]);
    }
  }
}
