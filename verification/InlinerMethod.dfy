/** The inliner as it runs: loops that rewrite a module in place. */
module InlinerMethod {
  import opened Ir
  import opened Fallibles
  import opened Inliner

  method ComputeLocalCount(body: Body) returns (count: u64)
    ensures count == LocalCount(body)
  {
    count := 0;
    var i := |body|;
    while i > 0
      invariant 0 <= i <= |body|
      invariant count == LocalCount(body[i..])
    {
      i := i - 1;
      assert body[i..][0] == body[i] && body[i..][1..] == body[i + 1..];
      if IsLocalOp(body[i].op) {
        var here := Add64(body[i].imm, 1);
        count := if here > count then here else count;
      }
    }
    assert body[0..] == body;
  }

  /** The result of continuing with `r` after `out` has been emitted. */
  function Onto(out: Body, r: Result<Body>): Result<Body> {
    match r
    case Ok(code) => Ok(out + code)
    case Err(e) => Err(e)
  }

  function OntoRewritten(out: Body, changed: bool, r: Result<Rewritten>): Result<Rewritten> {
    match r
    case Ok(v) => Ok(Rewritten(out + v.body, v.next, changed || v.changed))
    case Err(e) => Err(e)
  }

  lemma {:induction false} OntoTwice(a: Body, b: Body, r: Result<Body>)
    ensures Onto(a, Onto(b, r)) == Onto(a + b, r) && Onto([], r) == r
  {
    if r.Ok? {
      assert a + (b + r.value) == a + b + r.value && [] + r.value == r.value;
    }
  }

  lemma {:induction false} OntoRewrittenTwice(a: Body, c: bool, b: Body, d: bool, r: Result<Rewritten>)
    ensures OntoRewritten(a, c, OntoRewritten(b, d, r)) == OntoRewritten(a + b, c || d, r)
    ensures OntoRewritten([], false, r) == r
  {
    if r.Ok? {
      assert a + (b + r.value.body) == a + b + r.value.body && [] + r.value.body == r.value.body;
    }
  }

  /** Appends the code of an inlined callee to `out`. */
  method AppendInlinedCallee(callee: Body, base: u64, keepsValue: bool, out: Body) returns (r: Result<Body>)
    ensures r == Onto(out, Splice(callee, base, keepsValue))
  {
    if callee == [] {
      return Err(EmptyCallee);
    }
    if !IsReturn(callee[|callee| - 1].op) {
      return Err(CalleeWithoutReturn);
    }
    var code: Body := [];
    assert callee[0..] == callee;
    OntoTwice([], [], SpliceAll(callee, base, keepsValue));
    for j := 0 to |callee|
      invariant SpliceAll(callee, base, keepsValue) == Onto(code, SpliceAll(callee[j..], base, keepsValue))
    {
      var i := callee[j];
      var here: Body := [];
      assert callee[j..][0] == i && callee[j..][1..] == callee[j + 1..];
      if IsLocalOp(i.op) {
        if i.imm > TWO64 - 1 - base {
          return Err(SlotOverflow);
        }
        here := [Instruction(i.op, i.imm + base, 0)];
      } else if i.op == RETURN_VOID {
        if keepsValue {
          here := [Instruction(PUSH_I32, 0, 0)];
        }
      } else if IsValueReturn(i.op) {
        if !keepsValue {
          here := [Instruction(POP, 0, 0)];
        }
      } else {
        here := [i];
      }
      OntoTwice(code, here, SpliceAll(callee[j + 1..], base, keepsValue));
      code := code + here;
    }
    assert code + [] == code;
    r := Ok(out + code);
  }

  /** One function of one pass. */
  method RewriteFunction(s: State, f: nat) returns (r: Result<Rewritten>)
    requires WellFormed(s) && f < |s.bodies|
    ensures r == Rewrite(s, f, s.bodies[f], s.counts[f])
  {
    var body := s.bodies[f];
    var rewritten: Body := [];
    var next := s.counts[f];
    var changed := false;
    assert body[0..] == body;
    OntoRewrittenTwice([], false, [], false, Rewrite(s, f, body, next));
    for j := 0 to |body|
      invariant Rewrite(s, f, body, s.counts[f]) == OntoRewritten(rewritten, changed, Rewrite(s, f, body[j..], next))
    {
      var i := body[j];
      assert body[j..][0] == i && body[j..][1..] == body[j + 1..];
      if !IsCall(i.op) || (i.imm < |s.bodies| && (i.imm == f || !s.leaf[i.imm])) {
        OntoRewrittenTwice(rewritten, changed, [i], false, Rewrite(s, f, body[j + 1..], next));
        rewritten := rewritten + [i];
        continue;
      }
      if i.imm >= |s.bodies| {
        return Err(InvalidTarget(i.imm, f));
      }
      var spliced := AppendInlinedCallee(s.bodies[i.imm], next, i.op == CALL, rewritten);
      if spliced.Err? {
        return Err(spliced.error);
      }
      ghost var code := Splice(s.bodies[i.imm], next, i.op == CALL).value;
      next := Add64(next, s.counts[i.imm]);
      OntoRewrittenTwice(rewritten, changed, code, true, Rewrite(s, f, body[j + 1..], next));
      rewritten := spliced.value;
      changed := true;
    }
    assert rewritten + [] == rewritten;
    r := Ok(Rewritten(rewritten, next, changed));
  }

  /** The functions of a module with other instruction lists. */
  function WithBodies(functions: seq<Function>, bodies: seq<Body>): (r: seq<Function>)
    requires |bodies| == |functions|
    ensures |r| == |functions| && Bodies(r) == bodies
  {
    seq(|functions|, i requires 0 <= i < |functions| => functions[i].(instructions := bodies[i]))
  }

  method InitialState(bodies: seq<Body>) returns (s: State)
    ensures s == Start(bodies)
  {
    var counts: seq<u64> := [];
    var leaf: seq<bool> := [];
    for f := 0 to |bodies|
      invariant |counts| == f && |leaf| == f
      invariant State(bodies[..f], counts, leaf) == Start(bodies[..f])
    {
      var count := ComputeLocalCount(bodies[f]);
      counts, leaf := counts + [count], leaf + [IsLeaf(bodies[f])];
      assert bodies[..f + 1][..f] == bodies[..f];
    }
    assert bodies[..|bodies|] == bodies;
    s := State(bodies, counts, leaf);
  }

  function OntoVisit(changed: bool, r: Result<Visit>): Result<Visit> {
    match r
    case Ok(v) => Ok(v.(changed := changed || v.changed))
    case Err(e) => Err(e)
  }

  function ErrorOf<T>(r: Result<T>): Option<Error> {
    match r case Ok(_) => None case Err(e) => Some(e)
  }

  /** One pass over all functions; at an error, what was rewritten before it stays. */
  method RunPass(before: State) returns (s: State, changed: bool, error: Option<Error>)
    requires WellFormed(before)
    ensures s == ScanReached(before, 0) && error == ErrorOf(Scan(before, 0))
    ensures error.None? ==> Scan(before, 0) == Ok(Visit(s, changed))
  {
    hide Rewrite, IsLeaf;
    s, changed, error := before, false, None;
    for f := 0 to |before.bodies|
      invariant WellFormed(s) && |s.bodies| == |before.bodies|
      invariant Scan(before, 0) == OntoVisit(changed, Scan(s, f)) && ScanReached(before, 0) == ScanReached(s, f)
    {
      var visited := RewriteFunction(s, f);
      if visited.Err? {
        error := Some(visited.error);
        return;
      }
      if visited.value.changed {
        s := State(s.bodies[f := visited.value.body], s.counts[f := visited.value.next],
                   s.leaf[f := IsLeaf(visited.value.body)]);
        changed := true;
      }
    }
  }

  /** `inlineIrModuleCalls`: the module as it is left behind, and the first error met, if any.
      Without an error it is the one of `InlineBodies`. */
  method InlineModuleCalls(module_: Module) returns (out: Module, error: Option<Error>)
    ensures var bodies := Bodies(module_.functions);
            && out == module_.(functions := WithBodies(module_.functions, Reached(Start(bodies), 2 * |bodies| + 1).bodies))
            && error == ErrorOf(InlineBodies(bodies))
            && (error.None? ==> Bodies(out.functions) == InlineBodies(bodies).value.state.bodies)
  {
    hide Scan, ScanReached, Start, WithBodies, Bodies;
    var bodies := Bodies(module_.functions);
    var s := InitialState(bodies);
    var maxPasses := 2 * |bodies| + 1;
    var pass := 0;
    ghost var start := s;
    error := None;
    while pass < maxPasses
      invariant 0 <= pass <= maxPasses && WellFormed(s) && |s.bodies| == |bodies|
      invariant Passes(start, maxPasses) == Passes(s, maxPasses - pass)
      invariant Reached(start, maxPasses) == Reached(s, maxPasses - pass)
    {
      var after, changed, failure := RunPass(s);
      s := after;
      if failure.Some? {
        out, error := module_.(functions := WithBodies(module_.functions, s.bodies)), failure;
        return;
      }
      if !changed {
        break;
      }
      pass := pass + 1;
    }
    PassesReach(start, maxPasses);
    out := module_.(functions := WithBodies(module_.functions, s.bodies));
  }
}
